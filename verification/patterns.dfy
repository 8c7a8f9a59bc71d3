/**
 * The two regular expressions the SRT reader of set_sub.py applies, written
 * out as the matches Python's `re` engine finds:
 *   - `re.split(r'\n\s*\n', text)`, which cuts a track into blocks, and
 *   - `re.sub(r'<[^>]+>', '', text)`, which deletes markup spans.
 */
module Patterns {
  import opened Wrappers
  import opened Strings

  /** End of the longest run of whitespace starting at `i`: what a greedy `\s*` consumes. */
  function SpaceRunEnd(s: string, i: nat): (j: nat)
    requires i <= |s|
    ensures i <= j <= |s|
    ensures forall k :: i <= k < j ==> IsSpace(s[k])
    ensures j == |s| || !IsSpace(s[j])
    decreases |s| - i
  {
    if i < |s| && IsSpace(s[i]) then SpaceRunEnd(s, i + 1) else i
  }

  /** The last newline in `s[i..j]`: where a backtracking `\s*` gives up characters until `\n` can match. */
  function LastNewline(s: string, i: nat, j: nat): (r: Option<nat>)
    requires i <= j <= |s|
    ensures r.Some? ==> i <= r.value < j && s[r.value] == '\n'
    ensures r.Some? ==> forall k :: r.value < k < j ==> s[k] != '\n'
    ensures r.None? ==> forall k :: i <= k < j ==> s[k] != '\n'
    decreases j - i
  {
    if j == i then None
    else if s[j - 1] == '\n' then Some(j - 1)
    else LastNewline(s, i, j - 1)
  }

  /**
   * Where a match of `\n\s*\n` that starts at `p` ends, if one starts there:
   * a newline, the longest whitespace run, then back to the last newline in it.
   */
  function BreakAt(s: string, p: nat): (r: Option<nat>)
    requires p < |s|
    ensures r.Some? ==> p + 2 <= r.value <= |s|
  {
    if s[p] != '\n' then None
    else
      match LastNewline(s, p + 1, SpaceRunEnd(s, p + 1))
      case None => None
      case Some(q) => Some(q + 1)
  }

  /**
   * A match starts at `p` exactly when `s[p]` is a newline and the whitespace
   * run after it holds another; it takes that whole run up to its last newline.
   */
  lemma BreakAtMatches(s: string, p: nat)
    requires p < |s|
    ensures BreakAt(s, p).Some? <==> s[p] == '\n' && exists k :: p < k < SpaceRunEnd(s, p + 1) && s[k] == '\n'
    ensures BreakAt(s, p).Some? ==> var e := BreakAt(s, p).value;
      s[e - 1] == '\n' && e <= SpaceRunEnd(s, p + 1) && forall k :: e <= k < SpaceRunEnd(s, p + 1) ==> s[k] != '\n'
  {
  }

  /** The leftmost match of `\n\s*\n` at or after `p`, as its start and end. */
  function FindBreak(s: string, p: nat): (r: Option<(nat, nat)>)
    requires p <= |s|
    ensures r.Some? ==> p <= r.value.0 < |s| && BreakAt(s, r.value.0) == Some(r.value.1)
    decreases |s| - p
  {
    if p == |s| then None
    else
      match BreakAt(s, p)
      case Some(e) => Some((p, e))
      case None => FindBreak(s, p + 1)
  }

  /** The match found is the leftmost one: nothing matches between `p` and it, or anywhere after `p` when none is found. */
  lemma {:induction false} FindBreakLeftmost(s: string, p: nat)
    requires p <= |s|
    ensures FindBreak(s, p).Some? ==> forall q :: p <= q < FindBreak(s, p).value.0 ==> BreakAt(s, q).None?
    ensures FindBreak(s, p).None? ==> forall q :: p <= q < |s| ==> BreakAt(s, q).None?
    decreases |s| - p
  {
    hide BreakAt;
    if p < |s| && BreakAt(s, p).None? {
      FindBreakLeftmost(s, p + 1);
    }
  }

  /** `re.split(r'\n\s*\n', s)`: the text between successive leftmost matches. */
  function SplitBlank(s: string): (r: seq<string>)
    ensures |r| > 0
    decreases |s|
  {
    match FindBreak(s, 0)
    case None => [s]
    case Some((p, e)) => [s[..p]] + SplitBlank(s[e..])
  }

  /** Every newline of `a` is followed, inside `a`, by a character that is not whitespace. */
  predicate NewlinesGuarded(a: string) {
    forall p :: 0 <= p < |a| && a[p] == '\n' ==> p + 1 < |a| && !IsSpace(a[p + 1])
  }

  /** No match of `\n\s*\n` starts inside a guarded prefix, whatever follows it. */
  lemma GuardedHasNoBreak(a: string, t: string, p: nat)
    requires NewlinesGuarded(a) && p < |a|
    ensures BreakAt(a + t, p).None?
  {
    var s := a + t;
    if s[p] == '\n' {
      assert a[p] == '\n';
      assert !IsSpace(s[p + 1]);
      assert SpaceRunEnd(s, p + 1) == p + 1;
    }
  }

  /** Searching from `p` finds what searching from `q` finds when nothing matches in between. */
  lemma {:induction false} FindBreakSkip(s: string, p: nat, q: nat)
    requires p <= q <= |s|
    requires forall k :: p <= k < q ==> BreakAt(s, k).None?
    ensures FindBreak(s, p) == FindBreak(s, q)
    decreases q - p
  {
    hide BreakAt;
    if p < q {
      FindBreakSkip(s, p + 1, q);
    }
  }

  /** A guarded block followed by one blank line and a non-blank line is split off first. */
  lemma SplitBlankCons(a: string, rest: string)
    requires NewlinesGuarded(a)
    requires |rest| > 0 && !IsSpace(rest[0])
    ensures SplitBlank(a + "\n\n" + rest) == [a] + SplitBlank(rest)
  {
    var s := a + "\n\n" + rest;
    assert s == a + ("\n\n" + rest);
    forall k | 0 <= k < |a| ensures BreakAt(s, k).None? {
      GuardedHasNoBreak(a, "\n\n" + rest, k);
    }
    FindBreakSkip(s, 0, |a|);
    assert s[|a|] == '\n' && s[|a| + 1] == '\n' && !IsSpace(s[|a| + 2]);
    assert SpaceRunEnd(s, |a| + 2) == |a| + 2;
    assert SpaceRunEnd(s, |a| + 1) == |a| + 2;
    assert BreakAt(s, |a|) == Some(|a| + 2);
    assert s[..|a|] == a && s[|a| + 2..] == rest;
  }

  /** A guarded text is a single block. */
  lemma SplitBlankSingle(a: string)
    requires NewlinesGuarded(a)
    ensures SplitBlank(a) == [a]
  {
    forall k | 0 <= k < |a| ensures BreakAt(a, k).None? {
      GuardedHasNoBreak(a, "", k);
      assert a + "" == a;
    }
    FindBreakSkip(a, 0, |a|);
  }

  /** Guarded, non-empty blocks that start with a non-blank character, separated by blank lines, split back apart. */
  lemma {:induction false} SplitBlankJoin(blocks: seq<string>)
    requires |blocks| > 0
    requires forall i :: 0 <= i < |blocks| ==> |blocks[i]| > 0 && !IsSpace(blocks[i][0]) && NewlinesGuarded(blocks[i])
    ensures SplitBlank(Join(blocks, "\n\n")) == blocks
    decreases |blocks|
  {
    if |blocks| == 1 {
      SplitBlankSingle(blocks[0]);
    } else {
      var rest := Join(blocks[1..], "\n\n");
      SplitBlankJoin(blocks[1..]);
      JoinHead(blocks[1..], "\n\n");
      SplitBlankCons(blocks[0], rest);
      assert blocks == [blocks[0]] + blocks[1..];
    }
  }

  /** A join of non-empty parts starts with the first part's first character. */
  lemma JoinHead(parts: seq<string>, sep: string)
    requires |parts| > 0 && |parts[0]| > 0
    ensures |Join(parts, sep)| > 0 && Join(parts, sep)[0] == parts[0][0]
  {
  }

  /**
   * `re.sub(r'<[^>]+>', '', s)`: at each `<`, the match runs to the first
   * `>` after it and needs at least one character in between; without such
   * a `>` the `<` stays and the scan moves on one character.
   */
  function RemoveTags(s: string): (r: string)
    ensures |r| <= |s|
    decreases |s|
  {
    if |s| == 0 then ""
    else if s[0] == '<' then
      match IndexOf(s[1..], ">")
      case Some(k) => if k > 0 then RemoveTags(s[k + 2..]) else "<" + RemoveTags(s[1..])
      case None => "<" + RemoveTags(s[1..])
    else [s[0]] + RemoveTags(s[1..])
  }

  /** Text in which `<[^>]+>` matches nowhere: each `<` is followed directly by `>`, or by no `>` at all. */
  predicate TagFree(s: string) {
    forall p :: 0 <= p < |s| && s[p] == '<' ==> (p + 1 < |s| && s[p + 1] == '>') || '>' !in s[p + 1..]
  }

  /** Removing tags only deletes characters: the rest keep their order, and nothing new appears. */
  lemma {:induction false} RemoveTagsSubset(s: string)
    ensures Subsequence(RemoveTags(s), s)
    ensures forall c :: c in RemoveTags(s) ==> c in s
    decreases |s|
  {
    if |s| > 0 {
      hide Subsequence;
      RemoveTagsSubset(s[1..]);
      assert s == [s[0]] + s[1..];
      if s[0] == '<' {
        match IndexOf(s[1..], ">")
        case Some(k) =>
          if k > 0 {
            RemoveTagsSubset(s[k + 2..]);
            SubsequenceSuffix(RemoveTags(s[k + 2..]), s, k + 2);
          } else {
            SubsequenceCons(s[0], RemoveTags(s[1..]), s[1..]);
          }
        case None =>
          SubsequenceCons(s[0], RemoveTags(s[1..]), s[1..]);
      } else {
        SubsequenceCons(s[0], RemoveTags(s[1..]), s[1..]);
      }
    }
  }

  /** Tag-free text is left alone. */
  lemma {:induction false} RemoveTagsOfTagFree(s: string)
    requires TagFree(s)
    ensures RemoveTags(s) == s
    decreases |s|
  {
    if |s| > 0 {
      TagFreeTail(s);
      RemoveTagsOfTagFree(s[1..]);
      if s[0] == '<' {
        if |s| > 1 && s[1] == '>' {
          assert OccursAt(s[1..], ">", 0);
          assert IndexOf(s[1..], ">") == Some(0);
        } else {
          assert '>' !in s[1..];
          NotContainsFirstChar(s[1..], ">");
        }
      }
      assert s == [s[0]] + s[1..];
    }
  }

  lemma TagFreeTail(s: string)
    requires |s| > 0 && TagFree(s)
    ensures TagFree(s[1..])
  {
    forall p | 0 <= p < |s[1..]| && s[1..][p] == '<'
      ensures (p + 1 < |s[1..]| && s[1..][p + 1] == '>') || '>' !in s[1..][p + 1..]
    {
      assert s[p + 1] == '<';
      assert s[1..][p + 1..] == s[p + 2..];
    }
  }

  /** Prefixing a character that is not `<` keeps text tag-free. */
  lemma TagFreeCons(c: char, x: string)
    requires TagFree(x)
    requires c == '<' ==> (|x| > 0 && x[0] == '>') || '>' !in x
    ensures TagFree([c] + x)
  {
    var s := [c] + x;
    forall p | 0 <= p < |s| && s[p] == '<'
      ensures (p + 1 < |s| && s[p + 1] == '>') || '>' !in s[p + 1..]
    {
      if p > 0 {
        assert x[p - 1] == '<';
        assert s[p + 1..] == x[p..];
      } else {
        assert s[1..] == x;
      }
    }
  }

  /** No `<[^>]+>` match survives the substitution. */
  lemma {:induction false} RemoveTagsTagFree(s: string)
    ensures TagFree(RemoveTags(s))
    decreases |s|
  {
    if |s| > 0 {
      var t := s[1..];
      RemoveTagsTagFree(t);
      if s[0] != '<' {
        TagFreeCons(s[0], RemoveTags(t));
      } else if IndexOf(t, ">").Some? && IndexOf(t, ">").value > 0 {
        RemoveTagsTagFree(s[IndexOf(t, ">").value + 2..]);
      } else {
        KeptOpenTagFree(t);
      }
    }
  }

  /** A `<` that the substitution keeps cannot start a match in the result. */
  lemma KeptOpenTagFree(t: string)
    requires IndexOf(t, ">").None? || IndexOf(t, ">") == Some(0)
    requires TagFree(RemoveTags(t))
    ensures TagFree(RemoveTags("<" + t))
  {
    hide Subsequence;
    var s := "<" + t;
    assert s[1..] == t;
    if IndexOf(t, ">") == Some(0) {
      assert OccursAt(t, ">", 0);
      assert t == [t[0]] + t[1..];
      assert RemoveTags(t) == ">" + RemoveTags(t[1..]);
    } else {
      RemoveTagsSubset(t);
      forall j | 0 <= j < |t| ensures t[j] != '>' {
        assert !OccursAt(t, ">", j);
      }
    }
    TagFreeCons('<', RemoveTags(t));
  }

  /** Applying the substitution twice changes nothing more. */
  lemma RemoveTagsIdempotent(s: string)
    ensures RemoveTags(RemoveTags(s)) == RemoveTags(s)
  {
    RemoveTagsTagFree(s);
    RemoveTagsOfTagFree(RemoveTags(s));
  }

  /** Text without `<` is left alone. */
  lemma RemoveTagsNoOpen(s: string)
    requires '<' !in s
    ensures RemoveTags(s) == s
  {
    RemoveTagsOfTagFree(s);
  }
}
