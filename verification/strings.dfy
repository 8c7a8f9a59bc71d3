/**
 * The Python string primitives the subtitle pipeline is built from:
 * `str.isspace`, `strip`, `find`/`in`, `split(sep)`, `sep.join` and
 * single-character `replace`, stated over `seq<char>`.
 */
module Strings {
  import opened Wrappers

  /** Python's `str.isspace()`; also the class `\s` matches in a `str` regex. */
  predicate IsSpace(c: char) {
    || c == ' '
    || ('\t' <= c <= '\r')
    || ('\U{1C}' <= c <= '\U{1F}')
    || c == '\U{85}' || c == '\U{A0}' || c == '\U{1680}'
    || ('\U{2000}' <= c <= '\U{200A}')
    || c == '\U{2028}' || c == '\U{2029}' || c == '\U{202F}' || c == '\U{205F}'
    || c == '\U{3000}'
  }

  /** True when no character of `s` is whitespace. */
  predicate NoSpace(s: string) {
    forall i :: 0 <= i < |s| ==> !IsSpace(s[i])
  }

  /** `s.lstrip()`: drops the longest all-whitespace prefix. */
  function LStrip(s: string): (r: string)
    ensures |r| <= |s| && r == s[|s| - |r|..]
    ensures forall i :: 0 <= i < |s| - |r| ==> IsSpace(s[i])
    ensures |r| == 0 || !IsSpace(r[0])
    decreases |s|
  {
    if |s| > 0 && IsSpace(s[0]) then LStrip(s[1..]) else s
  }

  /** `s.rstrip()`: drops the longest all-whitespace suffix. */
  function RStrip(s: string): (r: string)
    ensures |r| <= |s| && r == s[..|r|]
    ensures forall i :: |r| <= i < |s| ==> IsSpace(s[i])
    ensures |r| == 0 || !IsSpace(r[|r| - 1])
    decreases |s|
  {
    if |s| > 0 && IsSpace(s[|s| - 1]) then RStrip(s[..|s| - 1]) else s
  }

  /** `s.strip()`. */
  function Strip(s: string): string {
    RStrip(LStrip(s))
  }

  /** Text that `strip()` leaves alone: empty, or not starting or ending in whitespace. */
  predicate Trimmed(s: string) {
    |s| == 0 || (!IsSpace(s[0]) && !IsSpace(s[|s| - 1]))
  }

  lemma StripIsTrimmed(s: string)
    ensures Trimmed(Strip(s))
  {
    var l := LStrip(s);
    var r := RStrip(l);
    if |r| > 0 {
      assert r[0] == l[0];
    }
  }

  lemma LStripTrimmed(s: string)
    requires |s| == 0 || !IsSpace(s[0])
    ensures LStrip(s) == s
  {
  }

  lemma RStripTrimmed(s: string)
    requires |s| == 0 || !IsSpace(s[|s| - 1])
    ensures RStrip(s) == s
  {
  }

  /** `strip()` is the identity exactly on trimmed text. */
  lemma StripOfTrimmed(s: string)
    ensures Strip(s) == s <==> Trimmed(s)
  {
    StripIsTrimmed(s);
    if Trimmed(s) {
      LStripTrimmed(s);
      RStripTrimmed(s);
    }
  }

  /** Text that starts and ends with non-whitespace is unchanged by `strip()`. */
  lemma StripFramed(a: string, b: string)
    requires |a| > 0 && |b| > 0 && !IsSpace(a[0]) && !IsSpace(b[|b| - 1])
    ensures Trimmed(a + b) && Strip(a + b) == a + b
  {
    var r := a + b;
    assert r[0] == a[0];
    assert r[|r| - 1] == b[|b| - 1];
    StripOfTrimmed(r);
  }

  lemma StripIdempotent(s: string)
    ensures Strip(Strip(s)) == Strip(s)
  {
    StripIsTrimmed(s);
    StripOfTrimmed(Strip(s));
  }

  /** Stripping text followed by trailing whitespace removes exactly that whitespace. */
  lemma StripTrailingSpace(s: string, w: string)
    requires |s| > 0 && Trimmed(s)
    requires forall i :: 0 <= i < |w| ==> IsSpace(w[i])
    ensures Strip(s + w) == s
  {
    assert (s + w)[0] == s[0];
    assert LStrip(s + w) == s + w;
    var r := RStrip(s + w);
    assert r == (s + w)[..|s|] == s;
  }

  /** True when `pat` occurs in `s` starting at position `k`. */
  predicate OccursAt(s: string, pat: string, k: nat) {
    k + |pat| <= |s| && forall j :: 0 <= j < |pat| ==> s[k + j] == pat[j]
  }

  /** Index of the first occurrence of `pat` in `s` at or after `i`. */
  function IndexFrom(s: string, pat: string, i: nat): (r: Option<nat>)
    ensures r.Some? ==> i <= r.value && OccursAt(s, pat, r.value)
    ensures r.Some? ==> forall k :: i <= k < r.value ==> !OccursAt(s, pat, k)
    ensures r.None? ==> forall k :: i <= k ==> !OccursAt(s, pat, k)
    decreases |s| - i
  {
    if i + |pat| > |s| then None
    else if OccursAt(s, pat, i) then Some(i)
    else IndexFrom(s, pat, i + 1)
  }

  /** Index of the first occurrence of `pat` in `s` (Python's `s.find(pat)`, with -1 as None). */
  function IndexOf(s: string, pat: string): (r: Option<nat>)
    ensures r.Some? ==> OccursAt(s, pat, r.value)
    ensures r.Some? ==> forall k :: 0 <= k < r.value ==> !OccursAt(s, pat, k)
    ensures r.None? ==> forall k: nat :: !OccursAt(s, pat, k)
  {
    IndexFrom(s, pat, 0)
  }

  /** Python's `pat in s`. */
  predicate Contains(s: string, pat: string) {
    IndexOf(s, pat).Some?
  }

  /** An occurrence anywhere makes `Contains` true. */
  lemma ContainsAt(s: string, pat: string, k: nat)
    requires OccursAt(s, pat, k)
    ensures Contains(s, pat)
  {
  }

  /** A pattern whose first character does not occur in `s` is not found in `s`. */
  lemma NotContainsFirstChar(s: string, pat: string)
    requires |pat| > 0 && pat[0] !in s
    ensures !Contains(s, pat)
  {
    forall k: nat ensures !OccursAt(s, pat, k) {
      if k + |pat| <= |s| {
        assert s[k + 0] != pat[0];
      }
    }
  }

  /** Searching `a + t` for a pattern whose first character is not in `a` searches `t`. */
  lemma IndexOfSkip(a: string, t: string, pat: string)
    requires |pat| > 0 && pat[0] !in a
    ensures IndexOf(a + t, pat) == match IndexOf(t, pat) case None => None case Some(k) => Some(|a| + k)
  {
    var s := a + t;
    forall k: nat
      ensures OccursAt(s, pat, |a| + k) <==> OccursAt(t, pat, k)
    {
      if |a| + k + |pat| <= |s| {
        assert forall j :: k <= j < k + |pat| ==> s[|a| + j] == t[j];
      }
    }
    forall k: nat | k < |a|
      ensures !OccursAt(s, pat, k)
    {

    }
    match IndexOf(s, pat)
    case None =>

    case Some(j) =>
      assert j >= |a|;
      assert OccursAt(t, pat, j - |a|);
      var r := IndexOf(t, pat);
      assert r.Some?;

  }

  /** Occurrences that fit inside a prefix are the same in the prefix and the whole. */
  lemma OccursInPrefix(s: string, pat: string, n: nat, j: nat)
    requires j + |pat| <= n <= |s|
    ensures OccursAt(s[..n], pat, j) <==> OccursAt(s, pat, j)
  {
    assert forall i :: j <= i < j + |pat| ==> s[..n][i] == s[i];
  }

  /** Python's `s.split(sep)` for a non-empty separator. */
  function SplitOn(s: string, sep: string): (r: seq<string>)
    requires |sep| > 0
    ensures |r| > 0
    decreases |s|
  {
    match IndexOf(s, sep)
    case None => [s]
    case Some(k) => [s[..k]] + SplitOn(s[k + |sep|..], sep)
  }

  /** Joining the fields of a split with the separator gives back the text, and no field holds the separator. */
  lemma {:induction false} SplitOnJoin(s: string, sep: string)
    requires |sep| > 0
    ensures Join(SplitOn(s, sep), sep) == s
    ensures forall i :: 0 <= i < |SplitOn(s, sep)| ==> !Contains(SplitOn(s, sep)[i], sep)
    decreases |s|
  {
    match IndexOf(s, sep)
    case None =>
    case Some(k) =>
      PrefixBeforeFirst(s, sep, k);
      var rest := s[k + |sep|..];
      SplitOnJoin(rest, sep);
      assert s == s[..k] + sep + rest;
      assert SplitOn(s, sep) == [s[..k]] + SplitOn(rest, sep);
  }

  /** The text before the first occurrence does not contain the pattern. */
  lemma PrefixBeforeFirst(s: string, sep: string, k: nat)
    requires |sep| > 0 && IndexOf(s, sep) == Some(k)
    ensures !Contains(s[..k], sep)
  {
    forall j: nat ensures !OccursAt(s[..k], sep, j) {
      if j + |sep| <= k {
        OccursInPrefix(s, sep, k, j);
      }
    }
  }

  /** Python's `sep.join(parts)`. */
  function Join(parts: seq<string>, sep: string): string
    decreases |parts|
  {
    if |parts| == 0 then ""
    else if |parts| == 1 then parts[0]
    else parts[0] + sep + Join(parts[1..], sep)
  }

  lemma JoinSingle(x: string, sep: string)
    ensures Join([x], sep) == x
  {
  }

  /** Joining two non-empty lists is joining each and putting one separator between. */
  lemma {:induction false} JoinAppend(a: seq<string>, b: seq<string>, sep: string)
    requires |a| > 0 && |b| > 0
    ensures Join(a + b, sep) == Join(a, sep) + sep + Join(b, sep)
    decreases |a|
  {
    if |a| == 1 {
      assert (a + b)[1..] == b;
    } else {
      assert (a + b)[1..] == a[1..] + b;
      JoinAppend(a[1..], b, sep);
    }
  }

  /** Splitting `a + sep + b` where `a` cannot hold the start of `sep` splits off `a` first. */
  lemma SplitOnCons(a: string, b: string, sep: string)
    requires |sep| > 0 && sep[0] !in a
    ensures SplitOn(a + sep + b, sep) == [a] + SplitOn(b, sep)
  {
    IndexOfSkip(a, sep + b, sep);
    assert (sep + b)[..|sep|] == sep;
    var s := a + sep + b;
    assert s == a + (sep + b);
    assert s[..|a|] == a;
    assert s[|a| + |sep|..] == b;
  }

  /** Text without the separator splits into itself. */
  lemma SplitOnNone(a: string, sep: string)
    requires |sep| > 0 && !Contains(a, sep)
    ensures SplitOn(a, sep) == [a]
  {
  }

  /** Number of occurrences of `c` in `s`. */
  function CountChar(s: string, c: char): (n: nat)
    ensures n <= |s|
    ensures n == 0 <==> c !in s
    decreases |s|
  {
    if |s| == 0 then 0
    else (if s[0] == c then 1 else 0) + CountChar(s[1..], c)
  }

  lemma CountCharAppend(a: string, b: string, c: char)
    ensures CountChar(a + b, c) == CountChar(a, c) + CountChar(b, c)
  {
    if |a| > 0 {
      assert (a + b)[1..] == a[1..] + b;
      CountCharAppend(a[1..], b, c);
    } else {
      assert a + b == b;
    }
  }

  /** `a` is `b` with some characters left out, the rest in order. */
  predicate Subsequence(a: string, b: string)
    decreases |b|
  {
    if |a| == 0 then true
    else if |b| == 0 then false
    else if a[0] == b[0] then Subsequence(a[1..], b[1..])
    else Subsequence(a, b[1..])
  }

  /** A subsequence of the tail of `b` is a subsequence of `b`. */
  lemma {:induction false} SubsequenceDrop(a: string, b: string)
    requires |b| > 0 && Subsequence(a, b[1..])
    ensures Subsequence(a, b)
    decreases |b|, |a|
  {
    if |a| > 0 && a[0] == b[0] {
      SubsequenceTail(a, b[1..]);
    }
  }

  /** Leaving out the first character of a subsequence keeps it a subsequence. */
  lemma {:induction false} SubsequenceTail(a: string, b: string)
    requires |a| > 0 && Subsequence(a, b)
    ensures Subsequence(a[1..], b)
    decreases |b|, |a|
  {
    if a[0] == b[0] {
      SubsequenceDrop(a[1..], b);
    } else {
      SubsequenceTail(a, b[1..]);
      SubsequenceDrop(a[1..], b);
    }
  }

  /** A subsequence of a suffix of `b` is a subsequence of `b`. */
  lemma {:induction false} SubsequenceSuffix(a: string, b: string, n: nat)
    requires n <= |b| && Subsequence(a, b[n..])
    ensures Subsequence(a, b)
    decreases n
  {
    if n > 0 {
      assert b[n - 1..][1..] == b[n..];
      SubsequenceDrop(a, b[n - 1..]);
      SubsequenceSuffix(a, b, n - 1);
    }
  }

  /** Keeping a first character shared by both keeps a subsequence. */
  lemma SubsequenceCons(c: char, a: string, b: string)
    requires Subsequence(a, b)
    ensures Subsequence([c] + a, [c] + b)
  {
    assert ([c] + a)[1..] == a && ([c] + b)[1..] == b;
  }

  /** The first occurrence of a character splits the text around it. */
  lemma FirstCharOccurrence(s: string, c: char) returns (k: nat)
    requires c in s
    ensures k < |s| && s[k] == c && c !in s[..k]
    ensures s == s[..k] + [c] + s[k + 1..]
    ensures IndexOf(s, [c]) == Some(k)
  {
    var i :| 0 <= i < |s| && s[i] == c;
    assert OccursAt(s, [c], i);
    k := IndexOf(s, [c]).value;
    assert OccursAt(s, [c], k);
    assert s[k + 0] == [c][0];
    forall j | 0 <= j < k ensures s[..k][j] != c {
      assert !OccursAt(s, [c], j);
    }
  }

  /** Splitting on a character yields one more field than the character occurs. */
  lemma {:induction false} SplitOnCharCount(s: string, c: char)
    ensures |SplitOn(s, [c])| == CountChar(s, c) + 1
    decreases |s|
  {
    if c !in s {
      NotContainsFirstChar(s, [c]);
    } else {
      var k := FirstCharOccurrence(s, c);
      SplitOnCons(s[..k], s[k + 1..], [c]);
      CountCharAppend(s[..k] + [c], s[k + 1..], c);
      CountCharAppend(s[..k], [c], c);
      SplitOnCharCount(s[k + 1..], c);
    }
  }

  lemma SplitOnCharAppendBase(a: string, b: string, c: char)
    requires c !in a
    ensures SplitOn(a + [c] + b, [c]) == SplitOn(a, [c]) + SplitOn(b, [c])
  {
    var sep: string := [c];
    SplitOnCons(a, b, sep);
    NotContainsFirstChar(a, sep);
    SplitOnNone(a, sep);
  }

  /** Splitting on a character distributes over a concatenation joined by that character. */
  lemma {:induction false} SplitOnCharAppend(a: string, b: string, c: char)
    ensures SplitOn(a + [c] + b, [c]) == SplitOn(a, [c]) + SplitOn(b, [c])
    decreases |a|, 1
  {
    if c !in a {
      SplitOnCharAppendBase(a, b, c);
    } else {
      SplitOnCharAppendStep(a, b, c);
    }
  }

  lemma {:induction false} SplitOnCharAppendStep(a: string, b: string, c: char)
    requires c in a
    ensures SplitOn(a + [c] + b, [c]) == SplitOn(a, [c]) + SplitOn(b, [c])
    decreases |a|, 0
  {
    hide SplitOn;
    var k := FirstCharOccurrence(a, c);
    var pre, a' := a[..k], a[k + 1..];
    var sep: string := [c];
    assert a == pre + sep + a';
    assert a + sep + b == pre + sep + (a' + sep + b);
    SplitOnCons(pre, a' + sep + b, sep);
    SplitOnCons(pre, a', sep);
    SplitOnCharAppend(a', b, c);
    assert SplitOn(a, sep) == [pre] + SplitOn(a', sep);
    assert SplitOn(a + sep + b, sep) == [pre] + (SplitOn(a', sep) + SplitOn(b, sep));
  }

  /** `s.replace(c, repl)` for a one-character pattern. */
  function ReplaceChar(s: string, c: char, repl: string): (r: string)
    ensures c !in s ==> r == s
    decreases |s|
  {
    if |s| == 0 then ""
    else (if s[0] == c then repl else [s[0]]) + ReplaceChar(s[1..], c, repl)
  }

  lemma ReplaceCharAppend(a: string, b: string, c: char, repl: string)
    ensures ReplaceChar(a + b, c, repl) == ReplaceChar(a, c, repl) + ReplaceChar(b, c, repl)
  {
    if |a| > 0 {
      assert (a + b)[1..] == a[1..] + b;
      ReplaceCharAppend(a[1..], b, c, repl);
    } else {
      assert a + b == b;
    }
  }

  /** Replacing the one occurrence of a character splices in the replacement there. */
  lemma ReplaceCharSplice(a: string, b: string, c: char, repl: string)
    requires c !in a && c !in b
    ensures ReplaceChar(a + ([c] + b), c, repl) == a + (repl + b)
  {
    ReplaceCharAppend(a, [c] + b, c, repl);
    ReplaceCharAppend([c], b, c, repl);
  }

  /** Replacing a character by another character rewrites exactly its occurrences. */
  lemma {:induction false} ReplaceCharPointwise(s: string, c: char, d: char)
    ensures |ReplaceChar(s, c, [d])| == |s|
    ensures forall i :: 0 <= i < |s| ==> ReplaceChar(s, c, [d])[i] == if s[i] == c then d else s[i]
    decreases |s|
  {
    if |s| > 0 {
      ReplaceCharPointwise(s[1..], c, d);
    }
  }

  /** Rewriting one character into another leaves the count of a third unchanged. */
  lemma {:induction false} ReplaceCharKeepsCount(s: string, c: char, d: char, e: char)
    requires c != e && d != e
    ensures CountChar(ReplaceChar(s, c, [d]), e) == CountChar(s, e)
    decreases |s|
  {
    if |s| > 0 {
      var head := if s[0] == c then [d] else [s[0]];
      assert ReplaceChar(s, c, [d]) == head + ReplaceChar(s[1..], c, [d]);
      CountCharAppend(head, ReplaceChar(s[1..], c, [d]), e);
      ReplaceCharKeepsCount(s[1..], c, d, e);
    }
  }
}
