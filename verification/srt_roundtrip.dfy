/**
 * Writing a track with `create_srt` (main.py) and reading it back with the
 * content parser of `parse_srt_file` (set_sub.py) gives one cue per segment,
 * in order, with the whole seconds the writer kept and the stripped text,
 * as long as each text is non-empty once stripped, is one line and holds no
 * `<` that the tag filter could take as markup.
 */
module SrtRoundTrip {
  import opened Wrappers
  import opened Strings
  import opened Numerals
  import opened TimeCode
  import opened Patterns
  import opened Srt

  /** A segment whose text survives the trip: one non-empty line without `<`. */
  predicate Writable(seg: Segment) {
    var text := Strip(seg.text);
    |text| > 0 && '\n' !in text && '<' !in text
  }

  /** The cue a segment comes back as. */
  function ExpectedCue(seg: Segment): Cue {
    Cue(Trunc(seg.start) as real, Trunc(seg.end) as real, Strip(seg.text))
  }

  /** The cues a list of segments comes back as, one per segment and in the same order. */
  function ExpectedCues(segs: seq<Segment>): (r: seq<Cue>)
    ensures |r| == |segs|
    ensures forall k :: 0 <= k < |segs| ==> r[k] == ExpectedCue(segs[k])
    decreases |segs|
  {
    if |segs| == 0 then [] else [ExpectedCue(segs[0])] + ExpectedCues(segs[1..])
  }

  // ------------------------------------------------------------ one block

  /** A word without whitespace: `strip()` leaves it alone and it holds neither a space nor a newline. */
  lemma WordShape(t: string)
    requires NoSpace(t)
    ensures ' ' !in t && '\n' !in t && Strip(t) == t
  {
    hide Strip;
    assert Trimmed(t) by {
      if |t| > 0 {
        assert !IsSpace(t[0]) && !IsSpace(t[|t| - 1]);
      }
    }
    StripOfTrimmed(t);
    forall i | 0 <= i < |t| ensures t[i] != ' ' && t[i] != '\n' {
      assert !IsSpace(t[i]);
    }
  }

  /** A written timecode is a non-empty word without whitespace. */
  lemma StampWord(x: real)
    ensures |FormatTimestamp(x)| > 0 && NoSpace(FormatTimestamp(x))
  {
    TimestampAlphabet(x);
    var t := FormatTimestamp(x);
    forall i | 0 <= i < |t| ensures !IsSpace(t[i]) {
      assert StampChar(t[i]);
    }
  }

  /** A written block number is a non-empty word without whitespace. */
  lemma NumberWord(index: nat)
    ensures |NatToString(index)| > 0 && NoSpace(NatToString(index))
  {
    var n := NatToString(index);
    forall i | 0 <= i < |n| ensures !IsSpace(n[i]) {
      assert IsDigit(n[i]);
    }
  }

  /** A time line built from two words is one line, marked by `-->`, and splits back into the two words. */
  lemma TimeLineShape(a: string, b: string)
    requires |a| > 0 && NoSpace(a) && |b| > 0 && NoSpace(b)
    ensures var line := TimeLine(a, b);
      && '\n' !in line && |line| > 0 && !IsSpace(line[0])
      && Contains(line, "-->")
      && SplitOn(line, " --> ") == [a, b]
  {
    var line := TimeLine(a, b);
    WordShape(a);
    WordShape(b);
    hide SplitOn, Contains;
    assert line == a + " --> " + b;
    assert line[0] == a[0];
    assert OccursAt(line, "-->", |a| + 1);
    ContainsAt(line, "-->", |a| + 1);
    SplitOnCons(a, b, " --> ");
    NotContainsFirstChar(b, " --> ");
    SplitOnNone(b, " --> ");
  }

  /** A newline between a line and a guarded text that starts with a non-space is guarded. */
  lemma GuardedLine(a: string, c: string)
    requires '\n' !in a && NewlinesGuarded(c) && |c| > 0 && !IsSpace(c[0])
    ensures NewlinesGuarded(a + "\n" + c)
  {
    var s := a + "\n" + c;
    forall p | 0 <= p < |s| && s[p] == '\n' ensures p + 1 < |s| && !IsSpace(s[p + 1]) {
      if p > |a| {
        assert s[p] == c[p - |a| - 1];
        assert s[p + 1] == c[p - |a|];
      }
    }
  }

  /**
   * Three lines joined by newlines, the first a word, the second starting
   * with a non-space, the last trimmed and non-empty: `strip()` leaves them
   * alone, splitting at newlines gives them back, and every newline is guarded.
   */
  lemma ThreeLines(n: string, line: string, text: string)
    requires |n| > 0 && NoSpace(n)
    requires '\n' !in line && |line| > 0 && !IsSpace(line[0])
    requires '\n' !in text && |text| > 0 && Trimmed(text)
    ensures var body := n + "\n" + line + "\n" + text;
      && Strip(body) == body
      && SplitOn(body, "\n") == [n, line, text]
      && |body| > 0 && !IsSpace(body[0]) && !IsSpace(body[|body| - 1])
      && NewlinesGuarded(body)
  {
    WordShape(n);
    hide SplitOn, Strip;
    ThreeLinesTrimmed(n, line, text);
    ThreeLinesSplit(n, line, text);
    ThreeLinesGuarded(n, line, text);
  }

  lemma ThreeLinesTrimmed(n: string, line: string, text: string)
    requires |n| > 0 && !IsSpace(n[0])
    requires |text| > 0 && Trimmed(text)
    ensures var body := n + "\n" + line + "\n" + text;
      && Strip(body) == body && |body| > 0 && !IsSpace(body[0]) && !IsSpace(body[|body| - 1])
  {
    hide Strip, IsSpace;
    var body := n + "\n" + line + "\n" + text;
    assert body[0] == n[0] && body[|body| - 1] == text[|text| - 1];
    StripOfTrimmed(body);
  }

  lemma ThreeLinesSplit(n: string, line: string, text: string)
    requires '\n' !in n && '\n' !in line && '\n' !in text
    ensures SplitOn(n + "\n" + line + "\n" + text, "\n") == [n, line, text]
  {
    hide SplitOn;
    var tail := line + "\n" + text;
    assert n + "\n" + line + "\n" + text == n + "\n" + tail;
    TailSplits(line, text);
    SplitOnCons(n, tail, "\n");
  }

  lemma ThreeLinesGuarded(n: string, line: string, text: string)
    requires '\n' !in n
    requires '\n' !in line && |line| > 0 && !IsSpace(line[0])
    requires '\n' !in text && |text| > 0 && !IsSpace(text[0])
    ensures NewlinesGuarded(n + "\n" + line + "\n" + text)
  {
    hide IsSpace;
    var tail := line + "\n" + text;
    assert n + "\n" + line + "\n" + text == n + "\n" + tail;
    assert NewlinesGuarded(text) by {
      forall p | 0 <= p < |text| ensures text[p] != '\n' {
      }
    }
    GuardedLine(line, text);
    GuardedLine(n, tail);
  }

  /** Two lines joined by a newline split back into the two. */
  lemma TailSplits(line: string, text: string)
    requires '\n' !in line && '\n' !in text
    ensures SplitOn(line + "\n" + text, "\n") == [line, text]
  {
    hide SplitOn;
    SplitOnCons(line, text, "\n");
    NotContainsFirstChar(text, "\n");
    SplitOnNone(text, "\n");
  }

  /** The time fields and text of a written block read back as the expected cue. */
  lemma ReadCueReadsBack(seg: Segment)
    requires Writable(seg)
    ensures ReadCue([FormatTimestamp(seg.start), FormatTimestamp(seg.end)], [Strip(seg.text)]) == Keep(ExpectedCue(seg))
  {
    hide FormatTimestamp, ParseSrtTime, Join, RemoveTags, TagFree;
    var text := Strip(seg.text);
    StampWord(seg.start);
    StampWord(seg.end);
    WordShape(FormatTimestamp(seg.start));
    WordShape(FormatTimestamp(seg.end));
    TimecodeRoundTrip(seg.start);
    TimecodeRoundTrip(seg.end);
    JoinSingle(text, " ");
    StripIdempotent(seg.text);
    RemoveTagsNoOpen(text);
    hide Strip;
  }

  /** The block `create_srt` writes for a segment: its shape as the blank-line split needs it, and the cue it reads back as. */
  lemma BlockReadsBack(index: nat, seg: Segment)
    requires Writable(seg)
    ensures var body := BlockBody(index, seg, FormatTimestamp);
      Separable(body) && ParseBlock(body) == Keep(ExpectedCue(seg))
  {
    hide FormatTimestamp, NatToString, TimeLine, SplitOn, Strip, Contains, ReadCue, IsSpace, NewlinesGuarded;
    var a, b := FormatTimestamp(seg.start), FormatTimestamp(seg.end);
    var n, line, text := NatToString(index), TimeLine(a, b), Strip(seg.text);
    StampWord(seg.start);
    StampWord(seg.end);
    NumberWord(index);
    StripIsTrimmed(seg.text);
    TimeLineShape(a, b);
    ThreeLines(n, line, text);
    ReadCueReadsBack(seg);
    var lines := [n, line, text];
    assert BlockBody(index, seg, FormatTimestamp) == n + "\n" + line + "\n" + text;
    assert lines[1] == line && lines[2..] == [text];
  }

  // ------------------------------------------------------------ the track

  /** A join ends with the last part's last character. */
  lemma {:induction false} JoinLast(parts: seq<string>, sep: string)
    requires |parts| > 0 && |parts[|parts| - 1]| > 0
    ensures |Join(parts, sep)| > 0
    ensures Join(parts, sep)[|Join(parts, sep)| - 1] == parts[|parts| - 1][|parts[|parts| - 1]| - 1]
    decreases |parts|
  {
    if |parts| > 1 {
      JoinLast(parts[1..], sep);
      assert parts[1..][|parts[1..]| - 1] == parts[|parts| - 1];
    }
  }

  /** The written blocks read back, in order, as the expected cues. */
  lemma {:induction false} BodiesReadBack(segs: seq<Segment>, first: nat)
    requires forall k :: 0 <= k < |segs| ==> Writable(segs[k])
    ensures ParseBlocks(Bodies(segs, first, FormatTimestamp)) == Some(ExpectedCues(segs))
    decreases |segs|
  {
    hide ParseBlock, BlockBody, ExpectedCue, Writable;
    if |segs| > 0 {
      var b := BlockBody(first, segs[0], FormatTimestamp);
      var rest := Bodies(segs[1..], first + 1, FormatTimestamp);
      BodiesReadBack(segs[1..], first + 1);
      BlockReadsBack(first, segs[0]);
      var c := ExpectedCue(segs[0]);
      assert ReadBlocks([b]) == [Keep(c)];
      assert Collect([Keep(c)]) == Some([c]) by {
        assert [Keep(c)][1..] == [];
        assert [c] + [] == [c];
      }
      ParseBlocksAppend([b], rest);
      assert Bodies(segs, first, FormatTimestamp) == [b] + rest;
      assert ExpectedCues(segs) == [ExpectedCue(segs[0])] + ExpectedCues(segs[1..]);
    }
  }

  /** A block shape the blank-line split keeps whole. */
  predicate Separable(body: string) {
    |body| > 0 && !IsSpace(body[0]) && !IsSpace(body[|body| - 1]) && NewlinesGuarded(body)
  }

  /** Every written block is separable. */
  lemma BodiesSeparable(segs: seq<Segment>, first: nat)
    requires forall k :: 0 <= k < |segs| ==> Writable(segs[k])
    ensures forall k :: 0 <= k < |segs| ==> Separable(Bodies(segs, first, FormatTimestamp)[k])
  {
    hide BlockBody, Writable, Separable, ParseBlock;
    var bodies := Bodies(segs, first, FormatTimestamp);
    forall k | 0 <= k < |segs| ensures Separable(bodies[k]) {
      BodiesNumbered(segs, first, k);
      BlockReadsBack(first + k, segs[k]);
    }
  }

  /** The blank-line split of a written track, once stripped, gives back its block bodies. */
  lemma TrackSplitsIntoBodies(segs: seq<Segment>)
    requires |segs| > 0
    requires forall k :: 0 <= k < |segs| ==> Writable(segs[k])
    ensures SplitBlank(Strip(CreateSrt(segs))) == Bodies(segs, 1, FormatTimestamp)
  {
    hide BlockBody, Join, Strip, SplitBlank, NewlinesGuarded, Writable, SrtTrack, Bodies;
    var bodies := Bodies(segs, 1, FormatTimestamp);
    BodiesSeparable(segs, 1);
    var joined := Join(bodies, "\n\n");
    TrackLayout(segs, FormatTimestamp);
    JoinHead(bodies, "\n\n");
    JoinLast(bodies, "\n\n");
    StripTrailingSpace(joined, "\n");
    SplitBlankJoin(bodies);
  }

  /** Body `k` is the one numbered `first + k`, holding segment `k`. */
  lemma {:induction false} BodiesNumbered(segs: seq<Segment>, first: nat, k: nat)
    requires k < |segs|
    ensures Bodies(segs, first, FormatTimestamp)[k] == BlockBody(first + k, segs[k], FormatTimestamp)
    decreases k
  {
    hide BlockBody;
    if k > 0 {
      BodiesNumbered(segs[1..], first + 1, k - 1);
    }
  }

  /**
   * Reading back what `create_srt` wrote gives one cue per segment, in order,
   * with the whole seconds the writer kept and the stripped text.
   */
  lemma TrackRoundTrip(segs: seq<Segment>)
    requires forall k :: 0 <= k < |segs| ==> Writable(segs[k])
    ensures ParseSrt(CreateSrt(segs)) == Some(ExpectedCues(segs))
  {
    hide SplitBlank, Strip, CreateSrt, Bodies, ParseBlocks, ExpectedCues, Writable;
    if |segs| == 0 {
      EmptyTrackRoundTrip(segs);
    } else {
      TrackSplitsIntoBodies(segs);
      BodiesReadBack(segs, 1);
    }
  }

  /** With no segments the track is empty and reads back as no cues. */
  lemma EmptyTrackRoundTrip(segs: seq<Segment>)
    requires |segs| == 0
    ensures ParseSrt(CreateSrt(segs)) == Some(ExpectedCues(segs))
  {
    TrackLayout(segs, FormatTimestamp);
    assert Strip("") == "";
    assert FindBreak("", 0) == None;
    assert SplitBlank("") == [""];
    assert SplitOn("", "\n") == [""];
    assert ParseBlock("") == Skip;
    assert ReadBlocks([""]) == [Skip];
  }

  /** The same holds for the track script.py writes. */
  lemma GeneratedTrackRoundTrip(segs: seq<Segment>)
    requires forall k :: 0 <= k < |segs| ==> Writable(segs[k])
    ensures ParseSrt(GenerateSubtitleText(segs)) == Some(ExpectedCues(segs))
  {
    WritersAgree(segs);
    TrackRoundTrip(segs);
  }
}
