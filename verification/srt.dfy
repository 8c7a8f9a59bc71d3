/**
 * SubRip tracks: the writer `create_srt` of main.py (and the identical block
 * loop of `generate_subtitle` in script.py) and the content-parsing part of
 * `parse_srt_file` in set_sub.py, which reads a decoded track into cues.
 */
module Srt {
  import opened Wrappers
  import opened Strings
  import opened Numerals
  import opened TimeCode
  import opened Patterns

  /** A transcription segment as the recogniser reports it. */
  datatype Segment = Segment(start: real, end: real, text: string)

  /** A subtitle read back from a track: times in seconds and its display text. */
  datatype Cue = Cue(start: real, end: real, text: string)

  /** What reading one block gives: nothing, an error that ends the whole parse, or a cue. */
  datatype BlockResult = Skip | Fail | Keep(cue: Cue)

  // ---------------------------------------------------------------- writer

  /** The time line of a block. */
  function TimeLine(start: string, end: string): string {
    start + " --> " + end
  }

  /** Block number `index` without its final newline: number, time line, stripped text. */
  function BlockBody(index: nat, seg: Segment, stamp: real -> string): string {
    NatToString(index) + "\n" + TimeLine(stamp(seg.start), stamp(seg.end)) + "\n" + Strip(seg.text)
  }

  /** The blocks of `segs`, numbered consecutively from `first`, each ending in a newline. */
  function Blocks(segs: seq<Segment>, first: nat, stamp: real -> string): (r: seq<string>)
    ensures |r| == |segs|
    decreases |segs|
  {
    if |segs| == 0 then []
    else [BlockBody(first, segs[0], stamp) + "\n"] + Blocks(segs[1..], first + 1, stamp)
  }

  /** The blocks numbered from 1, joined by newlines, as both writers build a track. */
  function SrtTrack(segs: seq<Segment>, stamp: real -> string): string {
    Join(Blocks(segs, 1, stamp), "\n")
  }

  /** `create_srt` of main.py. */
  function CreateSrt(segs: seq<Segment>): string {
    SrtTrack(segs, FormatTimestamp)
  }

  /** The track `generate_subtitle` of script.py writes. */
  function GenerateSubtitleText(segs: seq<Segment>): string {
    SrtTrack(segs, FormatTimestampStatic)
  }

  /** Block `k` is the one numbered `first + k`, holding segment `k`. */
  lemma {:induction false} BlocksNumbered(segs: seq<Segment>, first: nat, stamp: real -> string, k: nat)
    requires k < |segs|
    ensures Blocks(segs, first, stamp)[k] == BlockBody(first + k, segs[k], stamp) + "\n"
    decreases k
  {
    hide BlockBody;
    if k > 0 {
      BlocksNumbered(segs[1..], first + 1, stamp, k - 1);
    }
  }

  /** Writers whose time stamps agree write the same blocks. */
  lemma {:induction false} BlocksAgree(segs: seq<Segment>, first: nat, f: real -> string, g: real -> string)
    requires forall x :: f(x) == g(x)
    ensures Blocks(segs, first, f) == Blocks(segs, first, g)
    decreases |segs|
  {
    if |segs| > 0 {
      BlocksAgree(segs[1..], first + 1, f, g);
    }
  }

  /** main.py and script.py write the same track for every list of segments. */
  lemma WritersAgree(segs: seq<Segment>)
    ensures CreateSrt(segs) == GenerateSubtitleText(segs)
  {
    forall x ensures FormatTimestamp(x) == FormatTimestampStatic(x) {
      TimestampsAgree(x);
    }
    BlocksAgree(segs, 1, FormatTimestamp, FormatTimestampStatic);
  }

  /** Joining newline-terminated parts with newlines leaves exactly one blank line between consecutive parts. */
  lemma {:induction false} JoinTerminated(bodies: seq<string>)
    requires |bodies| > 0
    ensures Join(Terminated(bodies), "\n") == Join(bodies, "\n\n") + "\n"
    decreases |bodies|
  {
    if |bodies| > 1 {
      JoinTerminated(bodies[1..]);
      assert Terminated(bodies)[1..] == Terminated(bodies[1..]);
    }
  }

  /** Each part followed by a newline. */
  function Terminated(parts: seq<string>): (r: seq<string>)
    ensures |r| == |parts|
    ensures forall i :: 0 <= i < |parts| ==> r[i] == parts[i] + "\n"
    decreases |parts|
  {
    if |parts| == 0 then [] else [parts[0] + "\n"] + Terminated(parts[1..])
  }

  /** The block bodies, numbered from `first`. */
  function Bodies(segs: seq<Segment>, first: nat, stamp: real -> string): (r: seq<string>)
    ensures |r| == |segs|
    decreases |segs|
  {
    if |segs| == 0 then [] else [BlockBody(first, segs[0], stamp)] + Bodies(segs[1..], first + 1, stamp)
  }

  lemma {:induction false} BlocksAreTerminatedBodies(segs: seq<Segment>, first: nat, stamp: real -> string)
    ensures Blocks(segs, first, stamp) == Terminated(Bodies(segs, first, stamp))
    decreases |segs|
  {
    if |segs| > 0 {
      BlocksAreTerminatedBodies(segs[1..], first + 1, stamp);
    }
  }

  /**
   * A track is empty for no segments; otherwise it is the block bodies
   * separated by one blank line each, with a final newline.
   */
  lemma TrackLayout(segs: seq<Segment>, stamp: real -> string)
    ensures |segs| == 0 ==> SrtTrack(segs, stamp) == ""
    ensures |segs| > 0 ==> SrtTrack(segs, stamp) == Join(Bodies(segs, 1, stamp), "\n\n") + "\n"
  {
    BlocksAreTerminatedBodies(segs, 1, stamp);
    if |segs| > 0 {
      JoinTerminated(Bodies(segs, 1, stamp));
    }
  }

  // ---------------------------------------------------------------- reader

  /** One block: at least three lines, `-->` on the second, the text from the third line on. */
  function ParseBlock(block: string): (r: BlockResult)
    ensures r.Keep? ==> |r.cue.text| > 0 && TagFree(r.cue.text)
  {
    var lines := SplitOn(Strip(block), "\n");
    if |lines| < 3 || !Contains(lines[1], "-->") then Skip
    else ReadCue(SplitOn(lines[1], " --> "), lines[2..])
  }

  /**
   * The time fields and text lines of a block that has a time line. A
   * missing second field (`IndexError`) or an unreadable time (`ValueError`)
   * is an error; text that is empty once stripped and untagged is skipped.
   */
  function ReadCue(times: seq<string>, textLines: seq<string>): (r: BlockResult)
    ensures r == Fail <==>
      |times| < 2 || ParseSrtTime(Strip(times[0])).None? || ParseSrtTime(Strip(times[1])).None?
    ensures r.Keep? ==>
      r.cue.start == ParseSrtTime(Strip(times[0])).value && r.cue.end == ParseSrtTime(Strip(times[1])).value
    ensures r != Fail ==> (r.Keep? <==> |RemoveTags(Strip(Join(textLines, " ")))| > 0)
    ensures r.Keep? ==> r.cue.text == RemoveTags(Strip(Join(textLines, " ")))
    ensures r.Keep? ==> |r.cue.text| > 0 && TagFree(r.cue.text)
  {
    if |times| < 2 then Fail
    else
      var start, end := ParseSrtTime(Strip(times[0])), ParseSrtTime(Strip(times[1]));
      if start.None? || end.None? then Fail
      else
        var text := RemoveTags(Strip(Join(textLines, " ")));
        RemoveTagsTagFree(Strip(Join(textLines, " ")));
        if |text| == 0 then Skip else Keep(Cue(start.value, end.value, text))
  }

  /** The loop of `parse_srt_file` over the block outcomes: the first error ends it, the cues are kept in order. */
  function Collect(results: seq<BlockResult>): (r: Option<seq<Cue>>)
    ensures r.Some? ==> |r.value| <= |results|
    decreases |results|
  {
    if |results| == 0 then Some([])
    else
      match results[0]
      case Fail => None
      case Skip => Collect(results[1..])
      case Keep(c) =>
        match Collect(results[1..])
        case None => None
        case Some(cs) => Some([c] + cs)
  }

  /** The outcome of every block, in order. */
  function ReadBlocks(blocks: seq<string>): (r: seq<BlockResult>)
    ensures |r| == |blocks|
    ensures forall i :: 0 <= i < |blocks| ==> r[i] == ParseBlock(blocks[i])
    decreases |blocks|
  {
    if |blocks| == 0 then [] else [ParseBlock(blocks[0])] + ReadBlocks(blocks[1..])
  }

  /** The blocks in order; an error in any of them ends the whole parse with no cues. */
  function ParseBlocks(blocks: seq<string>): Option<seq<Cue>> {
    Collect(ReadBlocks(blocks))
  }

  /** `parse_srt_file` after decoding: strip the content, split it at blank lines, read the blocks. */
  function ParseSrt(content: string): Option<seq<Cue>> {
    ParseBlocks(SplitBlank(Strip(content)))
  }

  /** The loop fails exactly when some outcome is an error. */
  lemma {:induction false} CollectFailsIff(results: seq<BlockResult>)
    ensures Collect(results).None? <==> exists i :: 0 <= i < |results| && results[i] == Fail
    decreases |results|
  {
    if |results| > 0 {
      CollectFailsIff(results[1..]);
      if results[0] != Fail {
        if exists i :: 1 <= i < |results| && results[i] == Fail {
          var i :| 1 <= i < |results| && results[i] == Fail;
          assert results[1..][i - 1] == Fail;
        }
      }
    }
  }

  /** A single bad block makes the whole parse fail, and only a bad block does. */
  lemma ParseFailsIffSomeBlockFails(blocks: seq<string>)
    ensures ParseBlocks(blocks).None? <==> exists i :: 0 <= i < |blocks| && ParseBlock(blocks[i]) == Fail
  {
    hide ParseBlock;
    var results := ReadBlocks(blocks);
    CollectFailsIff(results);
    if exists i :: 0 <= i < |blocks| && ParseBlock(blocks[i]) == Fail {
      var i :| 0 <= i < |blocks| && ParseBlock(blocks[i]) == Fail;
      assert results[i] == Fail;
    }
  }

  /** Running the loop over two runs of outcomes one after the other is running it over their concatenation. */
  lemma {:induction false} CollectAppend(a: seq<BlockResult>, b: seq<BlockResult>)
    ensures Collect(a + b) ==
      match (Collect(a), Collect(b))
      case (Some(x), Some(y)) => Some(x + y)
      case _ => None
    decreases |a|
  {
    if |a| == 0 {
      assert a + b == b;
      match Collect(b)
      case Some(y) => assert [] + y == y;
      case None =>
    } else {
      assert (a + b)[1..] == a[1..] + b;
      CollectAppend(a[1..], b);
      match a[0]
      case Fail =>
      case Skip =>
      case Keep(c) =>
        match (Collect(a[1..]), Collect(b))
        case (Some(x), Some(y)) => assert [c] + (x + y) == ([c] + x) + y;
        case _ =>
    }
  }

  /** Reading two runs of blocks one after the other is reading their concatenation. */
  lemma ParseBlocksAppend(a: seq<string>, b: seq<string>)
    ensures ParseBlocks(a + b) ==
      match (ParseBlocks(a), ParseBlocks(b))
      case (Some(x), Some(y)) => Some(x + y)
      case _ => None
  {
    hide ParseBlock;
    assert ReadBlocks(a + b) == ReadBlocks(a) + ReadBlocks(b);
    CollectAppend(ReadBlocks(a), ReadBlocks(b));
  }

  /**
   * `idx` says where each cue came from: cue `j` is what outcome `idx[j]`
   * kept, the positions increase, and no kept outcome is left out.
   */
  predicate Origins(results: seq<BlockResult>, cues: seq<Cue>, idx: seq<nat>) {
    |idx| == |cues| && KeptAt(results, cues, idx) && Increasing(idx) && Covers(results, idx)
  }

  predicate KeptAt(results: seq<BlockResult>, cues: seq<Cue>, idx: seq<nat>)
    requires |idx| == |cues|
  {
    forall j :: 0 <= j < |idx| ==> idx[j] < |results| && results[idx[j]] == Keep(cues[j])
  }

  predicate Increasing(idx: seq<nat>) {
    forall j, k :: 0 <= j < k < |idx| ==> idx[j] < idx[k]
  }

  predicate Covers(results: seq<BlockResult>, idx: seq<nat>) {
    forall i :: 0 <= i < |results| && results[i].Keep? ==> i in idx
  }

  /** Each cue comes from its own outcome, in order, and every kept outcome contributes its cue. */
  lemma {:induction false} CollectOrigins(results: seq<BlockResult>) returns (idx: seq<nat>)
    requires Collect(results).Some?
    ensures Origins(results, Collect(results).value, idx)
    decreases |results|
  {
    if |results| == 0 {
      idx := [];
    } else {
      var rest := CollectOrigins(results[1..]);
      var cues := Collect(results[1..]).value;
      var shifted := Shift(rest);
      KeptAtShift(results, cues, rest);
      CoversShift(results, rest);
      if results[0].Keep? {
        assert Collect(results).value == [results[0].cue] + cues;
        OriginsCons(results, results[0].cue, cues, shifted);
        idx := [0] + shifted;
      } else {
        assert Collect(results).value == cues;
        idx := shifted;
      }
    }
  }

  lemma OriginsCons(results: seq<BlockResult>, c: Cue, cues: seq<Cue>, shifted: seq<nat>)
    requires |results| > 0 && results[0] == Keep(c)
    requires |shifted| == |cues| && KeptAt(results, cues, shifted) && Increasing(shifted)
    requires forall j :: 0 <= j < |shifted| ==> shifted[j] >= 1
    requires forall i :: 1 <= i < |results| && results[i].Keep? ==> i in shifted
    ensures Origins(results, [c] + cues, [0] + shifted)
  {
    var idx := [0] + shifted;
    assert KeptAt(results, [c] + cues, idx) by {
      forall j | 1 <= j < |idx| ensures results[idx[j]] == Keep(([c] + cues)[j]) {
        assert idx[j] == shifted[j - 1];
      }
    }
    assert Increasing(idx) by {
      forall j, k | 0 <= j < k < |idx| ensures idx[j] < idx[k] {
        assert idx[k] == shifted[k - 1];
        if j > 0 {
          assert idx[j] == shifted[j - 1];
        }
      }
    }
    assert Covers(results, idx) by {
      forall i | 0 <= i < |results| && results[i].Keep? ensures i in idx {
        if i > 0 {
          var j :| 0 <= j < |shifted| && shifted[j] == i;
          assert idx[j + 1] == i;
        } else {
          assert idx[0] == 0;
        }
      }
    }
  }

  /** Moving the positions one place on keeps them pointing at the same cues of the longer list. */
  lemma KeptAtShift(results: seq<BlockResult>, cues: seq<Cue>, rest: seq<nat>)
    requires |results| > 0 && |rest| == |cues| && KeptAt(results[1..], cues, rest)
    ensures KeptAt(results, cues, Shift(rest))
  {
    forall j | 0 <= j < |rest| ensures results[Shift(rest)[j]] == Keep(cues[j]) {
      assert results[1..][rest[j]] == Keep(cues[j]);
    }
  }

  /** Moving the positions one place on covers every kept outcome after the first. */
  lemma CoversShift(results: seq<BlockResult>, rest: seq<nat>)
    requires |results| > 0 && Covers(results[1..], rest) && Increasing(rest)
    ensures Increasing(Shift(rest))
    ensures forall i :: 1 <= i < |results| && results[i].Keep? ==> i in Shift(rest)
    ensures !results[0].Keep? ==> Covers(results, Shift(rest))
  {
    var shifted := Shift(rest);
    forall i | 1 <= i < |results| && results[i].Keep? ensures i in shifted {
      assert results[1..][i - 1].Keep?;
      var j :| 0 <= j < |rest| && rest[j] == i - 1;
      assert shifted[j] == i;
    }
  }

  /** Each index moved one place on. */
  function Shift(xs: seq<nat>): (r: seq<nat>)
    ensures |r| == |xs|
    ensures forall j :: 0 <= j < |xs| ==> r[j] == xs[j] + 1
    decreases |xs|
  {
    if |xs| == 0 then [] else [xs[0] + 1] + Shift(xs[1..])
  }

  /**
   * Every cue comes from its own block, in track order, every block that
   * yields a cue contributes it, and no cue has empty text.
   */
  lemma CueOrigins(blocks: seq<string>) returns (idx: seq<nat>)
    requires ParseBlocks(blocks).Some?
    ensures |idx| == |ParseBlocks(blocks).value| <= |blocks|
    ensures forall j :: 0 <= j < |idx| ==> idx[j] < |blocks| && ParseBlock(blocks[idx[j]]) == Keep(ParseBlocks(blocks).value[j])
    ensures forall j, k :: 0 <= j < k < |idx| ==> idx[j] < idx[k]
    ensures forall i :: 0 <= i < |blocks| && ParseBlock(blocks[i]).Keep? ==> i in idx
    ensures forall j :: 0 <= j < |idx| ==> |ParseBlocks(blocks).value[j].text| > 0
    ensures forall j :: 0 <= j < |idx| ==> TagFree(ParseBlocks(blocks).value[j].text)
  {
    hide ParseBlock;
    idx := CollectOrigins(ReadBlocks(blocks));
    forall j | 0 <= j < |idx|
      ensures |ParseBlocks(blocks).value[j].text| > 0 && TagFree(ParseBlocks(blocks).value[j].text)
    {
      assert ParseBlock(blocks[idx[j]]).Keep?;
    }
  }

  /** A block with fewer than three lines, or with no `-->` on its second line, is skipped. */
  lemma NotATimedBlock(block: string)
    requires var lines := SplitOn(Strip(block), "\n");
             |lines| < 3 || !Contains(lines[1], "-->")
    ensures ParseBlock(block) == Skip
  {
  }

  /** A time line with `-->` that is not surrounded by single spaces makes the block an error. */
  lemma ArrowWithoutSpacesFails(block: string)
    requires var lines := SplitOn(Strip(block), "\n");
             |lines| >= 3 && Contains(lines[1], "-->") && !Contains(lines[1], " --> ")
    ensures ParseBlock(block) == Fail
  {
    var lines := SplitOn(Strip(block), "\n");
    SplitOnNone(lines[1], " --> ");
  }

  /** A kept cue carries the two times read from the fields around ` --> ` on its block's second line. */
  lemma KeptTimes(block: string)
    requires ParseBlock(block).Keep?
    ensures var lines := SplitOn(Strip(block), "\n");
            var times := SplitOn(lines[1], " --> ");
            |lines| >= 3 && Contains(lines[1], "-->") && |times| >= 2 &&
            ParseBlock(block).cue.start == ParseSrtTime(Strip(times[0])).value &&
            ParseBlock(block).cue.end == ParseSrtTime(Strip(times[1])).value
  {
  }

  /** A kept cue's text is lines three onward joined by spaces, stripped, with the tags removed. */
  lemma KeptText(block: string)
    requires ParseBlock(block).Keep?
    ensures var lines := SplitOn(Strip(block), "\n");
            |lines| >= 3 &&
            ParseBlock(block).cue.text == RemoveTags(Strip(Join(lines[2..], " ")))
  {
  }

  /** A timed block whose two times read and whose cleaned text is non-empty is kept, with those times and that text. */
  lemma ReadableBlockKept(block: string)
    requires var lines := SplitOn(Strip(block), "\n");
             |lines| >= 3 && Contains(lines[1], "-->") &&
             var times := SplitOn(lines[1], " --> ");
             |times| >= 2 && ParseSrtTime(Strip(times[0])).Some? && ParseSrtTime(Strip(times[1])).Some? &&
             |RemoveTags(Strip(Join(lines[2..], " ")))| > 0
    ensures var lines := SplitOn(Strip(block), "\n");
            var times := SplitOn(lines[1], " --> ");
            ParseBlock(block) == Keep(Cue(ParseSrtTime(Strip(times[0])).value, ParseSrtTime(Strip(times[1])).value,
                                          RemoveTags(Strip(Join(lines[2..], " ")))))
  {
  }

  /**
   * One timed block whose start or end time cannot be read -- a field
   * that is not a number, or fewer than three `:`-separated fields --
   * makes the whole file unreadable, wherever the block stands.
   */
  lemma UnreadableTimeFails(content: string, i: nat)
    requires var blocks := SplitBlank(Strip(content));
             i < |blocks| &&
             var lines := SplitOn(Strip(blocks[i]), "\n");
             |lines| >= 3 && Contains(lines[1], "-->") &&
             var times := SplitOn(lines[1], " --> ");
             |times| < 2 || ParseSrtTime(Strip(times[0])).None? || ParseSrtTime(Strip(times[1])).None?
    ensures ParseSrt(content) == None
  {
    var blocks := SplitBlank(Strip(content));
    ParseFailsIffSomeBlockFails(blocks);
    assert ParseBlock(blocks[i]) == Fail;
  }
}
