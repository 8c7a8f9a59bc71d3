/**
 * The control flow of `merge_video_subtitle` and
 * `merge_video_subtitle_batch` (set_sub.py). The video engine is an
 * oracle: a script of outcomes, call `j` succeeding exactly when
 * `script[j]` is true (a call past the end of the script fails). File
 * copies and engine runs are recorded as steps over abstract paths; the
 * files themselves are not modelled.
 */
module Render {
  import opened Wrappers
  import opened Strings
  import opened Numerals
  import opened Srt
  import opened Overlay

  // ------------------------------------------------------------ batches

  /** How many cues the fallback burns in per engine run. */
  const BatchSize: nat := 10

  /** The cue list cut into consecutive runs of ten, the last one possibly shorter. */
  function Batches(cues: seq<Cue>): (r: seq<seq<Cue>>)
    decreases |cues|
  {
    if |cues| == 0 then []
    else if |cues| <= BatchSize then [cues]
    else [cues[..BatchSize]] + Batches(cues[BatchSize..])
  }

  /** All batches laid end to end. */
  function Flatten(bs: seq<seq<Cue>>): seq<Cue>
    decreases |bs|
  {
    if |bs| == 0 then [] else bs[0] + Flatten(bs[1..])
  }

  /** Python's `cues[i:i+10]`: the batch starting at cue `i`, cut short at the end of the list. */
  function Slice(cues: seq<Cue>, i: nat): seq<Cue>
    requires i <= |cues|
  {
    if i + BatchSize <= |cues| then cues[i..i + BatchSize] else cues[i..]
  }

  /** The batches put back together give the cue list. */
  lemma {:induction false} BatchesCover(cues: seq<Cue>)
    ensures Flatten(Batches(cues)) == cues
    decreases |cues|
  {
    if |cues| > BatchSize {
      BatchesCover(cues[BatchSize..]);
      assert cues == cues[..BatchSize] + cues[BatchSize..];
    } else if |cues| > 0 {
      assert cues + [] == cues;
    }
  }

  /** There are ceil(n / 10) batches. */
  lemma {:induction false} BatchesCount(cues: seq<Cue>)
    ensures |Batches(cues)| == (|cues| + BatchSize - 1) / BatchSize
    decreases |cues|
  {
    if |cues| > BatchSize {
      BatchesCount(cues[BatchSize..]);
    }
  }

  /** Batch `k` is the slice the loop of `merge_video_subtitle_batch` takes at `i = 10k`. */
  lemma {:induction false} BatchesAreSlices(cues: seq<Cue>, k: nat)
    requires k < |Batches(cues)|
    ensures BatchSize * k < |cues|
    ensures Batches(cues)[k] == Slice(cues, BatchSize * k)
    decreases k
  {
    if k > 0 {
      var rest := cues[BatchSize..];
      BatchesAreSlices(rest, k - 1);
      assert BatchSize * k == BatchSize + BatchSize * (k - 1);
      if BatchSize * (k - 1) + BatchSize <= |rest| {
        assert rest[BatchSize * (k - 1)..BatchSize * (k - 1) + BatchSize] == cues[BatchSize * k..BatchSize * k + BatchSize];
      } else {
        assert rest[BatchSize * (k - 1)..] == cues[BatchSize * k..];
      }
    }
  }

  /** Every batch holds one to ten cues, and all but the last exactly ten. */
  lemma BatchSizes(cues: seq<Cue>, k: nat)
    requires k < |Batches(cues)|
    ensures 0 < |Batches(cues)[k]| <= BatchSize
    ensures k + 1 < |Batches(cues)| ==> |Batches(cues)[k]| == BatchSize
  {
    BatchesAreSlices(cues, k);
    BatchesCount(cues);
    if k + 1 < |Batches(cues)| {
      assert BatchSize * k + BatchSize <= |cues| by {
        assert (|cues| + BatchSize - 1) / BatchSize >= k + 2;
      }
    }
  }

  // ------------------------------------------------------------ steps

  /**
   * The files the two procedures touch: the video, the output path, and
   * files named `name` in a temporary directory (0 for the single pass,
   * 1 for the fallback, which makes its own).
   */
  datatype Path = Video | Output | Scratch(dir: nat, name: string)

  /** What the procedures do to files: copy one, or run the engine from an input to an output with a filter. */
  datatype Step = Copy(from: Path, to: Path) | Engine(input: Path, filter: string, output: Path)

  /** The result: whether the procedure returned `True`, and the steps it took. */
  datatype Outcome = Outcome(ok: bool, steps: seq<Step>)

  /** Whether engine call `j` succeeds. */
  predicate Succeeds(script: seq<bool>, j: nat) {
    j < |script| && script[j]
  }

  const PrimaryDir: nat := 0
  const FallbackDir: nat := 1

  /** The output of the batch starting at cue `i`: `batch_{i}.mp4`. */
  function BatchName(i: nat): string {
    "batch_" + NatToString(i) + ".mp4"
  }

  /** Where batch `k` writes. */
  function BatchOutput(k: nat): Path {
    Scratch(FallbackDir, BatchName(BatchSize * k))
  }

  /** Where batch `k` reads: the copied video for the first, the previous batch's output after. */
  function BatchInput(k: nat): Path {
    if k == 0 then Scratch(FallbackDir, "input.mp4") else BatchOutput(k - 1)
  }

  /** The outcomes left once the first engine call has used its own. */
  function Rest(script: seq<bool>): (r: seq<bool>)
    ensures |r| == if |script| == 0 then 0 else |script| - 1
    ensures forall t :: 0 <= t < |r| ==> r[t] == script[t + 1]
  {
    if |script| == 0 then [] else script[1..]
  }

  /**
   * The batch loop from batch `k` on, reading `input`, the next engine
   * calls getting the outcomes of `script` in order: whether every batch
   * succeeded, the steps, and the file the last batch wrote. The first
   * failing batch ends the loop.
   */
  function BatchLoop(bs: seq<seq<Cue>>, k: nat, input: Path, script: seq<bool>, show: real -> string): (r: (bool, seq<Step>, Path))
    requires k <= |bs|
    decreases |bs| - k
  {
    if k == |bs| then (true, [], input)
    else
      var step := Engine(input, BatchFilter(bs[k], show), BatchOutput(k));
      if !Succeeds(script, 0) then (false, [step], input)
      else
        var rest := BatchLoop(bs, k + 1, BatchOutput(k), Rest(script), show);
        (rest.0, [step] + rest.1, rest.2)
  }

  /** `merge_video_subtitle_batch`, its engine calls getting the outcomes of `script` in order. */
  function MergeBatch(cues: seq<Cue>, script: seq<bool>, show: real -> string): Outcome {
    var copy := Copy(Video, BatchInput(0));
    var loop := BatchLoop(Batches(cues), 0, BatchInput(0), script, show);
    if loop.0 then Outcome(true, [copy] + loop.1 + [Copy(loop.2, Output)])
    else Outcome(false, [copy] + loop.1)
  }

  /**
   * `merge_video_subtitle` on the decoded content of the subtitle file:
   * no cues (or a parse error) gives `False` at once; otherwise one engine
   * run with the whole chain, and on failure the batch fallback.
   */
  function MergeVideoSubtitle(content: string, script: seq<bool>, show: real -> string): Outcome {
    match ParseSrt(content)
    case None => Outcome(false, [])
    case Some(cues) =>
      if |cues| == 0 then Outcome(false, [])
      else
        var input, output := Scratch(PrimaryDir, "input.mp4"), Scratch(PrimaryDir, "output.mp4");
        var copy := Copy(Video, input);
        var run := Engine(input, DrawtextFilter(cues, show), output);
        if Succeeds(script, 0) then Outcome(true, [copy, run, Copy(output, Output)])
        else
          var fallback := MergeBatch(cues, Rest(script), show);
          Outcome(fallback.ok, [copy, run] + fallback.steps)
  }

  // ------------------------------------------------------------ the batch loop

  /** The filter of each batch, in order. */
  function BatchFilters(bs: seq<seq<Cue>>, show: real -> string): (r: seq<string>)
    ensures |r| == |bs|
    ensures forall k :: 0 <= k < |bs| ==> r[k] == BatchFilter(bs[k], show)
    decreases |bs|
  {
    if |bs| == 0 then [] else [BatchFilter(bs[0], show)] + BatchFilters(bs[1..], show)
  }

  /** Between them the batch filters burn in every cue once, in order: joined by commas they are the chain of all cues. */
  lemma {:induction false} BatchFiltersCoverCues(cues: seq<Cue>, show: real -> string)
    requires |cues| > 0
    ensures Join(BatchFilters(Batches(cues), show), ",") == Chain(Captions(cues, Plain), show)
    decreases |cues|
  {
    hide Chain;
    if |cues| <= BatchSize {
      assert Batches(cues) == [cues];
    } else {
      var head, tail := cues[..BatchSize], cues[BatchSize..];
      BatchFiltersCoverCues(tail, show);
      assert Batches(cues) == [head] + Batches(tail);
      var fs := BatchFilters(Batches(cues), show);
      assert fs == [BatchFilter(head, show)] + BatchFilters(Batches(tail), show);
      assert |Batches(tail)| > 0;
      assert fs[1..] == BatchFilters(Batches(tail), show);
      assert Join(fs, ",") == BatchFilter(head, show) + "," + Join(fs[1..], ",");
      assert cues == head + tail;
      CaptionsAppend(head, tail, Plain);
      ChainAppend(Captions(head, Plain), Captions(tail, Plain), show);
    }
  }

  /** Step `t` of the loop is batch `k + t`, with its own filter, reading what the step before wrote (or `input` for the first). */
  lemma {:induction false} BatchLoopSteps(bs: seq<seq<Cue>>, k: nat, input: Path, script: seq<bool>, show: real -> string)
    requires k <= |bs|
    ensures var r := BatchLoop(bs, k, input, script, show);
      && |r.1| <= |bs| - k
      && forall t :: 0 <= t < |r.1| ==>
           r.1[t] == Engine(if t == 0 then input else BatchOutput(k + t - 1), BatchFilter(bs[k + t], show), BatchOutput(k + t))
    decreases |bs| - k
  {
    hide BatchFilter, BatchOutput;
    if k < |bs| && Succeeds(script, 0) {
      var step := Engine(input, BatchFilter(bs[k], show), BatchOutput(k));
      var rest := BatchLoop(bs, k + 1, BatchOutput(k), Rest(script), show);
      BatchLoopSteps(bs, k + 1, BatchOutput(k), Rest(script), show);
      var r := BatchLoop(bs, k, input, script, show);
      assert r.1 == [step] + rest.1;
      forall t | 0 <= t < |r.1|
        ensures r.1[t] == Engine(if t == 0 then input else BatchOutput(k + t - 1), BatchFilter(bs[k + t], show), BatchOutput(k + t))
      {
        if t > 0 {
          assert r.1[t] == rest.1[t - 1];
        }
      }
    }
  }

  /**
   * The loop runs batches while the engine succeeds: every run but the
   * last succeeded, a failing run is the last, and the loop succeeds
   * exactly when every batch ran and succeeded.
   */
  lemma {:induction false} BatchLoopStops(bs: seq<seq<Cue>>, k: nat, input: Path, script: seq<bool>, show: real -> string)
    requires k <= |bs|
    ensures var r := BatchLoop(bs, k, input, script, show);
      && (forall t :: 0 <= t < |r.1| - 1 ==> Succeeds(script, t))
      && (r.0 ==> |r.1| == |bs| - k)
      && (r.0 <==> forall t :: 0 <= t < |bs| - k ==> Succeeds(script, t))
      && (!r.0 ==> |r.1| > 0 && !Succeeds(script, |r.1| - 1))
    decreases |bs| - k
  {
    hide BatchFilter, BatchOutput;
    if k < |bs| && Succeeds(script, 0) {
      var rest := BatchLoop(bs, k + 1, BatchOutput(k), Rest(script), show);
      BatchLoopStops(bs, k + 1, BatchOutput(k), Rest(script), show);
      var r := BatchLoop(bs, k, input, script, show);
      assert r.0 == rest.0 && |r.1| == 1 + |rest.1|;
      forall t | 1 <= t < |r.1| ensures Succeeds(script, t) <==> Succeeds(Rest(script), t - 1) {
      }
      if !r.0 {
        assert !Succeeds(Rest(script), |rest.1| - 1);
      }
      if forall t :: 0 <= t < |bs| - k ==> Succeeds(script, t) {
        forall t | 0 <= t < |bs| - (k + 1) ensures Succeeds(Rest(script), t) {
          assert Succeeds(script, t + 1);
        }
      }
      if rest.0 {
        forall t | 0 <= t < |bs| - k ensures Succeeds(script, t) {
          if t > 0 {
            assert Succeeds(Rest(script), t - 1);
          }
        }
      }
    }
  }

  /** A loop that succeeds hands on the last batch's output, or its own input when there was no batch. */
  lemma {:induction false} BatchLoopLast(bs: seq<seq<Cue>>, k: nat, input: Path, script: seq<bool>, show: real -> string)
    requires k <= |bs|
    ensures var r := BatchLoop(bs, k, input, script, show);
      r.0 ==> r.2 == if k == |bs| then input else BatchOutput(|bs| - 1)
    decreases |bs| - k
  {
    hide BatchFilter, BatchOutput;
    if k < |bs| && Succeeds(script, 0) {
      BatchLoopLast(bs, k + 1, BatchOutput(k), Rest(script), show);
    }
  }

  // ------------------------------------------------------------ the two procedures

  /** Without cues (empty file, or a parse error) the result is `False` and nothing is copied or run. */
  lemma NoCuesNoEngine(content: string, script: seq<bool>, show: real -> string)
    ensures var o := MergeVideoSubtitle(content, script, show);
      o.steps == [] <==> (ParseSrt(content).None? || |ParseSrt(content).value| == 0)
    ensures var o := MergeVideoSubtitle(content, script, show);
      o.steps == [] ==> !o.ok
  {
    hide ParseSrt, DrawtextFilter, MergeBatch;
  }

  /** When the single pass succeeds, the result is `True`, the engine ran once with the whole chain, and its output was copied out. */
  lemma PrimarySuccess(content: string, script: seq<bool>, show: real -> string)
    requires ParseSrt(content).Some? && |ParseSrt(content).value| > 0
    requires Succeeds(script, 0)
    ensures var o := MergeVideoSubtitle(content, script, show);
      && o.ok
      && |o.steps| == 3
      && o.steps[1] == Engine(Scratch(PrimaryDir, "input.mp4"), DrawtextFilter(ParseSrt(content).value, show), Scratch(PrimaryDir, "output.mp4"))
      && o.steps[2] == Copy(Scratch(PrimaryDir, "output.mp4"), Output)
  {
    hide ParseSrt, DrawtextFilter, MergeBatch;
  }

  /** When the single pass fails, the result is exactly that of the batch fallback on the same cues, with the remaining engine outcomes. */
  lemma FallbackDecides(content: string, script: seq<bool>, show: real -> string)
    requires ParseSrt(content).Some? && |ParseSrt(content).value| > 0
    requires !Succeeds(script, 0)
    ensures MergeVideoSubtitle(content, script, show).ok == MergeBatch(ParseSrt(content).value, Rest(script), show).ok
    ensures MergeVideoSubtitle(content, script, show).steps ==
      [Copy(Video, Scratch(PrimaryDir, "input.mp4")),
       Engine(Scratch(PrimaryDir, "input.mp4"), DrawtextFilter(ParseSrt(content).value, show), Scratch(PrimaryDir, "output.mp4"))]
      + MergeBatch(ParseSrt(content).value, Rest(script), show).steps
  {
    hide ParseSrt, DrawtextFilter, MergeBatch;
  }

  /**
   * The fallback returns `True` exactly when every batch's engine run
   * succeeds; then its last step copies the last batch's output (or the
   * copied video, for no cues) to the output path.
   */
  lemma MergeBatchSucceedsIff(cues: seq<Cue>, script: seq<bool>, show: real -> string)
    ensures var o := MergeBatch(cues, script, show);
      o.ok <==> forall t :: 0 <= t < |Batches(cues)| ==> Succeeds(script, t)
    ensures var o := MergeBatch(cues, script, show);
      o.ok ==> |o.steps| >= 2 && o.steps[|o.steps| - 1] == Copy(BatchInput(|Batches(cues)|), Output)
  {
    var bs := Batches(cues);
    BatchLoopStops(bs, 0, BatchInput(0), script, show);
    BatchLoopLast(bs, 0, BatchInput(0), script, show);
  }

  /**
   * The fallback's engine runs: step `1 + t` is batch `t`, reading the
   * previous batch's output; at most one run per batch.
   */
  lemma MergeBatchChain(cues: seq<Cue>, script: seq<bool>, show: real -> string)
    ensures var o := MergeBatch(cues, script, show);
      var bs := Batches(cues);
      var runs := if o.ok then |o.steps| - 2 else |o.steps| - 1;
      && o.steps[0] == Copy(Video, BatchInput(0))
      && 0 <= runs <= |bs|
      && (forall t :: 0 <= t < runs ==> o.steps[1 + t] == Engine(BatchInput(t), BatchFilter(bs[t], show), BatchOutput(t)))
  {
    hide BatchLoop, BatchFilter, Batches, BatchOutput;
    var bs := Batches(cues);
    BatchLoopSteps(bs, 0, BatchInput(0), script, show);
    var loop := BatchLoop(bs, 0, BatchInput(0), script, show);
    var o := MergeBatch(cues, script, show);
    var tail := if loop.0 then [Copy(loop.2, Output)] else [];
    assert o.steps == [Copy(Video, BatchInput(0))] + loop.1 + tail;
    forall t | 0 <= t < |loop.1| ensures o.steps[1 + t] == Engine(BatchInput(t), BatchFilter(bs[t], show), BatchOutput(t)) {
      assert o.steps[1 + t] == loop.1[t];
    }
  }

  /**
   * Every fallback run but the last succeeded, and when the fallback
   * fails it is because its last run failed.
   */
  lemma MergeBatchStops(cues: seq<Cue>, script: seq<bool>, show: real -> string)
    ensures var o := MergeBatch(cues, script, show);
      var runs := if o.ok then |o.steps| - 2 else |o.steps| - 1;
      && (forall t :: 0 <= t < runs - 1 ==> Succeeds(script, t))
      && (!o.ok ==> runs > 0 && !Succeeds(script, runs - 1))
  {
    hide BatchLoop, BatchFilter, Batches, BatchOutput;
    var bs := Batches(cues);
    BatchLoopSteps(bs, 0, BatchInput(0), script, show);
    BatchLoopStops(bs, 0, BatchInput(0), script, show);
    var loop := BatchLoop(bs, 0, BatchInput(0), script, show);
    var o := MergeBatch(cues, script, show);
    assert |o.steps| == 1 + |loop.1| + (if loop.0 then 1 else 0);
  }
}
