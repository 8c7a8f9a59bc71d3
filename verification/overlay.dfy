/**
 * The overlay directives of set_sub.py: the escaping of cue text, the
 * burned-in caption of each cue as a record, its rendering as a drawtext
 * filter, and the two filter chains (`create_drawtext_filter` and the one
 * built per batch in `merge_video_subtitle_batch`).
 *
 * How a time is rendered inside `between(t,…)` is Python's float `repr`;
 * here it is the parameter `show`.
 */
module Overlay {
  import opened Strings
  import opened Srt
  import Patterns

  // ------------------------------------------------------------ escaping

  /** The characters the escaping puts a backslash in front of. */
  predicate Special(c: char) {
    c == '\'' || c == ':' || c == '[' || c == ']'
  }

  /** Number of characters of `s` that get a backslash. */
  function CountSpecial(s: string): nat {
    CountChar(s, '\'') + CountChar(s, ':') + CountChar(s, '[') + CountChar(s, ']')
  }

  /** One character, escaped. */
  function EscapeChar(c: char): string {
    if Special(c) then ['\\', c] else [c]
  }

  /** The escaping as one pass over the text, one character at a time. */
  function Escape(s: string): string
    decreases |s|
  {
    if |s| == 0 then "" else EscapeChar(s[0]) + Escape(s[1..])
  }

  /** The escaping as set_sub.py writes it: four `replace` calls, in this order. */
  function EscapeChained(s: string): string {
    var t := ReplaceChar(ReplaceChar(s, '\'', "\\'"), ':', "\\:");
    ReplaceChar(ReplaceChar(t, '[', "\\["), ']', "\\]")
  }

  /** Drops the backslash in front of each special character, reading left to right. */
  function Unescape(s: string): string
    decreases |s|
  {
    if |s| == 0 then ""
    else if |s| >= 2 && s[0] == '\\' && Special(s[1]) then [s[1]] + Unescape(s[2..])
    else [s[0]] + Unescape(s[1..])
  }

  lemma {:induction false} EscapeAppend(a: string, b: string)
    ensures Escape(a + b) == Escape(a) + Escape(b)
    decreases |a|
  {
    if |a| == 0 {
      assert a + b == b;
    } else {
      assert (a + b)[1..] == a[1..] + b;
      EscapeAppend(a[1..], b);
    }
  }

  lemma EscapeChainedAppend(a: string, b: string)
    ensures EscapeChained(a + b) == EscapeChained(a) + EscapeChained(b)
  {
    var a1, b1 := ReplaceChar(a, '\'', "\\'"), ReplaceChar(b, '\'', "\\'");
    var a2, b2 := ReplaceChar(a1, ':', "\\:"), ReplaceChar(b1, ':', "\\:");
    var a3, b3 := ReplaceChar(a2, '[', "\\["), ReplaceChar(b2, '[', "\\[");
    ReplaceCharAppend(a, b, '\'', "\\'");
    ReplaceCharAppend(a1, b1, ':', "\\:");
    ReplaceCharAppend(a2, b2, '[', "\\[");
    ReplaceCharAppend(a3, b3, ']', "\\]");
  }

  lemma EscapeChainedChar(c: char)
    ensures EscapeChained([c]) == EscapeChar(c)
  {
    var s: string := [c];
    assert ReplaceChar(s, c, [c]) == s;
    if c == '\'' {
      assert ReplaceChar(s, '\'', "\\'") == "\\'";
    } else if c == ':' {
      assert ReplaceChar(s, ':', "\\:") == "\\:";
    } else if c == '[' {
      assert ReplaceChar(s, '[', "\\[") == "\\[";
    } else if c == ']' {
      assert ReplaceChar(s, ']', "\\]") == "\\]";
    }
  }

  /** The four chained `replace` calls are the one-pass, per-character escaping. */
  lemma {:induction false} ChainedIsPerCharacter(s: string)
    ensures EscapeChained(s) == Escape(s)
    decreases |s|
  {
    if |s| == 0 {
      assert EscapeChained(s) == "";
    } else {
      assert s == [s[0]] + s[1..];
      EscapeChainedAppend([s[0]], s[1..]);
      EscapeChainedChar(s[0]);
      ChainedIsPerCharacter(s[1..]);
    }
  }

  /** The escaped text is longer by exactly the number of special characters. */
  lemma {:induction false} EscapeLength(s: string)
    ensures |Escape(s)| == |s| + CountSpecial(s)
    decreases |s|
  {
    if |s| > 0 {
      EscapeLength(s[1..]);
    }
  }

  /** An escaped text never starts with a special character: it starts with a backslash or with a plain character. */
  lemma EscapeHead(t: string)
    requires |t| > 0
    ensures |Escape(t)| > 0 && !Special(Escape(t)[0])
  {
  }

  /** Every special character of an escaped text has a backslash right before it. */
  lemma {:induction false} EscapeGuardsSpecials(s: string)
    ensures forall i :: 0 <= i < |Escape(s)| && Special(Escape(s)[i]) ==> i > 0 && Escape(s)[i - 1] == '\\'
    decreases |s|
  {
    if |s| > 0 {
      var head, rest := EscapeChar(s[0]), Escape(s[1..]);
      EscapeGuardsSpecials(s[1..]);
      assert Escape(s) == head + rest;
      forall i | 0 <= i < |Escape(s)| && Special(Escape(s)[i]) ensures i > 0 && Escape(s)[i - 1] == '\\' {
        if i >= |head| {
          assert Escape(s)[i] == rest[i - |head|];
          if i > |head| {
            assert Escape(s)[i - 1] == rest[i - 1 - |head|];
          }
        }
      }
    }
  }

  /** Removing the added backslashes gives the text back, so distinct texts are escaped differently. */
  lemma {:induction false} EscapeRoundTrip(s: string)
    ensures Unescape(Escape(s)) == s
    decreases |s|
  {
    if |s| > 0 {
      var rest := Escape(s[1..]);
      EscapeRoundTrip(s[1..]);
      if |s| > 1 {
        EscapeHead(s[1..]);
      }
      var e := EscapeChar(s[0]) + rest;
      assert Escape(s) == e;
      if Special(s[0]) {
        assert e[2..] == rest;
      } else {
        assert e[1..] == rest;
      }
    }
  }

  /** Text without special characters is left as it is, and only such text. */
  lemma EscapeIdentity(s: string)
    ensures Escape(s) == s <==> CountSpecial(s) == 0
  {
    EscapeLength(s);
    if CountSpecial(s) == 0 {
      NoSpecialUnchanged(s);
    }
  }

  lemma {:induction false} NoSpecialUnchanged(s: string)
    requires CountSpecial(s) == 0
    ensures Escape(s) == s
    decreases |s|
  {
    if |s| > 0 {
      assert !Special(s[0]);
      NoSpecialUnchanged(s[1..]);
    }
  }

  // ------------------------------------------------------------ overlay records

  /**
   * The two looks of a burned-in caption: `Boxed` is the one pass of
   * `create_drawtext_filter` (a half-transparent box over the bottom
   * quarter, 40-point text centred in it); `Plain` is the batch
   * fallback (24-point text near the top, no box).
   */
  datatype Style = Boxed | Plain

  /** One caption to burn in: its text as the cue has it, the interval it shows during, its look. */
  datatype Caption = Caption(text: string, start: real, end: real, style: Style)

  /** The caption of a cue in a given look. */
  function CaptionOf(cue: Cue, style: Style): (o: Caption)
    ensures o.text == cue.text && o.start == cue.start && o.end == cue.end && o.style == style
  {
    Caption(cue.text, cue.start, cue.end, style)
  }

  /** The captions of the cues, one per cue and in order. */
  function Captions(cues: seq<Cue>, style: Style): (r: seq<Caption>)
    ensures |r| == |cues|
    ensures forall k :: 0 <= k < |cues| ==> r[k] == CaptionOf(cues[k], style)
    decreases |cues|
  {
    if |cues| == 0 then [] else [CaptionOf(cues[0], style)] + Captions(cues[1..], style)
  }

  // ------------------------------------------------------------ rendering

  const BoxFilter: string := "drawbox=x=0:y=h*3/4:w=iw:h=ih/4:color=black@0.5"
  const TextOpen: string := "drawtext=text='"

  /** What comes before the escaped text: for the boxed look, the box and then the text filter. */
  function Opening(style: Style): string {
    match style
    case Boxed => BoxFilter + "," + TextOpen
    case Plain => TextOpen
  }

  /** What comes between the escaped text and the time gate: the closing quote, font and position. */
  function Layout(style: Style): string {
    match style
    case Boxed => "':fontsize=40:fontcolor=white:x=(w-text_w)/2:y=h*3/4+(h/4-text_h)/2:"
    case Plain => "':fontcolor=white:fontsize=24:x=(w-text_w)/2:y=30:"
  }

  /** The time gate: the caption shows while `t` is between the two times. */
  function Gate(start: real, end: real, show: real -> string): string {
    "enable='between(t," + show(start) + "," + show(end) + ")'"
  }

  /** The filter text of one caption. */
  function Render(o: Caption, show: real -> string): string {
    Opening(o.style) + Escape(o.text) + Layout(o.style) + Gate(o.start, o.end, show)
  }

  /** The filter text of each caption, in order. */
  function RenderAll(os: seq<Caption>, show: real -> string): (r: seq<string>)
    ensures |r| == |os|
    ensures forall k :: 0 <= k < |os| ==> r[k] == Render(os[k], show)
    decreases |os|
  {
    if |os| == 0 then [] else [Render(os[0], show)] + RenderAll(os[1..], show)
  }

  /** A chain of captions: their filter texts joined by commas. */
  function Chain(os: seq<Caption>, show: real -> string): string {
    Join(RenderAll(os, show), ",")
  }

  /** `create_drawtext_filter`: `null` without cues, otherwise the chain of boxed captions. */
  function DrawtextFilter(cues: seq<Cue>, show: real -> string): (r: string)
    ensures r == "null" <==> |cues| == 0
  {
    if |cues| == 0 then "null"
    else
      var os := Captions(cues, Boxed);
      Patterns.JoinHead(RenderAll(os, show), ",");
      Chain(os, show)
  }

  /** The filter of one batch in `merge_video_subtitle_batch`: the chain of its captions, without a box. */
  function BatchFilter(batch: seq<Cue>, show: real -> string): string {
    Chain(Captions(batch, Plain), show)
  }

  /**
   * `create_drawtext_filter` as set_sub.py runs it: the first loop builds
   * one filter per cue, the second glues them together with commas.
   */
  method CreateDrawtextFilter(cues: seq<Cue>, show: real -> string) returns (r: string)
    ensures r == DrawtextFilter(cues, show)
  {
    if |cues| == 0 {
      return "null";
    }
    var filters := RenderEach(cues, show);
    r := JoinFilters(filters);
  }

  /** The first loop of `create_drawtext_filter`: one boxed filter text per cue, in order. */
  method RenderEach(cues: seq<Cue>, show: real -> string) returns (filters: seq<string>)
    ensures filters == RenderAll(Captions(cues, Boxed), show)
  {
    hide Render;
    filters := [];
    var i := 0;
    while i < |cues|
      invariant 0 <= i <= |cues| && |filters| == i
      invariant forall j :: 0 <= j < i ==> filters[j] == Render(CaptionOf(cues[j], Boxed), show)
    {
      filters := filters + [Render(CaptionOf(cues[i], Boxed), show)];
      i := i + 1;
    }
  }

  /** The second loop of `create_drawtext_filter`: the filters glued together with commas. */
  method JoinFilters(filters: seq<string>) returns (r: string)
    requires |filters| > 0
    ensures r == Join(filters, ",")
  {
    r := filters[0];
    var i := 1;
    while i < |filters|
      invariant 1 <= i <= |filters|
      invariant r == Join(filters[..i], ",")
    {
      JoinAppend(filters[..i], [filters[i]], ",");
      assert filters[..i + 1] == filters[..i] + [filters[i]];
      r := r + "," + filters[i];
      i := i + 1;
    }
    assert filters[..i] == filters;
  }

  // ------------------------------------------------------------ properties of the chains

  /** Cue `k` gives part `k` of the chain: a box, then its escaped text, then the gate on its own times. */
  lemma BoxedPart(cues: seq<Cue>, show: real -> string, k: nat)
    requires k < |cues|
    ensures BoxFilter + "," <= RenderAll(Captions(cues, Boxed), show)[k]
    ensures RenderAll(Captions(cues, Boxed), show)[k]
      == Opening(Boxed) + Escape(cues[k].text) + Layout(Boxed) + Gate(cues[k].start, cues[k].end, show)
  {
    hide Escape, Layout, Gate, Opening, BoxFilter, RenderAll, Captions;
    var e, l, g := Escape(cues[k].text), Layout(Boxed), Gate(cues[k].start, cues[k].end, show);
    var part := RenderAll(Captions(cues, Boxed), show)[k];
    var o := CaptionOf(cues[k], Boxed);
    assert o == Caption(cues[k].text, cues[k].start, cues[k].end, Boxed);
    assert part == Render(o, show);
    assert part == Opening(Boxed) + e + l + g;
    BoxedOpening(e, l, g);
  }

  /** The boxed opening starts with the box filter and a comma. */
  lemma BoxedOpening(e: string, l: string, g: string)
    ensures BoxFilter + "," <= Opening(Boxed) + e + l + g
  {
  }

  /** A caption's filter text fixes its text: captions that differ only in text render differently. */
  lemma RenderDeterminesText(o1: Caption, o2: Caption, show: real -> string)
    requires o1.style == o2.style && o1.start == o2.start && o1.end == o2.end
    requires Render(o1, show) == Render(o2, show)
    ensures o1 == o2
  {
    var head, tail := Opening(o1.style), Layout(o1.style) + Gate(o1.start, o1.end, show);
    var e1, e2 := Escape(o1.text), Escape(o2.text);
    hide Escape, Opening, Layout, Gate;
    assert Render(o1, show) == head + e1 + tail;
    assert Render(o2, show) == head + e2 + tail;
    assert |e1| == |e2|;
    assert e1 == (head + e1 + tail)[|head|..|head| + |e1|];
    assert e2 == (head + e2 + tail)[|head|..|head| + |e2|];
    EscapeRoundTrip(o1.text);
    EscapeRoundTrip(o2.text);
  }

  /** The chain of two runs of captions is the chain of each, joined by one comma. */
  lemma ChainAppend(a: seq<Caption>, b: seq<Caption>, show: real -> string)
    requires |a| > 0 && |b| > 0
    ensures Chain(a + b, show) == Chain(a, show) + "," + Chain(b, show)
  {
    hide Render;
    assert RenderAll(a + b, show) == RenderAll(a, show) + RenderAll(b, show);
    JoinAppend(RenderAll(a, show), RenderAll(b, show), ",");
  }

  /** Captions of a concatenation are the captions of each part. */
  lemma CaptionsAppend(a: seq<Cue>, b: seq<Cue>, style: Style)
    ensures Captions(a + b, style) == Captions(a, style) + Captions(b, style)
  {
  }

  /** The primary filter of cues `a + b` is that of `a`, a comma, and that of `b`. */
  lemma DrawtextFilterAppend(a: seq<Cue>, b: seq<Cue>, show: real -> string)
    requires |a| > 0 && |b| > 0
    ensures DrawtextFilter(a + b, show) == DrawtextFilter(a, show) + "," + DrawtextFilter(b, show)
  {
    CaptionsAppend(a, b, Boxed);
    ChainAppend(Captions(a, Boxed), Captions(b, Boxed), show);
  }
}
