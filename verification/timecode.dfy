/**
 * SRT timecodes (`HH:MM:SS,mmm`) in both directions: the reader
 * `parse_srt_time` of set_sub.py and the two writers `format_timestamp`
 * of main.py and of script.py. Times are exact `real` seconds.
 */
module TimeCode {
  import opened Wrappers
  import opened Strings
  import opened Numerals

  /** Python's `int(x)` on a float: truncation toward zero. */
  function Trunc(x: real): (n: int)
    ensures x >= 0.0 ==> n as real <= x < n as real + 1.0
    ensures x < 0.0 ==> n as real - 1.0 < x <= n as real
  {
    if x >= 0.0 then x.Floor else -((-x).Floor)
  }

  /** `parse_srt_time`: commas become points, then the first three `:` fields are read. */
  function ParseSrtTime(s: string): Option<real> {
    ReadFields(SplitOn(ReplaceChar(s, ',', "."), ":"))
  }

  /** `int(H) * 3600 + int(M) * 60 + float(S)` over the first three fields; fewer fields raise `IndexError`. */
  function ReadFields(parts: seq<string>): Option<real> {
    if |parts| < 3 then None
    else
      var h, m, sec := ParseInt(parts[0]), ParseInt(parts[1]), ParseDecimal(parts[2]);
      if h.Some? && m.Some? && sec.Some? then Some(Seconds(h.value, m.value, sec.value))
      else None
  }

  /** The number of seconds a reading of hours, minutes and seconds names. */
  function Seconds(hours: int, minutes: int, secs: real): real {
    (hours * 3600 + minutes * 60) as real + secs
  }

  /** The hours, minutes and seconds that two `divmod` calls split a whole second count into. */
  function Clock(total: int): (r: (int, int, int))
    ensures r.0 * 3600 + r.1 * 60 + r.2 == total
    ensures 0 <= r.1 < 60 && 0 <= r.2 < 60
    ensures total >= 0 ==> r.0 >= 0
  {
    (total / 3600, (total % 3600) / 60, (total % 3600) % 60)
  }

  /** `format_timestamp` of main.py, millisecond field computed as the source computes it. */
  function FormatTimestamp(seconds: real): string {
    var (hours, minutes, secs) := Clock(Trunc(seconds));
    var millis := Trunc((secs as real - Trunc(secs as real) as real) * 1000.0);
    FormatInt(hours, 2) + ":" + FormatInt(minutes, 2) + ":" + FormatInt(Trunc(secs as real), 2) + "," + FormatInt(millis, 3)
  }

  /** The static `format_timestamp` of script.py, with a literal `,000`. */
  function FormatTimestampStatic(seconds: real): string {
    var (hours, minutes, secs) := Clock(Trunc(seconds));
    FormatInt(hours, 2) + ":" + FormatInt(minutes, 2) + ":" + FormatInt(secs, 2) + ",000"
  }

  /** In main.py the seconds are already whole when the milliseconds are taken, so that field is always `000`. */
  lemma MillisecondsAlwaysZero(seconds: real)
    ensures var (_, _, secs) := Clock(Trunc(seconds));
            Trunc((secs as real - Trunc(secs as real) as real) * 1000.0) == 0
  {
  }

  /** The two writers agree on every input. */
  lemma TimestampsAgree(seconds: real)
    ensures FormatTimestamp(seconds) == FormatTimestampStatic(seconds)
  {
    var (_, _, secs) := Clock(Trunc(seconds));
    MillisecondsAlwaysZero(seconds);
    assert Trunc(secs as real) == secs;
    assert FormatInt(0, 3) == "000";
  }

  /** Every character `{n:0Wd}` writes is a digit or a minus sign. */
  lemma FormatIntAlphabet(n: int, width: nat)
    ensures forall i :: 0 <= i < |FormatInt(n, width)| ==> IsDigit(FormatInt(n, width)[i]) || FormatInt(n, width)[i] == '-'
  {
    var w := if n < 0 && width > 0 then width - 1 else if n < 0 then 0 else width;
    var d := ZeroPad(NatToString(if n < 0 then -n else n), w);
    if n < 0 {
      assert FormatInt(n, width) == "-" + d;
    }
  }

  /** Characters that `{n:0Wd}` never writes. */
  lemma FormatIntAvoids(n: int, width: nat, c: char)
    requires !IsDigit(c) && c != '-'
    ensures c !in FormatInt(n, width)
  {
    FormatIntAlphabet(n, width);
  }

  /**
   * The value `parse_srt_time` reads from `HH:MM:SS,fff` when the hours and
   * minutes are integer literals and the seconds and fraction are digit runs.
   */
  lemma ParseSrtTimeFields(hh: string, mm: string, ss: string, fff: string, h: int, m: int)
    requires ':' !in hh && ',' !in hh && ':' !in mm && ',' !in mm
    requires ParseInt(hh) == Some(h) && ParseInt(mm) == Some(m)
    requires |ss| > 0 && AllDigits(ss) && AllDigits(fff)
    ensures ParseSrtTime(hh + ":" + mm + ":" + ss + "," + fff) == Some(Seconds(h, m, DigitsValue(ss) as real + Fraction(fff)))
  {
    // The lemmas below state all that is needed; unfolding the parsers only slows the solver.
    hide ParseSrtTime, ReplaceChar, SplitOn, ParseDecimal, ParseInt, Fraction, DigitsValue, Seconds, ReadFields;
    var seconds := ss + "." + fff;
    CommaBecomesPoint(hh, mm, ss, fff);
    NoColonInDecimal(ss, fff);
    SplitThreeFields(hh, mm, seconds);
    ParseDecimalPoint(ss, fff);
    ParseSrtTimeOfFields(hh + ":" + mm + ":" + ss + "," + fff, hh, mm, seconds);
  }

  /** `parse_srt_time` reads the first three fields of the comma-rewritten text. */
  lemma ParseSrtTimeOfFields(s: string, a: string, b: string, c: string)
    requires SplitOn(ReplaceChar(s, ',', "."), ":") == [a, b, c]
    requires ParseInt(a).Some? && ParseInt(b).Some? && ParseDecimal(c).Some?
    ensures ParseSrtTime(s) == Some(Seconds(ParseInt(a).value, ParseInt(b).value, ParseDecimal(c).value))
  {
  }

  /**
   * Fewer than three `:`-separated fields, or hours, minutes or seconds that
   * do not read as numbers, leave `parse_srt_time` without a value (the
   * program raises there).
   */
  lemma UnreadableFieldFails(s: string)
    requires var parts := SplitOn(ReplaceChar(s, ',', "."), ":");
             |parts| < 3 || ParseInt(parts[0]).None? || ParseInt(parts[1]).None? || ParseDecimal(parts[2]).None?
    ensures ParseSrtTime(s) == None
  {
  }

  /** Only the comma before the fraction is rewritten. */
  lemma CommaBecomesPoint(hh: string, mm: string, ss: string, fff: string)
    requires ',' !in hh && ',' !in mm && AllDigits(ss) && AllDigits(fff)
    ensures ReplaceChar(hh + ":" + mm + ":" + ss + "," + fff, ',', ".") == hh + ":" + (mm + ":" + (ss + "." + fff))
  {
    var head := hh + ":" + mm + ":" + ss;
    NoCommaInHead(hh, mm, ss);
    NoCommaInDigits(fff);
    ReplaceCharSplice(head, fff, ',', ".");
    Regroup(hh, mm, ss, fff);
  }

  lemma NoCommaInHead(hh: string, mm: string, ss: string)
    requires ',' !in hh && ',' !in mm && AllDigits(ss)
    ensures ',' !in hh + ":" + mm + ":" + ss
  {
    NoCommaInDigits(ss);
  }

  lemma Regroup(hh: string, mm: string, ss: string, fff: string)
    ensures hh + ":" + mm + ":" + ss + "," + fff == (hh + ":" + mm + ":" + ss) + ([','] + fff)
    ensures (hh + ":" + mm + ":" + ss) + ("." + fff) == hh + ":" + (mm + ":" + (ss + "." + fff))
  {
  }

  /** Text with exactly two colons, neither inside a field, splits into three fields. */
  lemma SplitThreeFields(a: string, b: string, c: string)
    requires ':' !in a && ':' !in b && !Contains(c, ":")
    ensures SplitOn(a + ":" + (b + ":" + c), ":") == [a, b, c]
  {
    SplitOnCons(a, b + ":" + c, ":");
    SplitOnCons(b, c, ":");
    SplitOnNone(c, ":");
  }

  lemma NoCommaInDigits(d: string)
    requires AllDigits(d)
    ensures ',' !in d && ':' !in d
  {
    forall i | 0 <= i < |d| ensures d[i] != ',' && d[i] != ':' {
      assert IsDigit(d[i]);
    }
  }

  lemma NoColonInDecimal(ss: string, fff: string)
    requires AllDigits(ss) && AllDigits(fff)
    ensures !Contains(ss + "." + fff, ":")
  {
    NoCommaInDigits(ss);
    NoCommaInDigits(fff);
    NotContainsFirstChar(ss + "." + fff, ":");
  }

  /** The clock reading names the second count it was split from. */
  lemma ClockSeconds(total: int)
    ensures Seconds(Clock(total).0, Clock(total).1, Clock(total).2 as real) == total as real
  {
  }

  /** A non-negative count is written as a non-empty digit run. */
  lemma FormatIntDigits(n: nat, width: nat)
    ensures |FormatInt(n, width)| > 0 && AllDigits(FormatInt(n, width))
  {
  }

  /** A whole second count zero-padded to two digits, followed by `.000`, reads back as that count. */
  lemma WholeSecondsField(sec: nat)
    ensures DigitsValue(FormatInt(sec, 2)) as real + Fraction("000") == sec as real
  {
    ZeroPadValue(sec, 2);
    assert Fraction("000") == 0.0 by {
      assert Fraction("0") == 0.0;
      assert Fraction("00") == 0.0;
    }
  }

  /** The text main.py writes, field by field. */
  lemma TimestampFields(seconds: real)
    ensures var (h, m, sec) := Clock(Trunc(seconds));
            FormatTimestamp(seconds) == FormatInt(h, 2) + ":" + FormatInt(m, 2) + ":" + FormatInt(sec, 2) + "," + "000"
  {
    TimestampsAgree(seconds);
  }

  /** Reading back a written timecode gives the whole seconds the writer kept, for every time, negative ones included. */
  lemma TimecodeRoundTrip(seconds: real)
    ensures ParseSrtTime(FormatTimestamp(seconds)) == Some(Trunc(seconds) as real)
  {
    hide ParseSrtTime, FormatTimestamp, ParseDecimal, ParseInt, Fraction, DigitsValue, FormatInt, Seconds;
    var total := Trunc(seconds);
    var (h, m, sec) := Clock(total);
    var hh, mm, ss := FormatInt(h, 2), FormatInt(m, 2), FormatInt(sec, 2);
    TimestampFields(seconds);
    FormatIntAvoids(h, 2, ':');
    FormatIntAvoids(h, 2, ',');
    FormatIntAvoids(m, 2, ':');
    FormatIntAvoids(m, 2, ',');
    FormatIntRoundTrip(h, 2);
    FormatIntRoundTrip(m, 2);
    FormatIntDigits(sec, 2);
    WholeSecondsField(sec);
    ClockSeconds(total);
    ParseSrtTimeFields(hh, mm, ss, "000", h, m);
  }

  /** The characters a written timecode is made of. */
  predicate StampChar(c: char) {
    IsDigit(c) || c == '-' || c == ':' || c == ','
  }

  predicate StampText(s: string) {
    forall i :: 0 <= i < |s| ==> StampChar(s[i])
  }

  /** A written timecode is made of digits, signs, colons and commas only, and starts with a digit or a sign. */
  lemma TimestampAlphabet(seconds: real)
    ensures |FormatTimestamp(seconds)| > 0 && StampText(FormatTimestamp(seconds))
    ensures IsDigit(FormatTimestamp(seconds)[0]) || FormatTimestamp(seconds)[0] == '-'
  {
    var (h, m, sec) := Clock(Trunc(seconds));
    TimestampFields(seconds);
    FormatIntAlphabet(h, 2);
    FormatIntAlphabet(m, 2);
    FormatIntAlphabet(sec, 2);
    var t := FormatTimestamp(seconds);
    assert t == FormatInt(h, 2) + ":" + FormatInt(m, 2) + ":" + FormatInt(sec, 2) + "," + "000";
    assert t[0] == FormatInt(h, 2)[0];
  }

  /** A timecode with fewer than three `:` fields is rejected. */
  lemma TooFewFields(s: string)
    requires CountChar(s, ':') < 2
    ensures ParseSrtTime(s) == None
  {
    ReplaceCharKeepsCount(s, ',', '.', ':');
    SplitOnCharCount(ReplaceChar(s, ',', "."), ':');
  }

  /** Fields after the third are never read. */
  lemma ExtraFieldsIgnored(t: string, extra: string)
    requires CountChar(t, ':') >= 2
    ensures ParseSrtTime(t + ":" + extra) == ParseSrtTime(t)
  {
    hide ParseInt, ParseDecimal, Seconds, ReplaceChar, SplitOn;
    var rt, rx := ReplaceChar(t, ',', "."), ReplaceChar(extra, ',', ".");
    ReplaceCharAppend(t + ":", extra, ',', ".");
    ReplaceCharAppend(t, ":", ',', ".");
    assert ReplaceChar(t + ":" + extra, ',', ".") == rt + [':'] + rx;
    SplitOnCharAppend(rt, rx, ':');
    ReplaceCharKeepsCount(t, ',', '.', ':');
    SplitOnCharCount(rt, ':');
    var parts := SplitOn(rt, ":");
    assert SplitOn(rt + [':'] + rx, ":")[..3] == parts[..3];
  }
}
