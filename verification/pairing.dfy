/**
 * Pairing videos with subtitle files in a directory listing
 * (`find_matching_files` of set_sub.py), the file names built from them
 * (`safe_filename` and the output name in `main`), and the folder-name
 * filter of script.py (`safe_title`).
 */
module Pairing {
  import opened Wrappers
  import opened Strings

  // ------------------------------------------------------------ file names

  /** An entry of the listing: its name, and whether it is a regular file. */
  datatype Entry = Entry(name: string, isFile: bool)

  /** True when every character of `s` is a dot. */
  predicate AllDots(s: string) {
    forall i :: 0 <= i < |s| ==> s[i] == '.'
  }

  /** Index of the last `.` in `s`. */
  function LastDot(s: string): (r: Option<nat>)
    ensures r.Some? ==> r.value < |s| && s[r.value] == '.' && '.' !in s[r.value + 1..]
    ensures r.None? ==> '.' !in s
    decreases |s|
  {
    if |s| == 0 then None
    else if s[|s| - 1] == '.' then Some(|s| - 1)
    else
      match LastDot(s[..|s| - 1])
      case None => None
      case Some(d) =>
        assert s[d + 1..] == s[..|s| - 1][d + 1..] + [s[|s| - 1]];
        Some(d)
  }

  /**
   * `os.path.splitext` of a bare name: the extension runs from the last
   * dot, unless everything before that dot is dots (`.bashrc`, `..x`), in
   * which case there is none.
   */
  function SplitExt(name: string): (r: (string, string))
    ensures r.0 + r.1 == name
  {
    match LastDot(name)
    case None => (name, "")
    case Some(d) => if AllDots(name[..d]) then (name, "") else (name[..d], name[d..])
  }

  function Stem(name: string): string {
    SplitExt(name).0
  }

  function Ext(name: string): string {
    SplitExt(name).1
  }

  /** An extension is a dot and no further dot, and the stem before it is not all dots; a name without one has dots only in its leading run. */
  lemma SplitExtShape(name: string)
    ensures var (stem, ext) := SplitExt(name);
      && (ext != "" ==> ext[0] == '.' && '.' !in ext[1..] && !AllDots(stem))
      && (ext == "" ==> stem == name && forall i :: 0 <= i < |name| && name[i] == '.' ==> AllDots(name[..i]))
  {
    match LastDot(name)
    case None =>
    case Some(d) =>
      if AllDots(name[..d]) {
        forall i | 0 <= i < |name| && name[i] == '.' ensures AllDots(name[..i]) {
        }
      } else {
        assert name[d..][1..] == name[d + 1..];
      }
  }

  /** Splitting a stem and extension built the way `main` builds the output name gives them back. */
  lemma SplitExtOfJoin(stem: string, ext: string)
    requires !AllDots(stem) && |ext| > 0 && ext[0] == '.' && '.' !in ext[1..]
    ensures SplitExt(stem + ext) == (stem, ext)
  {
    var name := stem + ext;
    var d := LastDot(name);
    assert name[|stem|] == '.';
    assert d.Some? && d.value >= |stem|;
    assert name[..|stem|] == stem;
  }

  /** ASCII lower case, as `str.lower` acts on ASCII letters. */
  function LowerChar(c: char): char {
    if 'A' <= c <= 'Z' then (c as int + 32) as char else c
  }

  function Lower(s: string): (r: string)
    ensures |r| == |s| && forall i :: 0 <= i < |s| ==> r[i] == LowerChar(s[i])
    decreases |s|
  {
    if |s| == 0 then "" else [LowerChar(s[0])] + Lower(s[1..])
  }

  const VideoExtensions: set<string> := {".mp4", ".mkv", ".avi", ".mov", ".wmv"}
  const SubtitleExtensions: set<string> := {".srt", ".ass", ".ssa"}

  /** A regular file whose lower-cased extension is a video one. */
  predicate IsVideo(e: Entry) {
    e.isFile && Lower(Ext(e.name)) in VideoExtensions
  }

  /** A regular file whose lower-cased extension is a subtitle one (and not a video one, which the two lists never share). */
  predicate IsSubtitle(e: Entry) {
    e.isFile && !IsVideo(e) && Lower(Ext(e.name)) in SubtitleExtensions
  }

  // ------------------------------------------------------------ pairing

  /** The names of the entries that pass `keep`, in listing order. */
  function Names(listing: seq<Entry>, keep: Entry -> bool): (r: seq<string>)
    ensures |r| <= |listing|
    decreases |listing|
  {
    if |listing| == 0 then []
    else (if keep(listing[0]) then [listing[0].name] else []) + Names(listing[1..], keep)
  }

  function Videos(listing: seq<Entry>): seq<string> {
    Names(listing, IsVideo)
  }

  function Subtitles(listing: seq<Entry>): seq<string> {
    Names(listing, IsSubtitle)
  }

  /** A name is collected exactly when some entry of that name passes. */
  lemma {:induction false} NamesMembership(listing: seq<Entry>, keep: Entry -> bool, n: string)
    ensures n in Names(listing, keep) <==> exists i :: 0 <= i < |listing| && keep(listing[i]) && listing[i].name == n
    decreases |listing|
  {
    if |listing| > 0 {
      NamesMembership(listing[1..], keep, n);
      if exists i :: 0 <= i < |listing| && keep(listing[i]) && listing[i].name == n {
        var i :| 0 <= i < |listing| && keep(listing[i]) && listing[i].name == n;
        if i > 0 {
          assert listing[1..][i - 1] == listing[i];
        }
      }
      if exists i :: 0 <= i < |listing[1..]| && keep(listing[1..][i]) && listing[1..][i].name == n {
        var i :| 0 <= i < |listing[1..]| && keep(listing[1..][i]) && listing[1..][i].name == n;
        assert listing[i + 1] == listing[1..][i];
      }
    }
  }

  /** The first subtitle in listing order whose stem is `stem`. */
  function FirstMatch(stem: string, subs: seq<string>): (r: Option<nat>)
    ensures r.Some? ==> r.value < |subs| && Stem(subs[r.value]) == stem
    ensures r.Some? ==> forall j :: 0 <= j < r.value ==> Stem(subs[j]) != stem
    ensures r.None? ==> forall j :: 0 <= j < |subs| ==> Stem(subs[j]) != stem
    decreases |subs|
  {
    if |subs| == 0 then None
    else if Stem(subs[0]) == stem then Some(0)
    else
      match FirstMatch(stem, subs[1..])
      case None => None
      case Some(k) => Some(k + 1)
  }

  /** A video and its first same-stem subtitle, when it has one. */
  function PairOf(v: string, subs: seq<string>): (r: Option<(string, string)>)
    ensures r.Some? <==> exists j :: 0 <= j < |subs| && Stem(subs[j]) == Stem(v)
    ensures r.Some? ==> exists k :: (0 <= k < |subs| && r.value == (v, subs[k]) && Stem(subs[k]) == Stem(v)
      && forall j :: 0 <= j < k ==> Stem(subs[j]) != Stem(v))
  {
    match FirstMatch(Stem(v), subs)
    case None => None
    case Some(k) => Some((v, subs[k]))
  }

  /** Each video in order, paired with its first same-stem subtitle when there is one. */
  function Pairs(vs: seq<string>, subs: seq<string>): (r: seq<(string, string)>)
    ensures |r| <= |vs|
    decreases |vs|
  {
    if |vs| == 0 then []
    else
      match PairOf(vs[0], subs)
      case None => Pairs(vs[1..], subs)
      case Some(p) => [p] + Pairs(vs[1..], subs)
  }

  /** `find_matching_files` over a listing (names stand for the joined paths). */
  function FindMatchingFiles(listing: seq<Entry>): seq<(string, string)> {
    Pairs(Videos(listing), Subtitles(listing))
  }

  /** Pair `j` comes from video `idx[j]`. */
  predicate PairedAt(vs: seq<string>, subs: seq<string>, r: seq<(string, string)>, idx: seq<nat>)
    requires |idx| == |r|
  {
    forall j :: 0 <= j < |idx| ==> idx[j] < |vs| && PairOf(vs[idx[j]], subs) == Some(r[j])
  }

  predicate Ascending(idx: seq<nat>) {
    forall j, k :: 0 <= j < k < |idx| ==> idx[j] < idx[k]
  }

  /** Every video that has a same-stem subtitle is among `idx`. */
  predicate Complete(vs: seq<string>, subs: seq<string>, idx: seq<nat>) {
    forall i :: 0 <= i < |vs| && PairOf(vs[i], subs).Some? ==> i in idx
  }

  predicate PairOrigin(vs: seq<string>, subs: seq<string>, r: seq<(string, string)>, idx: seq<nat>) {
    |idx| == |r| && PairedAt(vs, subs, r, idx) && Ascending(idx) && Complete(vs, subs, idx)
  }

  function ShiftUp(xs: seq<nat>): (r: seq<nat>)
    ensures |r| == |xs|
    ensures forall j :: 0 <= j < |xs| ==> r[j] == xs[j] + 1
  {
    seq(|xs|, j requires 0 <= j < |xs| => xs[j] + 1)
  }

  /**
   * Where the pairs come from: pair `j` is video `idx[j]` with its first
   * same-stem subtitle; the indices increase, so each video appears at
   * most once and in listing order; every video that has a same-stem
   * subtitle appears.
   */
  lemma {:induction false} PairOrigins(vs: seq<string>, subs: seq<string>) returns (idx: seq<nat>)
    ensures PairOrigin(vs, subs, Pairs(vs, subs), idx)
    decreases |vs|
  {
    if |vs| == 0 {
      idx := [];
    } else {
      var rest := PairOrigins(vs[1..], subs);
      idx := PairOriginsStep(vs, subs, rest);
    }
  }

  lemma PairOriginsStep(vs: seq<string>, subs: seq<string>, rest: seq<nat>) returns (idx: seq<nat>)
    requires |vs| > 0 && PairOrigin(vs[1..], subs, Pairs(vs[1..], subs), rest)
    ensures PairOrigin(vs, subs, Pairs(vs, subs), idx)
  {
    var tail := Pairs(vs[1..], subs);
    ShiftKeepsPairs(vs, subs, tail, rest);
    ShiftKeepsOrder(vs, subs, rest);
    if PairOf(vs[0], subs).None? {
      idx := ShiftUp(rest);
      StepUnpaired(vs, subs, tail, rest);
    } else {
      idx := [0] + ShiftUp(rest);
      StepPaired(vs, subs, tail, rest);
    }
  }

  lemma StepUnpaired(vs: seq<string>, subs: seq<string>, tail: seq<(string, string)>, rest: seq<nat>)
    requires |vs| > 0 && tail == Pairs(vs[1..], subs) && |rest| == |tail|
    requires PairOf(vs[0], subs).None?
    requires PairedAt(vs, subs, tail, ShiftUp(rest)) && Ascending(ShiftUp(rest))
    requires forall i :: 1 <= i < |vs| && PairOf(vs[i], subs).Some? ==> i in ShiftUp(rest)
    ensures PairOrigin(vs, subs, Pairs(vs, subs), ShiftUp(rest))
  {
    assert Pairs(vs, subs) == tail;
    hide Pairs, PairOf, PairedAt, Ascending;
    assert Complete(vs, subs, ShiftUp(rest)) by {
      forall i | 0 <= i < |vs| && PairOf(vs[i], subs).Some? ensures i in ShiftUp(rest) {
        if i == 0 { assert false; }
      }
    }
  }

  lemma StepPaired(vs: seq<string>, subs: seq<string>, tail: seq<(string, string)>, rest: seq<nat>)
    requires |vs| > 0 && tail == Pairs(vs[1..], subs) && |rest| == |tail|
    requires PairOf(vs[0], subs).Some?
    requires PairedAt(vs, subs, tail, ShiftUp(rest)) && Ascending(ShiftUp(rest))
    requires forall i :: 1 <= i < |vs| && PairOf(vs[i], subs).Some? ==> i in ShiftUp(rest)
    requires forall j :: 0 <= j < |rest| ==> ShiftUp(rest)[j] > 0
    ensures PairOrigin(vs, subs, Pairs(vs, subs), [0] + ShiftUp(rest))
  {
    var p := PairOf(vs[0], subs).value;
    assert Pairs(vs, subs) == [p] + tail;
    var shifted := ShiftUp(rest);
    hide Pairs, PairOf, ShiftUp;
    ConsPairedAt(vs, subs, p, tail, shifted);
    ConsAscending(shifted);
    ConsComplete(vs, subs, shifted);
  }

  lemma ConsPairedAt(vs: seq<string>, subs: seq<string>, p: (string, string), tail: seq<(string, string)>, shifted: seq<nat>)
    requires |vs| > 0 && PairOf(vs[0], subs) == Some(p)
    requires |shifted| == |tail| && PairedAt(vs, subs, tail, shifted)
    ensures PairedAt(vs, subs, [p] + tail, [0] + shifted)
  {
    hide PairOf;
    var idx := [0] + shifted;
    forall j | 0 <= j < |idx| ensures idx[j] < |vs| && PairOf(vs[idx[j]], subs) == Some(([p] + tail)[j]) {
      if j > 0 {
        assert idx[j] == shifted[j - 1] && ([p] + tail)[j] == tail[j - 1];
      }
    }
  }

  lemma ConsAscending(shifted: seq<nat>)
    requires Ascending(shifted) && forall j :: 0 <= j < |shifted| ==> shifted[j] > 0
    ensures Ascending([0] + shifted)
  {
    var idx := [0] + shifted;
    forall j, k | 0 <= j < k < |idx| ensures idx[j] < idx[k] {
      assert idx[k] == shifted[k - 1];
      if j > 0 { assert idx[j] == shifted[j - 1]; }
    }
  }

  lemma ConsComplete(vs: seq<string>, subs: seq<string>, shifted: seq<nat>)
    requires forall i :: 1 <= i < |vs| && PairOf(vs[i], subs).Some? ==> i in shifted
    ensures Complete(vs, subs, [0] + shifted)
  {
    hide PairOf;
    var idx := [0] + shifted;
    forall i | 0 <= i < |vs| && PairOf(vs[i], subs).Some? ensures i in idx {
      if i == 0 { assert idx[0] == 0; } else { assert i in shifted; }
    }
  }

  lemma ShiftKeepsPairs(vs: seq<string>, subs: seq<string>, tail: seq<(string, string)>, rest: seq<nat>)
    requires |vs| > 0 && |rest| == |tail| && PairedAt(vs[1..], subs, tail, rest)
    ensures PairedAt(vs, subs, tail, ShiftUp(rest))
  {
    hide PairOf;
    forall j | 0 <= j < |rest| ensures ShiftUp(rest)[j] < |vs| && PairOf(vs[ShiftUp(rest)[j]], subs) == Some(tail[j]) {
      assert vs[1..][rest[j]] == vs[rest[j] + 1];
    }
  }

  lemma ShiftKeepsOrder(vs: seq<string>, subs: seq<string>, rest: seq<nat>)
    requires |vs| > 0 && Ascending(rest) && Complete(vs[1..], subs, rest)
    ensures Ascending(ShiftUp(rest))
    ensures forall i :: 1 <= i < |vs| && PairOf(vs[i], subs).Some? ==> i in ShiftUp(rest)
    ensures forall j :: 0 <= j < |rest| ==> ShiftUp(rest)[j] > 0
  {
    hide PairOf;
    var shifted := ShiftUp(rest);
    forall i | 1 <= i < |vs| && PairOf(vs[i], subs).Some? ensures i in shifted {
      assert vs[1..][i - 1] == vs[i];
      var j :| 0 <= j < |rest| && rest[j] == i - 1;
      assert shifted[j] == i;
    }
  }

  /** Every pair is a video entry and a subtitle entry of the listing with the same stem, the subtitle the first such. */
  lemma PairsSound(listing: seq<Entry>, j: nat)
    requires j < |FindMatchingFiles(listing)|
    ensures var (v, s) := FindMatchingFiles(listing)[j];
      && (exists i :: 0 <= i < |listing| && IsVideo(listing[i]) && listing[i].name == v)
      && (exists i :: 0 <= i < |listing| && IsSubtitle(listing[i]) && listing[i].name == s)
      && Stem(v) == Stem(s)
  ensures var (v, s) := FindMatchingFiles(listing)[j];
    var subs := Subtitles(listing);
    exists k :: 0 <= k < |subs| && subs[k] == s && forall i :: 0 <= i < k ==> Stem(subs[i]) != Stem(v)
  {
    var vs, subs := Videos(listing), Subtitles(listing);
    var idx := PairOrigins(vs, subs);
    var (v, s) := FindMatchingFiles(listing)[j];
    var k := FirstMatch(Stem(vs[idx[j]]), subs).value;
    assert PairOf(vs[idx[j]], subs) == Some((v, s));
    assert v == vs[idx[j]] && s == subs[k];
    NamesMembership(listing, IsVideo, v);
    NamesMembership(listing, IsSubtitle, s);
  }

  // ------------------------------------------------------------ output names

  /** The characters `safe_filename` replaces, in the order it replaces them. */
  const UnsafeChars: seq<char> := ['/', '\\', ':', '*', '?', '"', '<', '>', '|', '⧸']

  /** The replacements of `safe_filename`, one `replace` per character of `cs`. */
  function ReplaceEach(s: string, cs: seq<char>): string
    decreases |cs|
  {
    if |cs| == 0 then s else ReplaceEach(ReplaceChar(s, cs[0], "_"), cs[1..])
  }

  /** `safe_filename`. */
  function SafeFilename(name: string): string {
    ReplaceEach(name, UnsafeChars)
  }

  /** Replacing each of `cs` by `_` in turn turns exactly the characters of `cs` into `_` and leaves the rest. */
  lemma {:induction false} ReplaceEachPointwise(s: string, cs: seq<char>)
    requires '_' !in cs
    ensures |ReplaceEach(s, cs)| == |s|
    ensures forall i :: 0 <= i < |s| ==> ReplaceEach(s, cs)[i] == if s[i] in cs then '_' else s[i]
    decreases |cs|
  {
    if |cs| > 0 {
      var t := ReplaceChar(s, cs[0], "_");
      ReplaceCharPointwise(s, cs[0], '_');
      ReplaceEachPointwise(t, cs[1..]);
      forall i | 0 <= i < |s| ensures ReplaceEach(s, cs)[i] == if s[i] in cs then '_' else s[i] {
        if s[i] in cs && s[i] != cs[0] {
          var k :| 0 <= k < |cs| && cs[k] == s[i];
          assert cs[1..][k - 1] == s[i];
        }
      }
    }
  }

  /** `safe_filename` keeps the length, turns each unsafe character into `_` and changes nothing else. */
  lemma SafeFilenamePointwise(name: string)
    ensures |SafeFilename(name)| == |name|
    ensures forall i :: 0 <= i < |name| ==> SafeFilename(name)[i] == if name[i] in UnsafeChars then '_' else name[i]
  {
    UnderscoreIsSafe();
    hide ReplaceEach;
    ReplaceEachPointwise(name, UnsafeChars);
  }

  lemma UnderscoreIsSafe()
    ensures '_' !in UnsafeChars
  {
  }

  /** Text without any of the unsafe characters. */
  predicate Safe(s: string) {
    forall i :: 0 <= i < |s| ==> s[i] !in UnsafeChars
  }

  /** No unsafe character is left by `safe_filename`. */
  lemma SafeFilenameSafe(name: string)
    ensures Safe(SafeFilename(name))
  {
    SafeFilenamePointwise(name);
    UnderscoreIsSafe();
    hide SafeFilename, ReplaceEach;
    var r := SafeFilename(name);
    forall i | 0 <= i < |r| ensures r[i] !in UnsafeChars {
    }
  }

  /** A safe name is left alone, so applying `safe_filename` twice changes nothing more. */
  lemma SafeFilenameIdempotent(name: string)
    ensures Safe(name) ==> SafeFilename(name) == name
    ensures SafeFilename(SafeFilename(name)) == SafeFilename(name)
  {
    SafeFilenameSafe(name);
    SafeUnchanged(name);
    SafeUnchanged(SafeFilename(name));
  }

  lemma SafeUnchanged(name: string)
    ensures Safe(name) ==> SafeFilename(name) == name
  {
    SafeFilenamePointwise(name);
    hide SafeFilename;
    if Safe(name) {
      forall i | 0 <= i < |name| ensures SafeFilename(name)[i] == name[i] {
      }
    }
  }

  const OutputSuffix: string := "_with_subtitle"
  const OutputExt: string := ".mp4"

  /** The output name `main` builds for a video: its safe stem, `_with_subtitle`, `.mp4`. */
  function OutputName(video: string): string {
    SafeFilename(Stem(video)) + OutputSuffix + OutputExt
  }

  lemma SafeConcat(a: string, b: string)
    requires Safe(a) && Safe(b)
    ensures Safe(a + b)
  {
    forall i | 0 <= i < |a + b| ensures (a + b)[i] !in UnsafeChars {
      if i >= |a| {
        assert (a + b)[i] == b[i - |a|];
      }
    }
  }

  lemma SuffixSafe()
    ensures Safe(OutputSuffix + OutputExt)
  {
    var s := OutputSuffix + OutputExt;
    assert s == "_with_subtitle.mp4";
    forall i | 0 <= i < |s| ensures s[i] !in UnsafeChars {
      assert s[i] in "_withsubtle.mp4";
    }
  }

  /** The output name holds no unsafe character. */
  lemma OutputNameSafe(video: string)
    ensures Safe(OutputName(video))
  {
    var safe := SafeFilename(Stem(video));
    SafeFilenameSafe(Stem(video));
    SuffixSafe();
    hide SafeFilename, Stem;
    SafeConcat(safe, OutputSuffix + OutputExt);
    assert OutputName(video) == safe + (OutputSuffix + OutputExt);
  }

  /** The output name splits back into the safe stem with the suffix, and `.mp4`. */
  lemma OutputNameSplits(video: string)
    ensures SplitExt(OutputName(video)) == (SafeFilename(Stem(video)) + OutputSuffix, OutputExt)
  {
    var safe := SafeFilename(Stem(video));
    hide SafeFilename, Stem;
    var stem := safe + OutputSuffix;
    assert stem[|safe|] == '_';
    SplitExtOfJoin(stem, OutputExt);
  }

  // ------------------------------------------------------------ folder names

  /** The characters `safe_title` keeps besides alphanumerics. */
  predicate TitleChar(c: char, isAlnum: char -> bool) {
    isAlnum(c) || c == ' ' || c == '-' || c == '_'
  }

  /** `safe_title` of script.py: the title's allowed characters, in order (`isAlnum` stands for `str.isalnum`). */
  function SafeTitle(title: string, isAlnum: char -> bool): (r: string)
    ensures |r| <= |title|
    decreases |title|
  {
    if |title| == 0 then ""
    else (if TitleChar(title[0], isAlnum) then [title[0]] else []) + SafeTitle(title[1..], isAlnum)
  }

  /** Every character of the safe title is allowed. */
  lemma {:induction false} SafeTitleAllowed(title: string, isAlnum: char -> bool)
    ensures forall i :: 0 <= i < |SafeTitle(title, isAlnum)| ==> TitleChar(SafeTitle(title, isAlnum)[i], isAlnum)
    decreases |title|
  {
    if |title| > 0 {
      SafeTitleAllowed(title[1..], isAlnum);
      var head := if TitleChar(title[0], isAlnum) then [title[0]] else [];
      var rest := SafeTitle(title[1..], isAlnum);
      forall i | 0 <= i < |head + rest| ensures TitleChar((head + rest)[i], isAlnum) {
        if i >= |head| {
          assert (head + rest)[i] == rest[i - |head|];
        }
      }
    }
  }

  /**
   * The safe title is the title with exactly its disallowed characters left
   * out: the rest keep their order, and every allowed character occurs in it
   * as often as in the title while a disallowed one does not occur at all.
   */
  lemma SafeTitleKeeps(title: string, isAlnum: char -> bool)
    ensures Subsequence(SafeTitle(title, isAlnum), title)
    ensures forall c :: c in title && TitleChar(c, isAlnum) ==> c in SafeTitle(title, isAlnum)
    ensures forall c :: CountChar(SafeTitle(title, isAlnum), c) == if TitleChar(c, isAlnum) then CountChar(title, c) else 0
  {
    SafeTitleCounts(title, isAlnum);
    SafeTitleOrder(title, isAlnum);
    forall c | c in title && TitleChar(c, isAlnum) ensures c in SafeTitle(title, isAlnum) {
      assert CountChar(title, c) > 0;
    }
  }

  /** Filtering the title keeps its characters in order. */
  lemma {:induction false} SafeTitleOrder(title: string, isAlnum: char -> bool)
    ensures Subsequence(SafeTitle(title, isAlnum), title)
    decreases |title|
  {
    if |title| > 0 {
      SafeTitleOrder(title[1..], isAlnum);
      var rest := SafeTitle(title[1..], isAlnum);
      if TitleChar(title[0], isAlnum) {
        assert SafeTitle(title, isAlnum) == [title[0]] + rest;
        assert title == [title[0]] + title[1..];
        SubsequenceCons(title[0], rest, title[1..]);
      } else {
        assert SafeTitle(title, isAlnum) == rest;
        SubsequenceDrop(rest, title);
      }
    }
  }

  /** Each character occurs in the safe title as often as in the title when it is allowed, and never otherwise. */
  lemma {:induction false} SafeTitleCounts(title: string, isAlnum: char -> bool)
    ensures forall c :: CountChar(SafeTitle(title, isAlnum), c) == if TitleChar(c, isAlnum) then CountChar(title, c) else 0
    decreases |title|
  {
    if |title| > 0 {
      SafeTitleCounts(title[1..], isAlnum);
      var head := if TitleChar(title[0], isAlnum) then [title[0]] else [];
      var rest := SafeTitle(title[1..], isAlnum);
      assert SafeTitle(title, isAlnum) == head + rest;
      forall c ensures CountChar(SafeTitle(title, isAlnum), c) == if TitleChar(c, isAlnum) then CountChar(title, c) else 0 {
        CountCharAppend(head, rest, c);
        if |head| > 0 {
          assert head[1..] == [];
        }
      }
    }
  }

  /** A title made of allowed characters is left alone, so the filter is idempotent. */
  lemma {:induction false} SafeTitleIdempotent(title: string, isAlnum: char -> bool)
    ensures (forall i :: 0 <= i < |title| ==> TitleChar(title[i], isAlnum)) ==> SafeTitle(title, isAlnum) == title
    ensures SafeTitle(SafeTitle(title, isAlnum), isAlnum) == SafeTitle(title, isAlnum)
    decreases |title|
  {
    if |title| > 0 {
      SafeTitleIdempotent(title[1..], isAlnum);
    }
    SafeTitleAllowed(title, isAlnum);
    AllowedUnchanged(SafeTitle(title, isAlnum), isAlnum);
  }

  lemma {:induction false} AllowedUnchanged(title: string, isAlnum: char -> bool)
    requires forall i :: 0 <= i < |title| ==> TitleChar(title[i], isAlnum)
    ensures SafeTitle(title, isAlnum) == title
    decreases |title|
  {
    if |title| > 0 {
      AllowedUnchanged(title[1..], isAlnum);
    }
  }
}
