# Youtube2Subtitle core in Dafny

This project models the subtitle side of Youtube2Subtitle and proves properties of the model.

**Writing SRT tracks.** Two writers turn transcription segments into SubRip text:
- `create_srt` in main.py;
- the block loop of `generate_subtitle` in script.py.

Both writers use a `format_timestamp` that produces `HH:MM:SS,mmm`. main.py has one version and script.py has a static one.

**Reading SRT tracks back** (set_sub.py). The track reader splits the decoded content at blank lines, removes markup tags, and reads each timecode with `parse_srt_time`.

**Burning subtitles into a video** (set_sub.py):
- `create_drawtext_filter` turns cues into an ffmpeg filter chain and escapes the text.
- `merge_video_subtitle` makes one engine run.
- When that run fails, `merge_video_subtitle_batch` re-renders in batches of ten cues, each batch reading the previous batch's output.

**Names** (set_sub.py):
- `find_matching_files` pairs videos with same-stem subtitles.
- `safe_filename` and `main` build the output name.
- script.py's `safe_title` builds folder names.

**Modules, one file each:**

| module | contents |
|---|---|
| `Wrappers` | `Option` |
| `Strings` | `isspace`, `strip`, `in`/`find`, `split`, `join`, one-character `replace` over `seq<char>` |
| `Numerals` | `str(n)`, `{n:0Wd}`, `int(text)`, `float(text)` |
| `TimeCode` | the timecode reader and both writers |
| `Patterns` | the two regular expressions the reader applies, written out as the matches Python's `re` finds |
| `Srt` | the SRT writers and the block reader |
| `SrtRoundTrip` | reading back what the writers wrote |
| `Overlay` | escaping and drawtext filter chains |
| `Render` | batching and the control flow of the two merge procedures |
| `Pairing` | file classification and pairing, safe output names, safe titles |

**How the model represents the outside world:**
- Times are exact `real` seconds. Python's `int()` on a float is `TimeCode.Trunc`, which truncates toward zero.
- How Python prints a float inside a filter string is a parameter `show: real -> string`.
- ffmpeg is an oracle: a `seq<bool>` whose `k`-th entry says whether the `k`-th engine run succeeds. A run past the end of the script fails.
- File copies and engine runs are recorded as a list of `Step`s over abstract paths:
  - `Video` and `Output` are the caller's paths;
  - `Scratch(dir, name)` is a file in a temporary directory, where dir 0 belongs to the single pass and dir 1 to the batch fallback.
- A directory listing is a sequence of `Entry(name, isFile)` in `os.listdir` order. File names stand for the joined paths.

**A malformed timecode aborts the whole track.** In set_sub.py, a `ValueError` or `IndexError` from `parse_srt_time` or from `times[1]` (lines 81-83) escapes `parse_srt_file`. It is then caught by `merge_video_subtitle` (lines 170-172), which returns `False`. So one bad block aborts the whole track. The model follows the code: `Srt.ParseSrt` returns `None`, and `Render.MergeVideoSubtitle` returns a failed outcome with no steps.

**A behaviour of the code worth knowing.** In main.py, `format_timestamp` takes the milliseconds after `divmod` has already made the seconds whole (line 21). The field is therefore always `000`, and that writer produces exactly what script.py's static version produces. `TimeCode.MillisecondsAlwaysZero` and `TimeCode.TimestampsAgree` prove this.

## Model

| member | source | states |
|---|---|---|
| Numerals.NatToString | main.py:31 | `str(i)` of a block number is a non-empty run of digits whose value is `i`, starting with `0` only for zero |
| Numerals.FormatInt | main.py:22 | `{n:0Wd}` is exactly `max(W, len(str(n)))` characters wide, the sign counted, so no zero beyond the width is added |
| Numerals.ZeroPadValue | main.py:22 | zero-filling a number's digits does not change the value they denote |
| Numerals.FormatIntRoundTrip | main.py:22 | `int()` reads back exactly the integer that `{n:0Wd}` wrote, for every integer (negative ones included) and every width |
| Numerals.ParseDecimalExtendsParseInt | set_sub.py:51-53 | wherever `int()` accepts a field, `float()` accepts it with the same value |
| Numerals.ParseDecimalPoint | set_sub.py:53 | `float("W.F")` for digit runs `W` and `F` is the exact decimal value `W + 0.F` |
| Strings.LStrip | set_sub.py:75 | `lstrip()` removes exactly the longest leading run of whitespace |
| Strings.RStrip | set_sub.py:75 | `rstrip()` removes exactly the longest trailing run of whitespace |
| Strings.StripOfTrimmed | set_sub.py:72 | `strip()` leaves text unchanged if and only if it neither starts nor ends with whitespace |
| Strings.StripIdempotent | set_sub.py:75 | stripping twice gives the same as stripping once |
| Strings.StripTrailingSpace | set_sub.py:72 | stripping trimmed text followed by whitespace removes exactly that whitespace |
| Strings.IndexOf | set_sub.py:80 | `find` returns an occurrence with none before it, or fails only when the pattern occurs nowhere |
| Strings.SplitOnJoin | set_sub.py:50 | joining the fields of `split(sep)` with `sep` gives back the text, and no field contains `sep` |
| Strings.SplitOnCharCount | set_sub.py:50 | splitting on a character yields one more field than there are occurrences of that character |
| Strings.SplitOnCharAppend | set_sub.py:50 | splitting `a + c + b` on `c` is splitting `a` and splitting `b` |
| Strings.JoinAppend | set_sub.py:118-120 | joining two non-empty lists is joining each one, with one separator between them |
| Strings.ReplaceCharPointwise | set_sub.py:49 | replacing one character by another rewrites exactly its occurrences and keeps the length |
| Strings.ReplaceCharKeepsCount | set_sub.py:49 | rewriting one character does not change how often a third character occurs |
| TimeCode.Trunc | main.py:18 | `int(x)` is the integer next to `x` on the side toward zero |
| TimeCode.Clock | main.py:19-20 | the two `divmod` calls give hours, minutes and seconds that add back up to the total; minutes and seconds are below 60 |
| TimeCode.ClockSeconds | main.py:19-20 | the clock reading denotes the second count it was split from |
| TimeCode.MillisecondsAlwaysZero | main.py:21 | the millisecond field main.py computes is 0 for every input |
| TimeCode.TimestampsAgree | script.py:143-148 | script.py's static `format_timestamp` and main.py's `format_timestamp` write the same text for every time |
| TimeCode.TimestampAlphabet | main.py:22 | a written timecode is non-empty, consists of digits, signs, `:` and `,` only, and starts with a digit or a sign |
| TimeCode.UnreadableFieldFails | set_sub.py:46-54 | fewer than three `:`-separated fields, or an hours, minutes or seconds field that is not a number, leaves `parse_srt_time` without a value |
| TimeCode.ParseSrtTimeFields | set_sub.py:46-54 | `parse_srt_time("HH:MM:SS,fff")` is `H*3600 + M*60 + S.fff` |
| TimeCode.TimecodeRoundTrip | set_sub.py:46-54 | reading back a timecode main.py wrote gives the whole seconds the writer kept, for every time, negative times included |
| TimeCode.TooFewFields | set_sub.py:50-53 | text with fewer than three `:` fields is rejected, as the `IndexError` rejects it |
| TimeCode.ExtraFieldsIgnored | set_sub.py:50-53 | fields after the third are never read |
| Patterns.SpaceRunEnd | set_sub.py:72 | the greedy `\s*` consumes exactly the longest run of whitespace |
| Patterns.BreakAtMatches | set_sub.py:72 | a match of `\n\s*\n` starts at `p` if and only if `s[p]` is a newline and the whitespace run after it holds another newline; the match ends after the last such newline |
| Patterns.FindBreakLeftmost | set_sub.py:72 | the match `re.split` cuts at is the leftmost one |
| Patterns.GuardedHasNoBreak | set_sub.py:72 | no blank-line match starts inside text in which every newline is followed by a non-space |
| Patterns.SplitBlankCons | set_sub.py:72 | a guarded block, one blank line, then a non-blank line: the block is split off first |
| Patterns.SplitBlankJoin | set_sub.py:72 | `re.split(r'\n\s*\n')` gives back guarded blocks that were joined with blank lines |
| Patterns.RemoveTagsSubset | set_sub.py:88 | removing tags only deletes characters: what is left is a subsequence of the text, in the same order, with no new characters |
| Patterns.RemoveTagsTagFree | set_sub.py:88 | after the substitution, `<[^>]+>` matches nowhere |
| Patterns.RemoveTagsOfTagFree | set_sub.py:88 | text in which the pattern matches nowhere is left alone |
| Patterns.RemoveTagsIdempotent | set_sub.py:88 | applying the substitution twice changes nothing more |
| Patterns.RemoveTagsNoOpen | set_sub.py:88 | text without `<` is left alone |
| Srt.BlocksNumbered | main.py:27-31 | block `k` is numbered `first + k` and holds segment `k`'s times and stripped text |
| Srt.WritersAgree | script.py:126-132 | script.py's `generate_subtitle` writes the same track as main.py's `create_srt` for every segment list |
| Srt.TrackLayout | main.py:31-32 | a track is empty for no segments; otherwise it is the block bodies separated by exactly one blank line, followed by a final newline |
| Srt.JoinTerminated | main.py:31-32 | joining newline-terminated blocks with newlines leaves one blank line between neighbours |
| Srt.ParseBlock | set_sub.py:75-95 | a block yields a cue only if the cue's text is non-empty and no `<[^>]+>` matches in it |
| Srt.ReadCue | set_sub.py:81-95 | a block with a time line is an error exactly when the second time field is missing or either time cannot be read; a readable block is kept exactly when its joined, stripped, untagged text is non-empty, and the cue then carries the two times read and that text |
| Srt.ReadBlocks | set_sub.py:74-75 | every block is read, in order, independently of the others |
| Srt.Collect | set_sub.py:74-97 | the loop keeps at most one cue per block |
| Srt.CollectFailsIff | set_sub.py:74-97 | the loop fails if and only if some block outcome is an error |
| Srt.ParseFailsIffSomeBlockFails | set_sub.py:72-97 | the whole parse fails if and only if some single block is an error |
| Srt.ParseBlocksAppend | set_sub.py:74-97 | reading two runs of blocks one after the other is reading their concatenation |
| Srt.CueOrigins | set_sub.py:74-97 | each cue comes from its own block, in track order; every block that yields a cue contributes it; no cue has empty text or a remaining tag |
| Srt.NotATimedBlock | set_sub.py:76-80 | a block with fewer than three lines, or with no `-->` on its second line, is skipped |
| Srt.KeptText | set_sub.py:85-88 | a kept cue's text is lines three onward joined with spaces, stripped, with the tags removed |
| Srt.ReadableBlockKept | set_sub.py:75-95 | a timed block whose two times read and whose cleaned text is non-empty is kept, with those times and that text |
| Srt.KeptTimes | set_sub.py:79-95 | a kept cue's start and end are the times read from the fields around ` --> ` on the block's second line |
| Srt.UnreadableTimeFails | set_sub.py:82-83 | one timed block whose start or end time cannot be read makes the whole file unreadable, wherever it stands |
| Srt.ArrowWithoutSpacesFails | set_sub.py:80-83 | a block whose time line has `-->` but not ` --> ` is an error, because `times[1]` does not exist |
| SrtRoundTrip.TimeLineShape | main.py:31 | a time line built from two written timecodes contains `-->` and splits at ` --> ` back into the two timecodes |
| SrtRoundTrip.ThreeLines | main.py:31 | a written block body is trimmed, splits at newlines into its number, time line and text, and contains no blank line |
| SrtRoundTrip.ReadCueReadsBack | set_sub.py:81-95 | the time fields and text of a written block read back as the expected cue |
| SrtRoundTrip.BlockReadsBack | set_sub.py:74-95 | every written block reads back as its expected cue, and the blank-line split keeps it whole |
| SrtRoundTrip.BodiesReadBack | set_sub.py:74-97 | the written blocks read back, in order, as the expected cues |
| SrtRoundTrip.TrackSplitsIntoBodies | set_sub.py:72 | stripping a written track and splitting it at blank lines gives back its block bodies |
| SrtRoundTrip.TrackRoundTrip | main.py:24-32 | `parse_srt_file` content-parsing of `create_srt(segments)` gives one cue per segment, in order, with the whole-second times and the stripped text |
| SrtRoundTrip.GeneratedTrackRoundTrip | script.py:126-132 | the same holds for the track that `generate_subtitle` writes |
| Overlay.EscapeAppend | set_sub.py:107-108 | escaping distributes over concatenation |
| Overlay.EscapeChainedAppend | set_sub.py:107-108 | the four chained `replace` calls distribute over concatenation |
| Overlay.EscapeChainedChar | set_sub.py:107-108 | on a single character, the chained replaces prefix a backslash exactly to `'`, `:`, `[` and `]` |
| Overlay.ChainedIsPerCharacter | set_sub.py:107-108 | the four chained `replace` calls escape each character independently; no replacement interferes with an earlier one |
| Overlay.EscapeLength | set_sub.py:107-108 | escaping adds exactly one character per special character |
| Overlay.EscapeGuardsSpecials | set_sub.py:107-108 | in escaped text, every special character is preceded by a backslash |
| Overlay.EscapeRoundTrip | set_sub.py:107-108 | removing the added backslashes gives back the original text, so escaping loses nothing |
| Overlay.EscapeIdentity | set_sub.py:107-108 | escaping leaves text unchanged if and only if it contains no special character |
| Overlay.Captions | set_sub.py:105-110 | there is one caption per cue, in order, each with the cue's text and times |
| Overlay.DrawtextFilter | set_sub.py:99-121 | the filter is `null` if and only if there are no cues |
| Overlay.CreateDrawtextFilter | set_sub.py:99-121 | the two loops of `create_drawtext_filter` compute the reference chain: `null`, or the boxed caption filters joined by commas |
| Overlay.RenderEach | set_sub.py:104-111 | the first loop builds one boxed filter per cue, in cue order |
| Overlay.JoinFilters | set_sub.py:113-121 | the second loop, which starts from `filters[0]` and adds `,filter` for each later one, is `','.join` |
| Overlay.BoxedPart | set_sub.py:110 | part `k` of the chain is a box followed by cue `k`'s escaped text and an enable window on cue `k`'s own times |
| Overlay.RenderDeterminesText | set_sub.py:110 | two captions with the same style and times whose filters are equal have the same text |
| Overlay.ChainAppend | set_sub.py:201 | the chain of two caption lists is the two chains joined by one comma |
| Overlay.DrawtextFilterAppend | set_sub.py:113-121 | the filter for two non-empty cue lists is their filters joined by one comma |
| Render.BatchesCover | set_sub.py:189-190 | the batches, laid end to end, are exactly the cue list |
| Render.BatchesCount | set_sub.py:221 | there are `(n + 9) // 10` batches |
| Render.BatchesAreSlices | set_sub.py:189-190 | batch `k` is `subtitles[10k:10k+10]` |
| Render.BatchSizes | set_sub.py:186-190 | every batch holds between 1 and 10 cues, and all but the last hold exactly 10 |
| Render.BatchFilters | set_sub.py:194-201 | there is one filter per batch, in order |
| Render.BatchFiltersCoverCues | set_sub.py:194-201 | the batch filters, joined by commas, are the plain chain of all cues: batching neither drops nor repeats a cue |
| Render.BatchLoopSteps | set_sub.py:187-220 | run `t` of the loop renders batch `t` from the previous batch's output (the copied input for the first) into `batch_{10t}.mp4` |
| Render.BatchLoopStops | set_sub.py:214-220 | every run but the last succeeded; the loop succeeds if and only if every batch ran and succeeded; a failure ends the loop |
| Render.BatchLoopLast | set_sub.py:220-224 | a successful loop hands on the last batch's output, or its input when there was no batch |
| Render.NoCuesNoEngine | set_sub.py:127-132 | nothing is copied or run if and only if the parse failed or found no cues, and in that case the result is `False` |
| Render.PrimarySuccess | set_sub.py:134-164 | when the single pass succeeds, the result is `True`: the engine ran once with the whole boxed chain, and its output was copied to the output path |
| Render.FallbackDecides | set_sub.py:165-168 | when the single pass fails, the boolean returned is the batch fallback's on the same cues, and the steps are the copy and the failed run followed by exactly the fallback's steps |
| Render.MergeBatchSucceedsIff | set_sub.py:174-225 | the fallback returns `True` if and only if every batch's run succeeds; it then ends by copying the last batch's output to the output path |
| Render.MergeBatchChain | set_sub.py:183-220 | the fallback copies the video in, then step `1 + t` renders batch `t` from the previous batch's output; there is at most one run per batch |
| Render.MergeBatchStops | set_sub.py:214-218 | every fallback run but the last succeeded, and a failed fallback ends with a failed run |
| Pairing.LastDot | set_sub.py:22 | the last dot of a name, with no dot after it; none only when the name has no dot |
| Pairing.SplitExt | set_sub.py:22 | `splitext` splits a name into a stem and an extension that concatenate back to the name |
| Pairing.SplitExtShape | set_sub.py:22 | an extension is a dot followed by no further dot, after a stem that is not all dots; a name without an extension has dots only in its leading run |
| Pairing.SplitExtOfJoin | set_sub.py:264-266 | `splitext` of a stem followed by a dot-extension gives back the stem and the extension |
| Pairing.Lower | set_sub.py:22 | lower-casing maps each character on its own and keeps the length |
| Pairing.NamesMembership | set_sub.py:19-26 | a name is collected if and only if some regular file of that name has an extension of the kind |
| Pairing.FirstMatch | set_sub.py:35-39 | the subtitle found is the first one in listing order with the video's stem; none is found only when no subtitle has that stem |
| Pairing.PairOf | set_sub.py:30-42 | a video is paired if and only if some subtitle in the list has the same stem; it is then paired with a subtitle of that stem that no earlier subtitle of that stem precedes |
| Pairing.PairOrigins | set_sub.py:29-44 | pair `j` is one video and its first same-stem subtitle; videos appear at most once, in listing order; every video with a same-stem subtitle appears |
| Pairing.PairsSound | set_sub.py:9-44 | every returned pair is a video file and a subtitle file of the listing, with equal stems, the subtitle being the first listed with that stem |
| Pairing.ReplaceEachPointwise | set_sub.py:235-236 | replacing each listed character by `_` in turn turns exactly those characters into `_` and leaves the rest |
| Pairing.SafeFilenamePointwise | set_sub.py:231-237 | `safe_filename` keeps the length, turns each unsafe character into `_`, and changes nothing else |
| Pairing.SafeFilenameSafe | set_sub.py:231-237 | `safe_filename` leaves no unsafe character |
| Pairing.SafeFilenameIdempotent | set_sub.py:231-237 | a name that is already safe is unchanged, so applying `safe_filename` twice changes nothing more |
| Pairing.OutputNameSafe | set_sub.py:264-266 | the output name that `main` builds contains no unsafe character |
| Pairing.OutputNameSplits | set_sub.py:264-266 | the output name splits back into the safe stem plus `_with_subtitle`, and `.mp4` |
| Pairing.SafeTitleAllowed | script.py:29 | the folder name holds only letters, digits, spaces, `-` and `_` |
| Pairing.SafeTitleKeeps | script.py:29 | the folder name is the title with exactly its disallowed characters removed: the rest keep their order, each allowed character occurs as often as in the title, a disallowed one not at all |
| Pairing.SafeTitleCounts | script.py:29 | each character occurs in the folder name as often as in the title if it is allowed, and never otherwise |
| Pairing.SafeTitleIdempotent | script.py:29 | filtering an allowed title changes nothing, so filtering twice changes nothing more |
| Pairing.AllowedUnchanged | script.py:29 | a title made only of allowed characters is kept as it is |

## Left out

- Decoding the subtitle file is not modelled (set_sub.py:56-69, the UTF-8, then GBK, then Latin-1 fallback). The model starts from the decoded content.
- Newline translation is not modelled: the program opens the subtitle file in text mode (set_sub.py:61-69), which turns `\r\n` and a lone `\r` into `\n` before parsing. The model parses the content as given, so a file with `\r\n` line ends reads differently in the model than in the program.
- The ffmpeg command is left out except for its filter argument. The codec, preset and overwrite flags are not modelled. Whether a run succeeds is the oracle script.
- The temporary directories, `shutil.copy2` and the files themselves are left out. Copies and engine runs appear only as recorded steps.
- I/O exceptions are not modelled. Python would raise them from copies, directory listing or the engine, and they are caught at set_sub.py:170-172 and 227-229. Only the parse errors that reach those handlers are modelled.
- Progress and error printing are left out.
- From `main` (set_sub.py:239-276), the input prompt, the removal of surrounding quotes, the directory check and the loop over pairs are left out. Only the output name (lines 264-266) is modelled.
- `os.path.join` and `os.path.basename` are left out: file names stand for the full paths. `os.path.isfile` is the `isFile` field of an entry. The listing order is the input's order.
- Python float arithmetic and float repr are left out. Times are exact reals, and the text a float prints as inside a filter is the parameter `show`.
- `int()` and `float()` are modelled for ASCII decimal literals with an optional sign and surrounding whitespace. Underscores, exponents, `inf` and `nan`, and non-ASCII digits are treated as errors.
- `str.lower` is modelled for ASCII letters only. Unicode case mapping is left out.
- `str.isalnum` is the parameter `isAlnum`, because its Unicode tables are left out.
- The rest of main.py and script.py (transcription, audio extraction, download, directory creation) and video_download.py are not part of this model.
- SrtRoundTrip.TrackRoundTrip: the round trip is stated only for segments whose stripped text is non-empty and contains no newline and no `<`. Other texts are re-split across lines or lose markup when read, and the model does not characterise what they read back as. A `\r` inside a text is allowed by the model, but in the program the text-mode read would turn it into a line break, so there the round trip also needs texts without `\r`.
- SrtRoundTrip.GeneratedTrackRoundTrip: the same restriction as TrackRoundTrip.
