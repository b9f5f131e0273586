# MarkerConverter: the marker extraction, in Dafny

MarkerConverter is a small Windows Forms tool that reads an EDL marker export
(with colours named `ResolveColor…`) and lists its markers as `[HH:MM:SS] text`
lines, optionally followed by ` - notes`, filtered by colour. This project
models its core, `MainForm.ConvertMarkers`, and proves what it does.

The export is a sequence of lines. The first three lines are headers. After
them, a record is a header line whose first non-blank character is a digit,
followed by a metadata line. The header line's fifth space-separated token is
a timecode `hh:mm:ss[:ff]`. The metadata line holds optional free-text notes,
then `|key:value` segments. `M` is the marker text and `C` is the colour
token, for example `ResolveColorRed`. The displayed hour is the timecode hour
less one.

Modules:

- `Wrappers`: `Option` and `Result`.
- `Text`: the .NET string and number operations the loop uses, written out:
  `Trim`, `Split` (with a count, and with `RemoveEmptyEntries`), `StartsWith`,
  `char.IsDigit`, `int.Parse` and the `D2` format.
- `Metadata`: splitting off the notes, the `key:value` pairs, and the
  `ToDictionary` step that refuses a repeated key.
- `ColorFilter`: the 17 labels of the filter box and the `switch` that decides
  whether a colour is listed.
- `MarkerConverter`: one record (`ParseRecord`), one candidate line (`Step`),
  and the whole file (`Convert`) as a fold over the candidates' outcomes.
  - `ConvertOne`, one pass of the loop body, is proved to extend the fold by
    the outcome of its line.
  - The imperative loop `ConvertMarkers` is proved equal to `Convert`.
  - The `Next…` lemmas tie each branch of the loop body to that line's
    outcome.
- `ConversionLaws`: what a conversion promises as a whole:
  - when it fails, and with which error;
  - which lines it lists and in what order;
  - what the filter and the notes option change;
  - which lines it never looks at.
- `RecordLaws`: what one record produces: its time column, its listed line,
  and the records that list nothing or end the run. Header tokens may be
  spaced in any way. The metadata line, its segments, keys and values may
  carry whitespace around them.
- `Scenarios`: an example record (`05:10:20`, marker `T`, colour red, note
  `n`) converted under several options, and the first-hour and rejected-hour
  cases.

How the model treats the code's behaviour:

- **The two exceptions.** `int.Parse` on the hour and `ToDictionary` on a
  repeated key both throw inside the loop. The click handler catches the
  exception and shows an error instead of the list. The model therefore
  returns `Failure(InvalidHour(..))` or `Failure(DuplicateKey(..))` for the
  whole conversion.
- **Duplicate keys.** `ToDictionary` throws on a repeated key, so the whole
  run fails. No later value replaces an earlier one.
- **The `" |"` notes guard.** The guard is tested on the already trimmed
  line `lines[i + 1].Trim()`. A trimmed line never starts with a space, so
  under a character-by-character comparison the guard never applies
  (`Metadata.NotesGuardInert`). A metadata line such as ` |M:a|C:b` is
  trimmed to `|M:a|C:b`, whose notes are empty, so nothing is appended
  (`RecordLaws.PipeLedLineHasNoNotes`).
- **Hours.** The hour is a C# `int`:
  - `int.Parse` accepts a sign and whitespace around the number.
  - It rejects text that is not a number, and numbers outside the 32-bit
    range.
  - `hour - 1` is computed modulo 2^32, so `int.MinValue` wraps to
    `int.MaxValue`.
  - `D2` pads the magnitude to two digits after any `-`, so hour `00` shows
    as `-01`.
- **The filter.** The filter is the selected label's text. A label the box
  does not offer lists nothing.

## Model

| member | source | states |
|---|---|---|
| Text.AllWhite | MainForm.cs:148 | `string.IsNullOrWhiteSpace`: every character is white space; RecordLaws.BlankLineSkipped and MarkerConverter.NextNonHeader give it its effect, and Text.Trim yields the empty line exactly for such lines |
| Text.Trim | MainForm.cs:145 | the result has no whitespace at either end, and it is empty exactly when the line is blank |
| Text.TrimTrimmed | MainForm.cs:157 | trimming an already trimmed line changes nothing (Trim is idempotent) |
| Text.TrimPadded | MainForm.cs:145 | trimming recovers any trimmed text from the whitespace around it |
| Text.TrimKeepsOut | MainForm.cs:157 | trimming never introduces a character |
| Text.TrimFirstChar | MainForm.cs:154 | the first character of a trimmed line is its first non-whitespace character |
| Text.StartsWith | MainForm.cs:163 | the prefix test of the notes guard, compared character by character; Metadata.NotesGuardInert and Metadata.NotesBeforeFirstPipe state what it decides |
| Text.SplitFirst | MainForm.cs:165 | `Split('\|', 2)`: no part exactly when the separator is absent; otherwise the text before the first separator, which holds none, and the rest, which rebuild the line |
| Text.SplitFirstUnique | MainForm.cs:165 | a line is split at its first separator, whatever follows it |
| Text.SplitAll | MainForm.cs:177 | `Split(':')` yields at least one part, and no part contains the separator |
| Text.JoinSplitAll | MainForm.cs:177 | joining the parts with the separator gives back the line (no text is lost) |
| Text.SplitAllJoin | MainForm.cs:177 | splitting separator-free parts joined by the separator gives back exactly those parts |
| Text.SplitAllCons | MainForm.cs:177 | splitting peels off the text before the first separator |
| Text.RemoveEmpty | MainForm.cs:174 | `RemoveEmptyEntries` keeps only non-empty parts of the input and never adds one |
| Text.SplitRemoveEmpty | MainForm.cs:174 | every token is non-empty and free of the separator |
| Text.SplitRemoveEmptyJoin | MainForm.cs:174 | non-empty tokens joined by one space split back into the same tokens |
| Text.SplitRemoveEmptyCollapse | MainForm.cs:174 | a run of two spaces separates tokens exactly like one space |
| Text.IsDigit | MainForm.cs:154 | `char.IsDigit` on ASCII digits; RecordLaws.NonDigitLineSkipped and MarkerConverter.NextNonHeader state that a line led by anything else contributes nothing |
| Text.ParseInt | MainForm.cs:181 | `int.Parse`: a value is always within the `int` range and comes from text that, trimmed, is an optional sign and at least one digit; blank text is rejected |
| Text.ParseIntDigits | MainForm.cs:181 | a digit string reads as its decimal value, and as a rejection when that value exceeds `int.MaxValue` |
| Text.ParseIntUnsigned | MainForm.cs:181 | digits with any whitespace around them read as their decimal value, or are rejected beyond `int.MaxValue` |
| Text.ParseIntSigned | MainForm.cs:181 | `+` or `-` then digits, with any whitespace around them, read as the signed value, or are rejected outside the `int` range |
| Text.FormatD2 | MainForm.cs:184 | `{hour:D2}`: a leading `-` exactly for negative hours, then digits; exactly two digits for 0..99 and three characters for -99..-1; no leading zero from 10 up, nor after the `-` from -10 down; Text.ParseFormatD2 pins the value |
| Text.ParseNegativeD2 | MainForm.cs:181-184 | `int.Parse` reads back every negative `int` that `D2` writes |
| Text.ParseFormatD2 | MainForm.cs:181-184 | `int.Parse` reads back every `int` that `D2` writes |
| Metadata.SplitNotes | MainForm.cs:159-171 | notes exist exactly when the line has a `\|` and does not start with `" \|"`; notes are trimmed and the metadata then starts with `\|`; without notes the metadata is the whole line |
| Metadata.NotesGuardInert | MainForm.cs:157-163 | the `" \|"` guard never applies to the trimmed line it is tested on |
| Metadata.NotesBeforeFirstPipe | MainForm.cs:159-171 | on a trimmed line, the notes are the trimmed text before the first `\|`, and the metadata is `\|` plus the rest |
| Metadata.PairsOfClean | MainForm.cs:187-190 | the pairs of pipe-free segments have trimmed keys and values, no `\|` in either and no `:` in the key |
| Metadata.SegmentPair | MainForm.cs:189-191 | a segment's key and value are trimmed |
| Metadata.SegmentPairOf | MainForm.cs:189-191 | a segment `k:v` whose `k` holds no `:` gives the pair of trimmed `k` and trimmed `v`, whatever whitespace pads the segment, the key or the value; the value may hold further `:` |
| Metadata.SegmentPairPadded | MainForm.cs:189-191 | a trimmed key and value with any whitespace around each and around the `:` give back exactly that key and value |
| Metadata.SegmentPairsOf | MainForm.cs:188-191 | a non-empty segment `k:v` yields exactly the one pair (trimmed `k`, trimmed `v`) |
| Metadata.SegmentWithoutColon | MainForm.cs:189-190 | a segment without `:` yields no pair |
| Metadata.SegmentPairs | MainForm.cs:188-190 | the non-empty and `parts.Length == 2` filters around one segment; Metadata.SegmentPairsOf and Metadata.SegmentWithoutColon state what it yields |
| Metadata.PairsOf | MainForm.cs:187-190 | each segment yields at most one pair, so there are never more pairs than segments |
| Metadata.MetaPairs | MainForm.cs:187-190 | the Split/Where/Select/Where pipeline; Metadata.MetaPairsCons, Metadata.MetaSkipsLeadingPipe, Metadata.MetaPairsOfSegments and Metadata.MetaRoundTrip state which pairs it yields and in what order |
| Metadata.MetaPairsClean | MainForm.cs:187-191 | every pair of any metadata line has a trimmed, colon-free and pipe-free key and a trimmed, pipe-free value |
| Metadata.ToDictionary | MainForm.cs:191 | `ToDictionary`, adding pairs in order and throwing on a repeated key; Metadata.ToDictionaryCorrect states exactly when it succeeds, what it holds and which key it names |
| Metadata.ToDictionaryCorrect | MainForm.cs:191 | `ToDictionary` succeeds exactly when no key repeats; it then holds exactly the keys of the pairs, each with its value; a failure names a key that occurs twice |
| Metadata.ToDictionaryBuilt | MainForm.cs:191 | a built dictionary has distinct keys, the pairs' key set, and every pair's value |
| Metadata.ToDictionaryRepeated | MainForm.cs:191 | a failed dictionary names a key found at two positions |
| Metadata.ParseMeta | MainForm.cs:187-191 | the dictionary of a metadata line; RecordLaws.MetadataParses, RecordLaws.RecordDuplicateKey and Metadata.NoPipeLacksMarkerOrColor state what it holds or which key it refuses |
| Metadata.MetaPairsCons | MainForm.cs:187-190 | a pipe-free segment contributes its pair ahead of the pairs of the rest of the line |
| Metadata.MetaSkipsLeadingPipe | MainForm.cs:169 | the `\|` put back in front of the metadata adds no pair |
| Metadata.MetaPairsOfSegments | MainForm.cs:187-190 | `\|` followed by pipe-free segments joined by `\|` yields the pairs of those segments, in order |
| Metadata.NoPipeAtMostOnePair | MainForm.cs:187-190 | a line without `\|` yields at most one pair |
| Metadata.NoPipeLacksMarkerOrColor | MainForm.cs:193-194 | a line without `\|` never holds both `M` and `C` |
| Metadata.SegmentPairOfRendered | MainForm.cs:189-191 | a clean `key:value` segment parses back to its pair |
| Metadata.MetaPairsRendered | MainForm.cs:187-191 | a segment followed by rendered pairs parses as that segment's pair, then those pairs |
| Metadata.MetaRoundTrip | MainForm.cs:186-191 | parsing the `\|key:value` line an export writes gives back its pairs, in order |
| ColorFilter.ColorPasses | MainForm.cs:196-216 | the filter switch; ColorFilter.OnlyLabelPassesItsToken, ColorFilter.AllColorsPassesEvery and ColorFilter.UnknownLabelPassesNothing state what each label passes |
| ColorFilter.FilterLabelsListColors | MainForm.cs:28-46 | the box offers "All Colors" first, then "<X> Only" for each of the 16 colours in order |
| ColorFilter.AllColorsPassesEvery | MainForm.cs:198 | "All Colors" passes every colour |
| ColorFilter.LabelOfColor | MainForm.cs:29-45 | label k+1 is colour k followed by " Only" |
| ColorFilter.OnlyLabelPassesItsToken | MainForm.cs:199-214 | each "<X> Only" passes a colour exactly when it is "ResolveColor<X>" |
| ColorFilter.BlueToYellowTokens | MainForm.cs:199-202 | the same, for Blue to Yellow |
| ColorFilter.RedToFuchsiaTokens | MainForm.cs:203-206 | the same, for Red to Fuchsia |
| ColorFilter.RoseToMintTokens | MainForm.cs:207-210 | the same, for Rose to Mint |
| ColorFilter.LemonToCreamTokens | MainForm.cs:211-214 | the same, for Lemon to Cream |
| ColorFilter.UnknownLabelPassesNothing | MainForm.cs:215 | a label not in the box passes no colour |
| ColorFilter.SpecificLabelPassesOneToken | MainForm.cs:196-216 | every label but "All Colors" passes at most one colour token |
| MarkerConverter.AdjustTimecode | MainForm.cs:177-184 | the time column of a timecode; RecordLaws.TimecodeFields states it is `D2(hour - 1):mm:ss` or the hour error, and RecordLaws.TimecodeTooFewFields that fewer than three fields give none |
| MarkerConverter.PreviousHour | MainForm.cs:181 | `hour - 1` on a C# `int`: the result is an `int` equal to `hour - 1` modulo 2^32 |
| MarkerConverter.PreviousHourUnique | MainForm.cs:181 | that result is the only `int` equal to `hour - 1` modulo 2^32, so the smallest `int` wraps to the largest |
| MarkerConverter.ParseRecord | MainForm.cs:157-194 | one record read from its header and metadata lines; RecordLaws.RecordWithMarker, RecordLaws.RecordWithoutMarker, RecordLaws.RecordDuplicateKey, RecordLaws.RecordInvalidHour and RecordLaws.RecordShortHeader state its result |
| MarkerConverter.Render | MainForm.cs:220-224 | the display line; ConversionLaws.RenderWithNotes and ConversionLaws.NotesOnlyExtend state what the notes option adds |
| MarkerConverter.Step | MainForm.cs:145-226 | what one candidate line contributes; RecordLaws.RecordLine, RecordLaws.BlankLineSkipped, RecordLaws.NonDigitLineSkipped and RecordLaws.NoPipeNoOutput state its result, and ConversionLaws.StepReadsTwoLines that it reads only two lines |
| MarkerConverter.StepOf | MainForm.cs:193-226 | a parsed record's contribution; ConversionLaws.StepFailureIgnoresOptions and ConversionLaws.AllColorsEmitsMore state, through `Step`, how the filter and the notes option affect it |
| MarkerConverter.HeaderTime | MainForm.cs:174-184 | the time column of a header line, or none, or the hour error; MarkerConverter.NextWithoutTime, MarkerConverter.NextWithBadHour and RecordLaws.HeaderParses state its effect |
| MarkerConverter.Outcomes | MainForm.cs:143 | there is one outcome per candidate line, 3 to `lines.Length - 2` |
| MarkerConverter.Collect | MainForm.cs:143-231 | a successful run lists at most one line per outcome |
| MarkerConverter.Convert | MainForm.cs:137-232 | a file of fewer than five lines lists nothing; otherwise at most `lines.Length - 4` lines |
| MarkerConverter.OutcomeAt | MainForm.cs:143 | outcome k is the outcome of line k+3 |
| MarkerConverter.OutcomeOfLine | MainForm.cs:143 | the outcome of line j sits at position j-3 |
| MarkerConverter.OutcomesSnoc | MainForm.cs:143 | one more iteration appends the outcome of its line |
| MarkerConverter.OutcomesPrefix | MainForm.cs:143 | earlier iterations' outcomes are a prefix of later ones' |
| MarkerConverter.CollectSnoc | MainForm.cs:218-225 | collecting one more outcome keeps an earlier failure, otherwise it fails, skips or appends the display line |
| MarkerConverter.CollectFailurePersists | MainForm.cs:181 | once a failure is collected, later outcomes are never looked at |
| MarkerConverter.FailureEndsConversion | MainForm.cs:181-191 | once the candidates so far fail, the whole conversion fails with that error |
| MarkerConverter.CollectFailsAt | MainForm.cs:181-191 | the first failing outcome decides the result |
| MarkerConverter.CollectNext | MainForm.cs:143-226 | after the candidates so far succeed, one more candidate fails the fold and the whole conversion with its error, skips, or appends its display line |
| MarkerConverter.NextNonHeader | MainForm.cs:145-154 | a blank line or one whose first non-blank character is not a digit leaves the listed lines as they are |
| MarkerConverter.NextWithoutTime | MainForm.cs:174-178 | a header with fewer than five tokens, or whose fifth token has fewer than three `:`-fields, leaves the listed lines as they are |
| MarkerConverter.NextWithBadHour | MainForm.cs:181 | a header whose hour `int.Parse` rejects fails the fold and the whole conversion with that error |
| MarkerConverter.NextWithDuplicateKey | MainForm.cs:187-191 | a header with a time whose metadata repeats a key fails the fold and the whole conversion, naming the key |
| MarkerConverter.NextWithMarker | MainForm.cs:193-225 | a header with a time whose metadata holds `M` and a `C` the filter passes appends the display line of its marker |
| MarkerConverter.NextUnlisted | MainForm.cs:193-218 | a header with a time whose metadata lacks `M` or `C`, or whose colour the filter rejects, leaves the listed lines as they are |
| MarkerConverter.ConvertOne | MainForm.cs:145-226 | one pass of the loop body, starting from the lines listed for the earlier candidates, returns the fold extended by its line: the lines listed so far, or the first error |
| MarkerConverter.ConvertMarkers | MainForm.cs:137-232 | the loop returns exactly `Convert`: the display lines in order, or the first error |
| ConversionLaws.CollectSucceedsIff | MainForm.cs:143-231 | collecting succeeds exactly when no outcome fails |
| ConversionLaws.EmittedAtExact | MainForm.cs:225 | emitting positions are increasing and are exactly those whose outcome carries a line |
| ConversionLaws.CollectListsEmitted | MainForm.cs:225 | a successful collection lists, one for one and in order, the lines of the emitting outcomes |
| ConversionLaws.CollectSameFailures | MainForm.cs:181-191 | outcome sequences that fail at the same places with the same errors collect to the same failure |
| ConversionLaws.CollectPrefix | MainForm.cs:225 | what a prefix of the outcomes lists is a prefix of what the whole lists |
| ConversionLaws.ConvertSuccessLines | MainForm.cs:143-191 | a successful conversion had no failing candidate |
| ConversionLaws.ConvertFailureLine | MainForm.cs:143-191 | a failed conversion had a failing candidate |
| ConversionLaws.ConvertSucceedsIff | MainForm.cs:143-191 | the conversion succeeds exactly when no candidate line fails |
| ConversionLaws.ConvertFailsAtFirstFailure | MainForm.cs:181-191 | the error of a failed conversion is that of the first failing candidate |
| ConversionLaws.StepFailureIgnoresOptions | MainForm.cs:181-196 | whether a candidate fails, and how, depends on neither the filter nor the notes option |
| ConversionLaws.ConvertFailureIgnoresOptions | MainForm.cs:181-196 | a conversion that fails under some options fails with the same error under every other |
| ConversionLaws.EmittingLinesExact | MainForm.cs:143-225 | the emitting line numbers are increasing and are exactly the candidates that produce a display line |
| ConversionLaws.EmittingLine | MainForm.cs:143-225 | one line number is emitting exactly when that candidate produces a display line |
| ConversionLaws.ConvertListsEmitters | MainForm.cs:225 | a successful conversion lists exactly one display line per emitting candidate, in file order |
| ConversionLaws.ListedLine | MainForm.cs:225 | output line t is the display line of the t-th emitting candidate |
| ConversionLaws.AllColorsEmitsMore | MainForm.cs:198 | a record listed under any label is listed under "All Colors" |
| ConversionLaws.AllColorsListsEverySelection | MainForm.cs:198 | every line number listed under any filter is listed under "All Colors" |
| ConversionLaws.NotesOnlyExtend | MainForm.cs:218-224 | the notes option lists the same candidates; each line with notes is the line without them, possibly followed by " - " and more |
| ConversionLaws.RenderWithNotes | MainForm.cs:220-224 | the display line with notes is the plain line, or the plain line followed by " - " and the notes |
| ConversionLaws.StepReadsTwoLines | MainForm.cs:145-157 | a candidate depends only on its own line and the next one |
| ConversionLaws.HeaderLinesIgnored | MainForm.cs:142-143 | the first three lines never affect the result |
| ConversionLaws.OutcomesIgnoreAppended | MainForm.cs:143 | appending a line changes no earlier candidate's outcome |
| ConversionLaws.AppendedLineAddsAtMostOne | MainForm.cs:143 | appending a line keeps the earlier list as a prefix and adds at most one line |
| RecordLaws.MinuteSecondSplits | MainForm.cs:177 | the `:`-fields of `mm:ss[:…]` start with mm and ss |
| RecordLaws.TimecodeSplits | MainForm.cs:177 | the `:`-fields of `hh:mm:ss[:ff]` start with hh, mm and ss |
| RecordLaws.TimecodeFields | MainForm.cs:177-184 | the time column is `D2(hour - 1):mm:ss` with frames dropped, or the hour error when the hour is rejected |
| RecordLaws.TimecodeTooFewFields | MainForm.cs:178 | a timecode with fewer than three fields lists nothing |
| RecordLaws.AdjustTimecodeShiftsHour | MainForm.cs:181-184 | an hour written by `D2` is read back and shown one lower |
| RecordLaws.HeaderParses | MainForm.cs:174-184 | a header whose fifth token is `hh:mm:ss[:ff]`, however its tokens are spaced, gives the time column `D2(hour - 1):mm:ss`, or the hour error when the hour is rejected |
| RecordLaws.MetadataParses | MainForm.cs:159-191 | the notes are the trimmed text before the first `\|`, and the metadata gives back the pairs of the segments, in order |
| RecordLaws.RecordWithMarker | MainForm.cs:173-194 | a record, with any token spacing and padded segments, whose distinct keys include `M` and `C` is a marker with its time column, text, colour and trimmed notes |
| RecordLaws.RecordWithoutMarker | MainForm.cs:193-194 | a record with distinct keys that lacks `M` or `C` lists nothing |
| RecordLaws.RecordDuplicateKey | MainForm.cs:187-191 | a record that repeats a key ends the run, naming a key that occurs twice among its pairs |
| RecordLaws.RecordInvalidHour | MainForm.cs:181 | a rejected hour ends the run, whatever the metadata line holds |
| RecordLaws.RecordShortHeader | MainForm.cs:175 | a header of fewer than five tokens lists nothing |
| RecordLaws.BlankLineSkipped | MainForm.cs:148-151 | a blank line contributes nothing |
| RecordLaws.NonDigitLineSkipped | MainForm.cs:154 | a line whose first non-blank character is not a digit contributes nothing |
| RecordLaws.NoPipeNoOutput | MainForm.cs:157-194 | a line followed by a line without `\|` never lists anything |
| RecordLaws.PipeLedLineHasNoNotes | MainForm.cs:157-224 | a metadata line whose first non-blank character is `\|` (such as ` \|M:a\|C:b`) has empty notes, so the notes option changes nothing |
| RecordLaws.RecordLine | MainForm.cs:145-226 | a record whose two lines carry any surrounding whitespace, whose header tokens are spaced in any way and whose segments, keys and values are padded lists `[D2(hour - 1):mm:ss] text`, plus ` - notes` when notes are asked for and non-empty, exactly when the filter passes its colour |
| Scenarios.ExampleRecord | MainForm.cs:145-226 | the example record lists `[04:10:20] T - n` with notes, `[04:10:20] T` without, and nothing when the filter rejects red |
| Scenarios.ExampleNotesLine | MainForm.cs:154 | the example's metadata line, which starts with a letter, is not a candidate |
| Scenarios.ExampleOutcome | MainForm.cs:137-232 | a six-line file holding the example record converts to that record's line, or to nothing when filtered out |
| Scenarios.ExampleConversion | MainForm.cs:137-232 | "Red Only" with notes lists `[04:10:20] T - n`; without notes `[04:10:20] T`; "Blue Only" lists nothing; "All Colors" lists like "Red Only" |
| Scenarios.ZeroHour | MainForm.cs:181-184 | hour `00` reads as 0 and is shown as `-01` |
| Scenarios.RejectedHours | MainForm.cs:181 | `int.Parse` rejects `1a` and 2147483648 |
| Scenarios.BadHour | MainForm.cs:181 | a timecode with hour `1a` is the error that ends the run |

## Left out

- The form itself is not modelled: the window, the buttons, the file dialog, the filter box and the check box (MainForm.cs:8-135). The selected filter label and the check box state are parameters of the conversion.
- The click handler's display step is not modelled. It joins the lines with newlines, or shows the exception message in a dialog (MainForm.cs:116-135). The model returns the list of lines or the error instead.
- Reading the file is not modelled (`File.ReadAllLines`, MainForm.cs:140). The model starts from the sequence of lines. Line-ending handling and file errors are outside it.
- Text.Trim: removes only U+0009 to U+000D and U+0020 (`Text.IsWhite`). This is exactly the white space `int.Parse` allows around a number, but .NET's `Trim` also removes other Unicode white space such as U+0085, U+00A0 and U+2000 to U+200A.
- Text.IsDigit: accepts only ASCII digits. .NET's `char.IsDigit` also accepts other Unicode decimal digits.
- Text.ParseInt: ignores the current culture's sign symbols and accepts only ASCII `-` and `+`.
- Text.ParseInt: .NET's `int.Parse` also accepts trailing NUL characters (U+0000) after the number. The model rejects them.
- Text.FormatD2: ignores the current culture's negative sign and always writes `-`.
- The exceptions are modelled as two error values. The exception types and their messages are not.
- The `null` notes of the source are `None`. Since only non-empty notes are ever shown, `None` and an empty note list the same line.
- Metadata.NotesGuardInert: the model's `StartsWith` compares character by character. .NET's `StartsWith(string)` compares under the current culture, which skips ignorable characters such as the soft hyphen U+00AD. On a trimmed line that starts with U+00AD followed by ` |`, the real guard applies and the line gets no notes. The model gives it notes.
