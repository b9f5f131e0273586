/**
 * What happens to one record: the time column, the listed line of a
 * well-formed export record, and the records that list nothing or end the
 * conversion.
 */
module RecordLaws {
  import opened Wrappers
  import opened Text
  import opened Metadata
  import opened ColorFilter
  import opened MarkerConverter

  // ---------------------------------------------------------------------------
  // The time column
  // ---------------------------------------------------------------------------

  /** The ':'-fields of "mm:ss" followed by nothing or by further ':'-fields start with mm, ss. */
  lemma MinuteSecondSplits(mm: string, ss: string, rest: string)
    requires ':' !in mm && ':' !in ss
    requires rest == "" || rest[0] == ':'
    ensures |SplitAll(mm + [':'] + (ss + rest), ':')| >= 2
    ensures SplitAll(mm + [':'] + (ss + rest), ':')[0] == mm
    ensures SplitAll(mm + [':'] + (ss + rest), ':')[1] == ss
  {
    if rest == "" {
      assert ss + rest == ss;
      SplitAllNoSeparator(ss, ':');
    } else {
      assert ss + rest == ss + [':'] + rest[1..];
      SplitAllCons(ss, rest[1..], ':');
    }
    SplitAllCons(mm, ss + rest, ':');
  }

  /** The ':'-fields of "hh:mm:ss" followed by nothing or by further ':'-fields start with hh, mm, ss. */
  lemma TimecodeSplits(hh: string, mm: string, ss: string, rest: string)
    requires ':' !in hh && ':' !in mm && ':' !in ss
    requires rest == "" || rest[0] == ':'
    ensures |SplitAll(hh + ":" + mm + ":" + ss + rest, ':')| >= 3
    ensures SplitAll(hh + ":" + mm + ":" + ss + rest, ':')[0] == hh
    ensures SplitAll(hh + ":" + mm + ":" + ss + rest, ':')[1] == mm
    ensures SplitAll(hh + ":" + mm + ":" + ss + rest, ':')[2] == ss
  {
    var tail := mm + [':'] + (ss + rest);
    MinuteSecondSplits(mm, ss, rest);
    assert hh + ":" + mm + ":" + ss + rest == hh + [':'] + tail;
    SplitAllCons(hh, tail, ':');
  }

  /**
   * The time column of "hh:mm:ss[:ff…]": the hour less one in `D2` format,
   * then the minutes and seconds as written; frames are dropped. An hour
   * that is not a number is the error that ends the conversion.
   */
  lemma TimecodeFields(hh: string, mm: string, ss: string, rest: string)
    requires ':' !in hh && ':' !in mm && ':' !in ss
    requires rest == "" || rest[0] == ':'
    ensures AdjustTimecode(hh + ":" + mm + ":" + ss + rest) ==
              match ParseInt(hh)
              case None => Failure(InvalidHour(hh))
              case Some(h) => Success(Some(FormatD2(PreviousHour(h)) + ":" + mm + ":" + ss))
  {
    var fields := SplitAll(hh + ":" + mm + ":" + ss + rest, ':');
    TimecodeSplits(hh, mm, ss, rest);
  }

  /** A timecode with fewer than two ':' has no time column: the record lists nothing. */
  lemma TimecodeTooFewFields(a: string, b: string)
    requires ':' !in a && ':' !in b
    ensures AdjustTimecode(a) == Success(None)
    ensures AdjustTimecode(a + ":" + b) == Success(None)
  {
    SplitAllNoSeparator(a, ':');
    SplitAllCons(a, b, ':');
    SplitAllNoSeparator(b, ':');
    assert a + ":" + b == a + [':'] + b;
  }

  /** Shifting is exact: an hour written by `D2` is read back and lowered by one, for every `int` hour above the smallest. */
  lemma AdjustTimecodeShiftsHour(h: int, mm: string, ss: string)
    requires IntMin < h <= IntMax
    requires ':' !in mm && ':' !in ss
    ensures AdjustTimecode(FormatD2(h) + ":" + mm + ":" + ss) == Success(Some(FormatD2(h - 1) + ":" + mm + ":" + ss))
  {
    var hh := FormatD2(h);
    assert ':' !in hh by {
      if h < 0 {
        assert forall k :: 1 <= k < |hh| ==> hh[1..][k - 1] == hh[k];
      }
    }
    ParseFormatD2(h);
    TimecodeFields(hh, mm, ss, "");
    assert hh + ":" + mm + ":" + ss + "" == hh + ":" + mm + ":" + ss;
  }

  // ---------------------------------------------------------------------------
  // Records
  // ---------------------------------------------------------------------------

  /**
   * The tokens of a header line: at least five, the fifth of which is a
   * timecode "hh:mm:ss", possibly followed by frames.
   */
  predicate HeaderTokens(tokens: seq<string>, hh: string, mm: string, ss: string, rest: string)
  {
    && |tokens| >= 5
    && tokens[4] == hh + ":" + mm + ":" + ss + rest
    && ':' !in hh && ':' !in mm && ':' !in ss
    && (rest == "" || rest[0] == ':')
  }

  /** The notes before the first '|' of a metadata line and the segments between the '|'s after it. */
  predicate MetadataSegments(note: string, segs: seq<string>)
  {
    && '|' !in note
    && |segs| >= 1
    && (forall k :: 0 <= k < |segs| ==> '|' !in segs[k])
  }

  /** A metadata line with a '|' that the " |" guard lets through: notes, then '|'-separated segments. */
  predicate MetadataLine(next: string, note: string, segs: seq<string>)
  {
    && next == note + "|" + Join(segs, '|')
    && MetadataSegments(note, segs)
    && !StartsWith(next, " |")
  }

  /** The time column a header line's timecode gives when its hour is a number. */
  function TimeColumn(hh: string, mm: string, ss: string): string
    requires ParseInt(hh).Some?
  {
    FormatD2(PreviousHour(ParseInt(hh).value)) + ":" + mm + ":" + ss
  }

  /** The header's timecode gives the time column, or the hour error. */
  lemma HeaderParses(tokens: seq<string>, hh: string, mm: string, ss: string, rest: string)
    requires HeaderTokens(tokens, hh, mm, ss, rest)
    ensures ParseInt(hh).None? ==> AdjustTimecode(tokens[4]) == Failure(InvalidHour(hh))
    ensures ParseInt(hh).Some? ==> AdjustTimecode(tokens[4]) == Success(Some(TimeColumn(hh, mm, ss)))
  {
    TimecodeFields(hh, mm, ss, rest);
  }

  /** The notes are the trimmed text before the first '|', and the metadata gives the pairs of the segments. */
  lemma MetadataParses(next: string, note: string, segs: seq<string>)
    requires MetadataLine(next, note, segs)
    ensures SplitNotes(next) == (Some(Trim(note)), "|" + Join(segs, '|'))
    ensures MetaPairs(SplitNotes(next).1) == PairsOf(segs)
  {
    NotesBeforeFirstPipe(note, Join(segs, '|'));
    MetaPairsOfSegments(segs);
  }

  /**
   * A record whose pairs have distinct keys among them "M" and "C" is a
   * marker: its time column, the "M" value, the "C" value and the trimmed
   * notes. The header may space its tokens in any way.
   */
  lemma RecordWithMarker(header: string, hh: string, mm: string, ss: string, rest: string,
                         next: string, note: string, segs: seq<string>, text: string, color: string)
    requires HeaderTokens(SplitRemoveEmpty(header, ' '), hh, mm, ss, rest) && ParseInt(hh).Some?
    requires MetadataLine(next, note, segs) && DistinctKeys(PairsOf(segs))
    requires ("M", text) in PairsOf(segs) && ("C", color) in PairsOf(segs)
    ensures ParseRecord(header, next) == Success(Some(Marker(TimeColumn(hh, mm, ss), text, color, Some(Trim(note)))))
  {
    HeaderParses(SplitRemoveEmpty(header, ' '), hh, mm, ss, rest);
    MetadataParses(next, note, segs);
    ToDictionaryCorrect(PairsOf(segs));
  }

  /** A record whose pairs have distinct keys but lack "M" or "C" lists nothing. */
  lemma RecordWithoutMarker(header: string, hh: string, mm: string, ss: string, rest: string,
                            next: string, note: string, segs: seq<string>)
    requires HeaderTokens(SplitRemoveEmpty(header, ' '), hh, mm, ss, rest) && ParseInt(hh).Some?
    requires MetadataLine(next, note, segs) && DistinctKeys(PairsOf(segs))
    requires "M" !in KeysOf(PairsOf(segs)) || "C" !in KeysOf(PairsOf(segs))
    ensures ParseRecord(header, next) == Success(None)
  {
    HeaderParses(SplitRemoveEmpty(header, ' '), hh, mm, ss, rest);
    MetadataParses(next, note, segs);
    ToDictionaryCorrect(PairsOf(segs));
  }

  /** A record that repeats a metadata key ends the conversion, naming a key that occurs twice. */
  lemma RecordDuplicateKey(header: string, hh: string, mm: string, ss: string, rest: string,
                           next: string, note: string, segs: seq<string>)
    requires HeaderTokens(SplitRemoveEmpty(header, ' '), hh, mm, ss, rest) && ParseInt(hh).Some?
    requires MetadataLine(next, note, segs) && !DistinctKeys(PairsOf(segs))
    ensures ParseRecord(header, next).Failure?
    ensures ParseRecord(header, next).error.DuplicateKey?
    ensures exists a, b :: 0 <= a < b < |PairsOf(segs)| &&
              PairsOf(segs)[a].0 == PairsOf(segs)[b].0 == ParseRecord(header, next).error.key
  {
    HeaderParses(SplitRemoveEmpty(header, ' '), hh, mm, ss, rest);
    MetadataParses(next, note, segs);
    ToDictionaryCorrect(PairsOf(segs));
  }

  /**
   * A record whose hour is not a number ends the conversion, whatever its
   * metadata line holds (even without "M" or "C").
   */
  lemma RecordInvalidHour(header: string, hh: string, mm: string, ss: string, rest: string, next: string)
    requires HeaderTokens(SplitRemoveEmpty(header, ' '), hh, mm, ss, rest) && ParseInt(hh).None?
    ensures ParseRecord(header, next) == Failure(InvalidHour(hh))
  {
    HeaderParses(SplitRemoveEmpty(header, ' '), hh, mm, ss, rest);
  }

  /** A header line of fewer than five tokens lists nothing, whatever follows it. */
  lemma RecordShortHeader(header: string, next: string)
    requires |SplitRemoveEmpty(header, ' ')| < 5
    ensures ParseRecord(header, next) == Success(None)
  {
  }

  // ---------------------------------------------------------------------------
  // Candidate lines
  // ---------------------------------------------------------------------------

  /** A blank or whitespace-only line contributes nothing. */
  lemma BlankLineSkipped(lines: seq<string>, i: int, filter: string, includeNotes: bool)
    requires 0 <= i < |lines| - 1 && AllWhite(lines[i])
    ensures Step(lines, i, filter, includeNotes) == Success(None)
  {
  }

  /** A line whose first non-whitespace character is not a digit contributes nothing. */
  lemma NonDigitLineSkipped(lines: seq<string>, i: int, lead: string, c: char, rest: string, filter: string, includeNotes: bool)
    requires 0 <= i < |lines| - 1
    requires lines[i] == lead + [c] + rest && AllWhite(lead) && !IsWhite(c) && !IsDigit(c)
    ensures Step(lines, i, filter, includeNotes) == Success(None)
  {
    TrimFirstChar(lead, c, rest);
  }

  /**
   * A line followed by a line without '|' never lists anything: without a
   * '|' the metadata is a single segment and cannot hold both "M" and "C".
   */
  lemma NoPipeNoOutput(lines: seq<string>, i: int, filter: string, includeNotes: bool)
    requires 0 <= i < |lines| - 1 && '|' !in lines[i + 1]
    ensures !Emits(lines, i, filter, includeNotes)
  {
    var next := Trim(lines[i + 1]);
    TrimKeepsOut(lines[i + 1], '|');
    if ParseMeta(next).Success? {
      NoPipeLacksMarkerOrColor(next);
    }
  }

  /**
   * A metadata line whose first non-blank character is '|', such as
   * " |M:a|C:b", has empty notes, so asking for notes changes nothing.
   */
  lemma PipeLedLineHasNoNotes(lines: seq<string>, i: int, filter: string)
    requires 0 <= i < |lines| - 1
    requires |Trim(lines[i + 1])| >= 1 && Trim(lines[i + 1])[0] == '|'
    ensures Step(lines, i, filter, true) == Step(lines, i, filter, false)
  {
    var next := Trim(lines[i + 1]);
    assert next == "" + "|" + next[1..];
    NotesGuardInert(next);
    NotesBeforeFirstPipe("", next[1..]);
    assert SplitNotes(next).0 == Some("");
  }

  /**
   * The listed line of a record: "[time] text", followed by " - notes" when
   * notes are asked for and present; listed exactly when the filter passes
   * the colour. Both lines may carry whitespace around them, the header may
   * space its tokens in any way, and every segment, key and value may be
   * padded.
   */
  lemma RecordLine(lines: seq<string>, i: int, hh: string, mm: string, ss: string, rest: string,
                   note: string, segs: seq<string>, text: string, color: string, filter: string, includeNotes: bool)
    requires 0 <= i < |lines| - 1
    requires !AllWhite(lines[i]) && IsDigit(Trim(lines[i])[0])
    requires HeaderTokens(SplitRemoveEmpty(Trim(lines[i]), ' '), hh, mm, ss, rest) && ParseInt(hh).Some?
    requires Trim(lines[i + 1]) == note + "|" + Join(segs, '|') && MetadataSegments(note, segs)
    requires DistinctKeys(PairsOf(segs)) && ("M", text) in PairsOf(segs) && ("C", color) in PairsOf(segs)
    ensures Step(lines, i, filter, includeNotes) ==
              if !ColorPasses(filter, color) then Success(None)
              else if includeNotes && Trim(note) != "" then
                Success(Some("[" + TimeColumn(hh, mm, ss) + "] " + text + " - " + Trim(note)))
              else Success(Some("[" + TimeColumn(hh, mm, ss) + "] " + text))
  {
    NotesGuardInert(Trim(lines[i + 1]));
    RecordWithMarker(Trim(lines[i]), hh, mm, ss, rest, Trim(lines[i + 1]), note, segs, text, color);
  }
}
