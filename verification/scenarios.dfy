/**
 * A worked export: an example record (a red marker "T" at 05:10:20 with the
 * note "n") converted under different options, and the time column of the
 * first hour and of an hour that is not a number.
 */
module Scenarios {
  import opened Wrappers
  import opened Text
  import opened Metadata
  import opened ColorFilter
  import opened MarkerConverter
  import opened RecordLaws

  // The pieces of the example record, one small fact at a time.

  lemma ExampleHeaderTail()
    ensures Join(["x", "x", "05:10:20"], ' ') == "x x 05:10:20"
  {
    assert Join(["x", "05:10:20"], ' ') == "x 05:10:20";
  }

  lemma ExampleHeaderLine()
    ensures Join(["5", "x", "x", "x", "05:10:20"], ' ') == "5 x x x 05:10:20"
  {
    ExampleHeaderTail();
  }

  lemma ExampleHeaderSplit()
    ensures SplitRemoveEmpty(Trim("5 x x x 05:10:20"), ' ') == ["5", "x", "x", "x", "05:10:20"]
  {
    hide Trim, Join, SplitRemoveEmpty;
    TrimTrimmed("5 x x x 05:10:20");
    ExampleHeaderLine();
    SplitRemoveEmptyJoin(["5", "x", "x", "x", "05:10:20"], ' ');
  }

  lemma ExampleHeaderTokens()
    ensures HeaderTokens(["5", "x", "x", "x", "05:10:20"], "05", "10", "20", "")
  {
  }

  lemma ExampleTime()
    ensures ParseInt("05").Some? && TimeColumn("05", "10", "20") == "04:10:20"
  {
    assert FormatD2(5) == "05";
    ParseFormatD2(5);
    assert FormatD2(4) == "04";
  }

  lemma ExampleColorSegment()
    ensures PairsOf(["C:ResolveColorRed"]) == [("C", "ResolveColorRed")]
  {
    hide Trim, SegmentPairs;
    SegmentPairsOf("C", "ResolveColorRed");
    TrimTrimmed("C");
    TrimTrimmed("ResolveColorRed");
    assert "C" + ":" + "ResolveColorRed" == "C:ResolveColorRed";
  }

  lemma ExampleSegments()
    ensures PairsOf(["M:T", "C:ResolveColorRed"]) == [("M", "T"), ("C", "ResolveColorRed")]
  {
    hide Trim, SegmentPairs;
    SegmentPairsOf("M", "T");
    TrimTrimmed("M");
    TrimTrimmed("T");
    assert "M" + ":" + "T" == "M:T";
    assert ["M:T", "C:ResolveColorRed"][1..] == ["C:ResolveColorRed"];
    ExampleColorSegment();
  }

  lemma ExampleMetadataJoin()
    ensures Join(["M:T", "C:ResolveColorRed"], '|') == "M:T|C:ResolveColorRed"
  {
    assert ["M:T", "C:ResolveColorRed"][1..] == ["C:ResolveColorRed"];
  }

  lemma ExampleMetadataTrimmed()
    ensures Trim("n |M:T|C:ResolveColorRed") == "n |M:T|C:ResolveColorRed"
  {
    TrimTrimmed("n |M:T|C:ResolveColorRed");
  }

  lemma ExampleMetadataLine()
    ensures Trim("n |M:T|C:ResolveColorRed") == "n " + "|" + Join(["M:T", "C:ResolveColorRed"], '|')
  {
    hide Trim, Join;
    ExampleMetadataTrimmed();
    ExampleMetadataJoin();
    assert "n " + "|" + "M:T|C:ResolveColorRed" == "n |M:T|C:ResolveColorRed";
  }

  lemma ExampleMetadataSegments()
    ensures MetadataSegments("n ", ["M:T", "C:ResolveColorRed"])
  {
    assert '|' !in "M:T" && '|' !in "C:ResolveColorRed";
  }

  lemma ExampleKeys()
    ensures DistinctKeys([("M", "T"), ("C", "ResolveColorRed")])
  {
  }

  lemma ExampleText()
    ensures Trim("n ") == "n"
    ensures "[" + "04:10:20" + "] " + "T" + " - " + "n" == "[04:10:20] T - n"
    ensures "[" + "04:10:20" + "] " + "T" == "[04:10:20] T"
  {
  }

  /**
   * The example record, wherever it sits: listed as "[04:10:20] T - n" (or
   * without the note when notes are not asked for) when the filter passes red.
   */
  lemma ExampleRecord(lines: seq<string>, i: int, filter: string, includeNotes: bool)
    requires 0 <= i < |lines| - 1
    requires lines[i] == "5 x x x 05:10:20" && lines[i + 1] == "n |M:T|C:ResolveColorRed"
    ensures Step(lines, i, filter, includeNotes) ==
              if !ColorPasses(filter, "ResolveColorRed") then Success(None)
              else if includeNotes then Success(Some("[04:10:20] T - n"))
              else Success(Some("[04:10:20] T"))
  {
    ExampleHeaderSplit();
    ExampleHeaderTokens();
    ExampleTime();
    ExampleMetadataLine();
    ExampleMetadataSegments();
    ExampleSegments();
    ExampleKeys();
    ExampleText();
    assert !IsWhite(lines[i][0]) && Trim(lines[i])[0] == '5';
    RecordLine(lines, i, "05", "10", "20", "", "n ", ["M:T", "C:ResolveColorRed"], "T", "ResolveColorRed",
               filter, includeNotes);
  }

  /** A line that starts with the letter 'n', as the metadata line of the example does, is not a candidate. */
  lemma ExampleNotesLine(lines: seq<string>, i: int, filter: string, includeNotes: bool)
    requires 0 <= i < |lines| - 1 && |lines[i]| > 0 && lines[i][0] == 'n'
    ensures Step(lines, i, filter, includeNotes) == Success(None)
  {
    assert lines[i] == "" + ['n'] + lines[i][1..];
    NonDigitLineSkipped(lines, i, "", 'n', lines[i][1..], filter, includeNotes);
  }

  /** Two candidates, the first listing `first` (or nothing) and the second nothing, list just `first`. */
  lemma CollectOneThenNothing(outs: seq<Outcome>, first: Option<string>)
    requires |outs| == 2 && outs[0] == Success(first) && outs[1] == Success(None)
    ensures Collect(outs) == Success(if first.Some? then [first.value] else [])
  {
    CollectSnoc([], outs[0]);
    CollectSnoc([outs[0]], outs[1]);
    assert [] + [outs[0]] == [outs[0]];
    assert outs == [outs[0]] + [outs[1]];
    if first.Some? {
      assert [] + [first.value] == [first.value];
    }
  }

  /**
   * A six-line export whose one record is the example: "Red Only" with notes
   * lists "[04:10:20] T - n"; without notes "[04:10:20] T"; "Blue Only" lists
   * nothing, and "All Colors" lists it like "Red Only".
   */
  lemma ExampleConversion(lines: seq<string>, filter: string, includeNotes: bool)
    requires |lines| == 6 && lines[3] == "5 x x x 05:10:20" && lines[4] == "n |M:T|C:ResolveColorRed"
    ensures filter == "Red Only" && includeNotes ==> Convert(lines, filter, includeNotes) == Success(["[04:10:20] T - n"])
    ensures filter == "Red Only" && !includeNotes ==> Convert(lines, filter, includeNotes) == Success(["[04:10:20] T"])
    ensures filter == "Blue Only" ==> Convert(lines, filter, includeNotes) == Success([])
    ensures Convert(lines, AllColors, includeNotes) == Convert(lines, "Red Only", includeNotes)
  {
    ExampleOutcome(lines, filter, includeNotes);
    ExampleOutcome(lines, AllColors, includeNotes);
    ExampleOutcome(lines, "Red Only", includeNotes);
  }

  lemma ExampleOutcome(lines: seq<string>, filter: string, includeNotes: bool)
    requires |lines| == 6 && lines[3] == "5 x x x 05:10:20" && lines[4] == "n |M:T|C:ResolveColorRed"
    ensures Convert(lines, filter, includeNotes) ==
              if !ColorPasses(filter, "ResolveColorRed") then Success([])
              else if includeNotes then Success(["[04:10:20] T - n"])
              else Success(["[04:10:20] T"])
  {
    hide Step, Collect, ColorPasses;
    ExampleRecord(lines, 3, filter, includeNotes);
    ExampleNotesLine(lines, 4, filter, includeNotes);
    OutcomeAt(lines, 5, 0, filter, includeNotes);
    OutcomeAt(lines, 5, 1, filter, includeNotes);
    CollectOneThenNothing(Outcomes(lines, 5, filter, includeNotes), Step(lines, 3, filter, includeNotes).value);
  }

  /**
   * The first hour of a timeline: "00" is read as 0 and shown as hour -1,
   * "-01", as `D2` writes a negative number.
   */
  lemma ZeroHour()
    ensures ParseInt("00") == Some(0)
    ensures FormatD2(PreviousHour(0)) == "-01"
  {
    assert FormatD2(0) == "00";
    ParseFormatD2(0);
  }

  /** Hours that `int.Parse` rejects: text that is not a number, and a number beyond the range of `int`. */
  lemma RejectedHours()
    ensures ParseInt("1a") == None
    ensures ParseInt(NatToDecimal(IntMax + 1)) == None
  {
    TrimTrimmed("1a");
    DecimalValueOfNatToDecimal(IntMax + 1);
    ParseIntDigits(NatToDecimal(IntMax + 1));
  }

  /** A rejected hour is the error that ends the conversion. */
  lemma BadHour(mm: string, ss: string)
    requires ':' !in mm && ':' !in ss
    ensures AdjustTimecode("1a" + ":" + mm + ":" + ss) == Failure(InvalidHour("1a"))
  {
    RejectedHours();
    TimecodeFields("1a", mm, ss, "");
    assert "1a" + ":" + mm + ":" + ss + "" == "1a" + ":" + mm + ":" + ss;
  }
}
