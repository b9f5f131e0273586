/**
 * The marker extractor: it walks the lines of an EDL marker export, pairs
 * every digit-led line with the line after it, and turns each record that has
 * a marker text ("M") and a colour ("C") passing the colour filter into
 * "[HH:MM:SS] text" or "[HH:MM:SS] text - notes".
 */
module MarkerConverter {
  import opened Wrappers
  import opened Text
  import opened Metadata
  import opened ColorFilter

  /** Why a whole conversion fails: the two exceptions that escape the loop. */
  datatype ConvertError =
    | InvalidHour(text: string)   // `int.Parse` rejected the hour field
    | DuplicateKey(key: string)   // `ToDictionary` met a metadata key twice

  /** A record that carries both an "M" and a "C" key. */
  datatype Marker = Marker(time: string, text: string, color: string, notes: Option<string>)

  // ---------------------------------------------------------------------------
  // One record
  // ---------------------------------------------------------------------------

  /**
   * The displayed time of a timecode field: None when it has fewer than three
   * ':'-separated fields; otherwise the hour less one in `D2` format, then the
   * minutes and seconds as written. Further fields (frames) are ignored.
   */
  function AdjustTimecode(timecode: string): Result<Option<string>, ConvertError>
  {
    var fields := SplitAll(timecode, ':');
    if |fields| < 3 then Success(None)
    else match ParseInt(fields[0])
      case None => Failure(InvalidHour(fields[0]))
      case Some(hour) => Success(Some(FormatD2(PreviousHour(hour)) + ":" + fields[1] + ":" + fields[2]))
  }

  /**
   * `hour - 1` on a C# `int` (unchecked): the result is an `int` that agrees
   * with `hour - 1` modulo 2^32, so the smallest value wraps to the largest.
   */
  function PreviousHour(hour: int): (r: int)
    requires IsInt(hour)
    ensures IsInt(r) && (r - (hour - 1)) % 0x1_0000_0000 == 0
  {
    if hour == IntMin then IntMax else hour - 1
  }

  /** `hour - 1` has exactly one representative among the C# `int` values. */
  lemma PreviousHourUnique(hour: int, x: int)
    requires IsInt(hour) && IsInt(x)
    requires (x - (hour - 1)) % 0x1_0000_0000 == 0
    ensures x == PreviousHour(hour)
  {
    var d := x - PreviousHour(hour);
    assert d % 0x1_0000_0000 == 0;
    assert -0x1_0000_0000 < d < 0x1_0000_0000;
  }

  /**
   * A header line (trimmed, digit-led) and the trimmed line after it. None when
   * the header has fewer than five space-separated tokens, when token 4 has
   * fewer than three ':'-fields, or when "M" or "C" is missing; a failure when
   * the hour is not a number or a metadata key repeats.
   */
  function ParseRecord(header: string, next: string): Result<Option<Marker>, ConvertError>
  {
    var (notes, metaLine) := SplitNotes(next);
    var tokens := SplitRemoveEmpty(header, ' ');
    if |tokens| < 5 then Success(None)
    else match AdjustTimecode(tokens[4])
      case Failure(e) => Failure(e)
      case Success(None) => Success(None)
      case Success(Some(time)) =>
        match ParseMeta(metaLine)
        case Failure(key) => Failure(DuplicateKey(key))
        case Success(meta) =>
          if "M" in meta && "C" in meta then Success(Some(Marker(time, meta["M"], meta["C"], notes)))
          else Success(None)
  }

  /** The display line of a marker; the notes are appended only when asked for and non-empty. */
  function Render(m: Marker, includeNotes: bool): string
  {
    var line := "[" + m.time + "] " + m.text;
    if m.notes.Some? && m.notes.value != "" && includeNotes then line + " - " + m.notes.value else line
  }

  /** The display line built in two steps: the time and text, then the notes when asked for and non-empty. */
  lemma RenderParts(m: Marker, includeNotes: bool, head: string, line: string)
    requires head == "[" + m.time + "] " + m.text
    requires line == if m.notes.Some? && m.notes.value != "" && includeNotes then head + " - " + m.notes.value else head
    ensures line == Render(m, includeNotes)
  {
  }

  /** What examining line `i` as a header candidate contributes. */
  function Step(lines: seq<string>, i: int, filter: string, includeNotes: bool): Result<Option<string>, ConvertError>
    requires 0 <= i < |lines| - 1
  {
    var current := Trim(lines[i]);
    if AllWhite(current) || !IsDigit(current[0]) then Success(None)
    else StepOf(ParseRecord(current, Trim(lines[i + 1])), filter, includeNotes)
  }

  /** What a parsed record contributes: its display line when the filter passes its colour. */
  function StepOf(record: Result<Option<Marker>, ConvertError>, filter: string, includeNotes: bool): Result<Option<string>, ConvertError>
  {
    match record
    case Failure(e) => Failure(e)
    case Success(None) => Success(None)
    case Success(Some(m)) =>
      if ColorPasses(filter, m.color) then Success(Some(Render(m, includeNotes))) else Success(None)
  }

  /** A candidate line is a header: its trimmed text is not blank and starts with a digit. */
  predicate IsHeader(lines: seq<string>, i: int)
    requires 0 <= i < |lines|
  {
    !AllWhite(Trim(lines[i])) && IsDigit(Trim(lines[i])[0])
  }

  /** A candidate line emits a display line. */
  predicate Emits(lines: seq<string>, i: int, filter: string, includeNotes: bool)
    requires 0 <= i < |lines| - 1
  {
    Step(lines, i, filter, includeNotes).Success? && Step(lines, i, filter, includeNotes).value.Some?
  }

  // ---------------------------------------------------------------------------
  // The whole file
  // ---------------------------------------------------------------------------

  /** What examining one candidate gives: nothing, a display line, or the error that ends the run. */
  type Outcome = Result<Option<string>, ConvertError>

  /** The outcomes of the candidate lines 3 .. hi-1, in order. */
  function Outcomes(lines: seq<string>, hi: int, filter: string, includeNotes: bool): (r: seq<Outcome>)
    requires hi <= 3 || hi < |lines|
    ensures |r| == if hi <= 3 then 0 else hi - 3
  {
    if hi <= 3 then []
    else seq(hi - 3, k requires 0 <= k < hi - 3 => Step(lines, k + 3, filter, includeNotes))
  }

  /**
   * The outcomes taken in order: the first failure, or the display lines
   * of the candidates that emit one.
   */
  function Collect(outs: seq<Outcome>): (r: Result<seq<string>, ConvertError>)
    ensures r.Success? ==> |r.value| <= |outs|
  {
    if |outs| == 0 then Success([])
    else match Collect(outs[..|outs| - 1])
      case Failure(e) => Failure(e)
      case Success(listed) =>
        match outs[|outs| - 1]
        case Failure(e) => Failure(e)
        case Success(None) => Success(listed)
        case Success(Some(line)) => Success(listed + [line])
  }

  /**
   * The conversion of a whole file: lines 3 to |lines|-2 are the candidates,
   * so a file of fewer than five lines lists nothing and every other file
   * lists at most one line per candidate.
   */
  function Convert(lines: seq<string>, filter: string, includeNotes: bool): (r: Result<seq<string>, ConvertError>)
    ensures |lines| < 5 ==> r == Success([])
    ensures r.Success? ==> |r.value| <= if |lines| < 5 then 0 else |lines| - 4
  {
    Collect(Outcomes(lines, |lines| - 1, filter, includeNotes))
  }

  /** Outcome `k` is the outcome of candidate line `k + 3`. */
  lemma OutcomeAt(lines: seq<string>, hi: int, k: int, filter: string, includeNotes: bool)
    requires 3 < hi < |lines| && 0 <= k < hi - 3
    ensures Outcomes(lines, hi, filter, includeNotes)[k] == Step(lines, k + 3, filter, includeNotes)
  {
    hide Step;
  }

  /** The outcome of candidate line `j` sits at position `j - 3`. */
  lemma OutcomeOfLine(lines: seq<string>, hi: int, j: int, filter: string, includeNotes: bool)
    requires 3 <= j < hi < |lines|
    ensures Outcomes(lines, hi, filter, includeNotes)[j - 3] == Step(lines, j, filter, includeNotes)
  {
    hide Step;
    OutcomeAt(lines, hi, j - 3, filter, includeNotes);
  }

  /** One more candidate adds its outcome at the end. */
  lemma OutcomesSnoc(lines: seq<string>, i: int, filter: string, includeNotes: bool)
    requires 3 <= i < |lines| - 1
    ensures Outcomes(lines, i + 1, filter, includeNotes) == Outcomes(lines, i, filter, includeNotes) + [Step(lines, i, filter, includeNotes)]
  {
    hide Step;
    var longer, shorter := Outcomes(lines, i + 1, filter, includeNotes), Outcomes(lines, i, filter, includeNotes);
    forall k | 0 <= k < |shorter|
      ensures longer[k] == shorter[k]
    {
      OutcomeAt(lines, i + 1, k, filter, includeNotes);
      OutcomeAt(lines, i, k, filter, includeNotes);
    }
    OutcomeAt(lines, i + 1, i - 3, filter, includeNotes);
  }

  /** The outcomes below `lo` are the first ones of those below any `hi` above it. */
  lemma OutcomesPrefix(lines: seq<string>, lo: int, hi: int, filter: string, includeNotes: bool)
    requires 3 <= lo <= hi < |lines|
    ensures Outcomes(lines, lo, filter, includeNotes) == Outcomes(lines, hi, filter, includeNotes)[..lo - 3]
  {
    hide Step;
  }

  /** Collecting one more outcome: a failure so far stays, otherwise the outcome decides. */
  lemma CollectSnoc(outs: seq<Outcome>, o: Outcome)
    ensures Collect(outs + [o]) ==
      match Collect(outs)
      case Failure(e) => Failure(e)
      case Success(listed) =>
        match o
        case Failure(e) => Failure(e)
        case Success(None) => Success(listed)
        case Success(Some(line)) => Success(listed + [line])
  {
    assert (outs + [o])[..|outs|] == outs;
  }

  /** Once the outcomes so far hold a failure, the outcomes after them are never looked at. */
  lemma {:induction false} CollectFailurePersists(outs: seq<Outcome>, more: seq<Outcome>)
    requires Collect(outs).Failure?
    ensures Collect(outs + more) == Collect(outs)
    decreases |more|
  {
    if |more| > 0 {
      var init := more[..|more| - 1];
      CollectFailurePersists(outs, init);
      assert outs + more == (outs + init) + [more[|more| - 1]];
      CollectSnoc(outs + init, more[|more| - 1]);
    } else {
      assert outs + more == outs;
    }
  }

  /** Once the candidates below `hi` have failed, the conversion fails with the same error. */
  lemma FailureEndsConversion(lines: seq<string>, hi: int, filter: string, includeNotes: bool)
    requires 3 < hi < |lines|
    requires Collect(Outcomes(lines, hi, filter, includeNotes)).Failure?
    ensures Convert(lines, filter, includeNotes) == Collect(Outcomes(lines, hi, filter, includeNotes))
  {
    hide Step;
    var all := Outcomes(lines, |lines| - 1, filter, includeNotes);
    var seen := Outcomes(lines, hi, filter, includeNotes);
    if hi < |lines| - 1 {
      OutcomesPrefix(lines, hi, |lines| - 1, filter, includeNotes);
      assert all == seen + all[hi - 3..];
      CollectFailurePersists(seen, all[hi - 3..]);
    }
  }

  /**
   * One more candidate line, whose outcome is `o`: a failure ends the whole
   * conversion with its error, a display line is appended, nothing leaves
   * the lines listed so far as they are.
   */
  lemma CollectNext(lines: seq<string>, i: int, filter: string, includeNotes: bool, listed: seq<string>, o: Outcome)
    requires 3 <= i < |lines| - 1
    requires Collect(Outcomes(lines, i, filter, includeNotes)) == Success(listed)
    requires Step(lines, i, filter, includeNotes) == o
    ensures o.Failure? ==> Collect(Outcomes(lines, i + 1, filter, includeNotes)) == Failure(o.error)
    ensures o.Failure? ==> Convert(lines, filter, includeNotes) == Failure(o.error)
    ensures o == Success(None) ==> Collect(Outcomes(lines, i + 1, filter, includeNotes)) == Success(listed)
    ensures o.Success? && o.value.Some? ==>
              Collect(Outcomes(lines, i + 1, filter, includeNotes)) == Success(listed + [o.value.value])
  {
    hide Step;
    OutcomesSnoc(lines, i, filter, includeNotes);
    CollectSnoc(Outcomes(lines, i, filter, includeNotes), o);
    if o.Failure? {
      FailureEndsConversion(lines, i + 1, filter, includeNotes);
    }
  }

  /** A line that is not a header leaves the lines listed so far as they are. */
  lemma NextNonHeader(lines: seq<string>, i: int, filter: string, includeNotes: bool, listed: seq<string>)
    requires 3 <= i < |lines| - 1 && !IsHeader(lines, i)
    requires Collect(Outcomes(lines, i, filter, includeNotes)) == Success(listed)
    ensures Collect(Outcomes(lines, i + 1, filter, includeNotes)) == Success(listed)
  {
    CollectNext(lines, i, filter, includeNotes, listed, Success(None));
  }

  /** A header whose timecode gives no time leaves the lines listed so far as they are. */
  lemma NextWithoutTime(lines: seq<string>, i: int, filter: string, includeNotes: bool, listed: seq<string>)
    requires 3 <= i < |lines| - 1 && IsHeader(lines, i) && HeaderTime(lines, i) == Success(None)
    requires Collect(Outcomes(lines, i, filter, includeNotes)) == Success(listed)
    ensures Collect(Outcomes(lines, i + 1, filter, includeNotes)) == Success(listed)
  {
    CollectNext(lines, i, filter, includeNotes, listed, Success(None));
  }

  /** A header whose hour is not a number ends the whole conversion with that error. */
  lemma NextWithBadHour(lines: seq<string>, i: int, filter: string, includeNotes: bool, listed: seq<string>, e: ConvertError)
    requires 3 <= i < |lines| - 1 && IsHeader(lines, i) && HeaderTime(lines, i) == Failure(e)
    requires Collect(Outcomes(lines, i, filter, includeNotes)) == Success(listed)
    ensures Collect(Outcomes(lines, i + 1, filter, includeNotes)) == Failure(e)
    ensures Convert(lines, filter, includeNotes) == Failure(e)
  {
    CollectNext(lines, i, filter, includeNotes, listed, Failure(e));
  }

  /** The time column of header line `i`, or None or an error, as its timecode gives it. */
  function HeaderTime(lines: seq<string>, i: int): Result<Option<string>, ConvertError>
    requires 0 <= i < |lines|
  {
    var tokens := SplitRemoveEmpty(Trim(lines[i]), ' ');
    if |tokens| < 5 then Success(None) else AdjustTimecode(tokens[4])
  }

  /** A header with a time whose metadata repeats a key ends the whole conversion. */
  lemma NextWithDuplicateKey(lines: seq<string>, i: int, filter: string, includeNotes: bool, listed: seq<string>,
                             time: string, key: string)
    requires 3 <= i < |lines| - 1 && IsHeader(lines, i) && HeaderTime(lines, i) == Success(Some(time))
    requires ParseMeta(SplitNotes(Trim(lines[i + 1])).1) == Failure(key)
    requires Collect(Outcomes(lines, i, filter, includeNotes)) == Success(listed)
    ensures Collect(Outcomes(lines, i + 1, filter, includeNotes)) == Failure(DuplicateKey(key))
    ensures Convert(lines, filter, includeNotes) == Failure(DuplicateKey(key))
  {
    CollectNext(lines, i, filter, includeNotes, listed, Failure(DuplicateKey(key)));
  }

  /**
   * A header with a time whose metadata holds "M" and a "C" the filter
   * passes appends the display line of its marker, notes included.
   */
  lemma NextWithMarker(lines: seq<string>, i: int, filter: string, includeNotes: bool, listed: seq<string>,
                       time: string, meta: map<string, string>)
    requires 3 <= i < |lines| - 1 && IsHeader(lines, i) && HeaderTime(lines, i) == Success(Some(time))
    requires ParseMeta(SplitNotes(Trim(lines[i + 1])).1) == Success(meta)
    requires "M" in meta && "C" in meta && ColorPasses(filter, meta["C"])
    requires Collect(Outcomes(lines, i, filter, includeNotes)) == Success(listed)
    ensures Collect(Outcomes(lines, i + 1, filter, includeNotes)) ==
              Success(listed + [Render(Marker(time, meta["M"], meta["C"], SplitNotes(Trim(lines[i + 1])).0), includeNotes)])
  {
    var m := Marker(time, meta["M"], meta["C"], SplitNotes(Trim(lines[i + 1])).0);
    CollectNext(lines, i, filter, includeNotes, listed, Success(Some(Render(m, includeNotes))));
  }

  /** A header with a time whose metadata lacks "M" or "C", or whose colour the filter rejects, adds nothing. */
  lemma NextUnlisted(lines: seq<string>, i: int, filter: string, includeNotes: bool, listed: seq<string>,
                     time: string, meta: map<string, string>)
    requires 3 <= i < |lines| - 1 && IsHeader(lines, i) && HeaderTime(lines, i) == Success(Some(time))
    requires ParseMeta(SplitNotes(Trim(lines[i + 1])).1) == Success(meta)
    requires !("M" in meta && "C" in meta && ColorPasses(filter, meta["C"]))
    requires Collect(Outcomes(lines, i, filter, includeNotes)) == Success(listed)
    ensures Collect(Outcomes(lines, i + 1, filter, includeNotes)) == Success(listed)
  {
    CollectNext(lines, i, filter, includeNotes, listed, Success(None));
  }

  /** The first failing outcome decides the collected result. */
  lemma CollectFailsAt(outs: seq<Outcome>, k: nat)
    requires k < |outs|
    requires Collect(outs[..k]).Success? && outs[k].Failure?
    ensures Collect(outs) == Failure(outs[k].error)
  {
    assert outs[..k + 1] == outs[..k] + [outs[k]];
    CollectSnoc(outs[..k], outs[k]);
    assert outs == outs[..k + 1] + outs[k + 1..];
    CollectFailurePersists(outs[..k + 1], outs[k + 1..]);
  }

  /**
   * One pass of the conversion loop: the line at index `i` is examined and
   * the marker list so far is extended by what it contributes, or the
   * conversion fails. Returning early stands for the loop's `continue`.
   */
  method ConvertOne(lines: seq<string>, i: nat, filter: string, includeNotes: bool, markers: seq<string>) returns (r: Result<seq<string>, ConvertError>)
    requires 3 <= i < |lines| - 1
    requires Collect(Outcomes(lines, i, filter, includeNotes)) == Success(markers)
    ensures r == Collect(Outcomes(lines, i + 1, filter, includeNotes))
  {
    hide Step, ParseRecord, StepOf, Outcomes, Collect, Render;
    var currentLine := Trim(lines[i]);
    if AllWhite(currentLine) || !IsDigit(currentLine[0]) {
      NextNonHeader(lines, i, filter, includeNotes, markers);
      return Success(markers);
    }
    var nextLine := Trim(lines[i + 1]);
    var (notes, metadataLine) := SplitNotes(nextLine);
    var timeparts := SplitRemoveEmpty(currentLine, ' ');
    if |timeparts| < 5 {
      NextWithoutTime(lines, i, filter, includeNotes, markers);
      return Success(markers);
    }
    var timestamp := SplitAll(timeparts[4], ':');
    if |timestamp| < 3 {
      NextWithoutTime(lines, i, filter, includeNotes, markers);
      return Success(markers);
    }
    var parsed := ParseInt(timestamp[0]);
    if parsed.None? {
      NextWithBadHour(lines, i, filter, includeNotes, markers, InvalidHour(timestamp[0]));
      return Failure(InvalidHour(timestamp[0]));
    }
    var adjustedTime := FormatD2(PreviousHour(parsed.value)) + ":" + timestamp[1] + ":" + timestamp[2];
    var metaParts := ParseMeta(metadataLine);
    if metaParts.Failure? {
      NextWithDuplicateKey(lines, i, filter, includeNotes, markers, adjustedTime, metaParts.error);
      return Failure(DuplicateKey(metaParts.error));
    }
    if "M" in metaParts.value && "C" in metaParts.value && ColorPasses(filter, metaParts.value["C"]) {
      var markerText, color := metaParts.value["M"], metaParts.value["C"];
      var markerLine := "[" + adjustedTime + "] " + markerText;
      if notes.Some? && notes.value != "" && includeNotes {
        markerLine := markerLine + " - " + notes.value;
      }
      RenderParts(Marker(adjustedTime, markerText, color, notes), includeNotes, "[" + adjustedTime + "] " + markerText, markerLine);
      NextWithMarker(lines, i, filter, includeNotes, markers, adjustedTime, metaParts.value);
      return Success(markers + [markerLine]);
    }
    NextUnlisted(lines, i, filter, includeNotes, markers, adjustedTime, metaParts.value);
    return Success(markers);
  }

  /**
   * The conversion loop. Every index from 3 up to the one before the last
   * line is examined, one at a time: a digit-led line takes the following
   * line as its metadata, and that line is examined in its turn as well. The
   * first failure ends the conversion.
   */
  method ConvertMarkers(lines: seq<string>, filter: string, includeNotes: bool) returns (r: Result<seq<string>, ConvertError>)
    ensures r == Convert(lines, filter, includeNotes)
  {
    var markers: seq<string> := [];
    var i := 3;
    while i < |lines| - 1
      invariant 3 <= i && (i <= 3 || i < |lines|)
      invariant Collect(Outcomes(lines, i, filter, includeNotes)) == Success(markers)
    {
      var next := ConvertOne(lines, i, filter, includeNotes, markers);
      if next.Failure? {
        FailureEndsConversion(lines, i + 1, filter, includeNotes);
        return next;
      }
      markers := next.value;
      i := i + 1;
    }
    r := Success(markers);
  }
}
