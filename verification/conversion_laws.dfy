/**
 * What the conversion promises as a whole: when it fails and with which
 * error, which lines it lists and in what order, what the filter and the
 * notes option change, and which lines of the file it never looks at.
 */
module ConversionLaws {
  import opened Wrappers
  import opened Text
  import opened Metadata
  import opened ColorFilter
  import opened MarkerConverter

  // ---------------------------------------------------------------------------
  // Collecting outcomes, for any sequence of outcomes
  // ---------------------------------------------------------------------------

  /** Collecting succeeds exactly when no outcome is a failure. */
  lemma {:induction false} CollectSucceedsIff(outs: seq<Outcome>)
    ensures Collect(outs).Success? <==> forall k :: 0 <= k < |outs| ==> outs[k].Success?
    decreases |outs|
  {
    if |outs| > 0 {
      hide Collect;
      var init, last := outs[..|outs| - 1], outs[|outs| - 1];
      CollectSucceedsIff(init);
      assert outs == init + [last];
      CollectSnoc(init, last);
      assert forall k :: 0 <= k < |init| ==> init[k] == outs[k];
    }
  }

  /**
   * The line numbers of the outcomes that carry a display line, in
   * increasing order, when outcome `k` comes from line `base + k`.
   */
  ghost function EmittedAt(outs: seq<Outcome>, base: int): seq<int>
  {
    if |outs| == 0 then []
    else EmittedAt(outs[..|outs| - 1], base)
         + (if outs[|outs| - 1].Success? && outs[|outs| - 1].value.Some? then [base + |outs| - 1] else [])
  }

  /** The emitting line numbers are increasing and are exactly those of the outcomes that carry a line. */
  lemma {:induction false} EmittedAtExact(outs: seq<Outcome>, base: int)
    ensures forall a, b :: 0 <= a < b < |EmittedAt(outs, base)| ==> EmittedAt(outs, base)[a] < EmittedAt(outs, base)[b]
    ensures forall j :: j in EmittedAt(outs, base) <==>
              base <= j < base + |outs| && outs[j - base].Success? && outs[j - base].value.Some?
    decreases |outs|
  {
    if |outs| > 0 {
      var init := outs[..|outs| - 1];
      EmittedAtExact(init, base);
      assert forall k :: 0 <= k < |init| ==> init[k] == outs[k];
      var prev := EmittedAt(init, base);
      assert forall t :: 0 <= t < |prev| ==> prev[t] in prev;
    }
  }

  /** A successful collection lists, one for one and in order, the lines of the emitting outcomes. */
  lemma {:induction false} CollectListsEmitted(outs: seq<Outcome>, base: int)
    requires Collect(outs).Success?
    ensures |Collect(outs).value| == |EmittedAt(outs, base)|
    ensures forall t :: 0 <= t < |EmittedAt(outs, base)| ==>
              base <= EmittedAt(outs, base)[t] < base + |outs| &&
              outs[EmittedAt(outs, base)[t] - base] == Success(Some(Collect(outs).value[t]))
    decreases |outs|
  {
    if |outs| > 0 {
      hide Collect;
      var n := |outs| - 1;
      var init, last := outs[..n], outs[n];
      assert outs == init + [last];
      CollectSnoc(init, last);
      CollectListsEmitted(init, base);
      var listed, emitted := Collect(outs).value, EmittedAt(outs, base);
      var listed0, emitted0 := Collect(init).value, EmittedAt(init, base);
      assert forall t :: 0 <= t < |emitted0| ==> outs[emitted0[t] - base] == init[emitted0[t] - base];
      if last.Success? && last.value.Some? {
        assert listed == listed0 + [last.value.value];
        assert emitted == emitted0 + [base + n];
        forall t | 0 <= t < |emitted|
          ensures base <= emitted[t] < base + |outs| && outs[emitted[t] - base] == Success(Some(listed[t]))
        {
          if t < |emitted0| {
            assert emitted[t] == emitted0[t] && listed[t] == listed0[t];
          }
        }
      } else {
        assert listed == listed0 && emitted == emitted0;
      }
    }
  }

  /** Two outcome sequences that fail at the same places with the same errors collect to the same failure. */
  lemma {:induction false} CollectSameFailures(outs: seq<Outcome>, other: seq<Outcome>)
    requires |outs| == |other|
    requires forall k :: 0 <= k < |outs| ==> (outs[k].Failure? <==> other[k].Failure?)
    requires forall k :: 0 <= k < |outs| && outs[k].Failure? ==> other[k] == outs[k]
    ensures Collect(outs).Failure? <==> Collect(other).Failure?
    ensures Collect(outs).Failure? ==> Collect(other) == Collect(outs)
    decreases |outs|
  {
    if |outs| > 0 {
      var n := |outs| - 1;
      CollectSameFailures(outs[..n], other[..n]);
      assert outs == outs[..n] + [outs[n]] && other == other[..n] + [other[n]];
      CollectSnoc(outs[..n], outs[n]);
      CollectSnoc(other[..n], other[n]);
    }
  }

  /** The result collected from a prefix is a prefix of the result collected from the whole. */
  lemma {:induction false} CollectPrefix(outs: seq<Outcome>, more: seq<Outcome>)
    requires Collect(outs + more).Success?
    ensures Collect(outs).Success? && Collect(outs).value <= Collect(outs + more).value
    decreases |more|
  {
    if |more| > 0 {
      var init := more[..|more| - 1];
      assert outs + more == (outs + init) + [more[|more| - 1]];
      CollectSnoc(outs + init, more[|more| - 1]);
      CollectPrefix(outs, init);
    } else {
      assert outs + more == outs;
    }
  }

  // ---------------------------------------------------------------------------
  // Failure of a whole file
  // ---------------------------------------------------------------------------

  /** A successful conversion had no failing candidate. */
  lemma ConvertSuccessLines(lines: seq<string>, filter: string, includeNotes: bool)
    requires Convert(lines, filter, includeNotes).Success?
    ensures forall j :: 3 <= j < |lines| - 1 ==> Step(lines, j, filter, includeNotes).Success?
  {
    hide Step;
    var outs := Outcomes(lines, |lines| - 1, filter, includeNotes);
    CollectSucceedsIff(outs);
    forall j | 3 <= j < |lines| - 1
      ensures Step(lines, j, filter, includeNotes).Success?
    {
      OutcomeAt(lines, |lines| - 1, j - 3, filter, includeNotes);
    }
  }

  /** A failed conversion had a failing candidate. */
  lemma ConvertFailureLine(lines: seq<string>, filter: string, includeNotes: bool)
    requires Convert(lines, filter, includeNotes).Failure?
    ensures exists j :: 3 <= j < |lines| - 1 && Step(lines, j, filter, includeNotes).Failure?
  {
    hide Step;
    var outs := Outcomes(lines, |lines| - 1, filter, includeNotes);
    CollectSucceedsIff(outs);
    var k :| 0 <= k < |outs| && outs[k].Failure?;
    OutcomeAt(lines, |lines| - 1, k, filter, includeNotes);
  }

  /** The conversion succeeds exactly when no candidate line (3 to |lines|-2) fails. */
  lemma ConvertSucceedsIff(lines: seq<string>, filter: string, includeNotes: bool)
    ensures Convert(lines, filter, includeNotes).Success? <==>
              forall j :: 3 <= j < |lines| - 1 ==> Step(lines, j, filter, includeNotes).Success?
  {
    hide Step;
    if Convert(lines, filter, includeNotes).Success? {
      ConvertSuccessLines(lines, filter, includeNotes);
    } else {
      ConvertFailureLine(lines, filter, includeNotes);
    }
  }

  /**
   * The error of a failed conversion is the error of the first candidate
   * that fails: later lines are never examined.
   */
  lemma ConvertFailsAtFirstFailure(lines: seq<string>, j: int, filter: string, includeNotes: bool)
    requires 3 <= j < |lines| - 1
    requires Step(lines, j, filter, includeNotes).Failure?
    requires forall k :: 3 <= k < j ==> Step(lines, k, filter, includeNotes).Success?
    ensures Convert(lines, filter, includeNotes) == Failure(Step(lines, j, filter, includeNotes).error)
  {
    hide Step;
    var seen := Outcomes(lines, j, filter, includeNotes);
    CollectSucceedsIff(seen);
    forall k | 0 <= k < |seen|
      ensures seen[k].Success?
    {
      OutcomeAt(lines, j, k, filter, includeNotes);
    }
    OutcomesSnoc(lines, j, filter, includeNotes);
    CollectSnoc(seen, Step(lines, j, filter, includeNotes));
    FailureEndsConversion(lines, j + 1, filter, includeNotes);
  }

  /** Whether a candidate fails, and with which error, depends on neither the filter nor the notes option. */
  lemma StepFailureIgnoresOptions(lines: seq<string>, i: int, f: string, n: bool, g: string, m: bool)
    requires 0 <= i < |lines| - 1
    ensures Step(lines, i, f, n).Failure? <==> Step(lines, i, g, m).Failure?
    ensures Step(lines, i, f, n).Failure? ==> Step(lines, i, g, m) == Step(lines, i, f, n)
  {
  }

  /** A conversion that fails under some options fails with the same error under all others. */
  lemma ConvertFailureIgnoresOptions(lines: seq<string>, f: string, n: bool, g: string, m: bool)
    ensures Convert(lines, f, n).Failure? <==> Convert(lines, g, m).Failure?
    ensures Convert(lines, f, n).Failure? ==> Convert(lines, g, m) == Convert(lines, f, n)
  {
    hide Step;
    var outs := Outcomes(lines, |lines| - 1, f, n);
    var other := Outcomes(lines, |lines| - 1, g, m);
    forall k | 0 <= k < |outs|
      ensures (outs[k].Failure? <==> other[k].Failure?) && (outs[k].Failure? ==> other[k] == outs[k])
    {
      OutcomeAt(lines, |lines| - 1, k, f, n);
      OutcomeAt(lines, |lines| - 1, k, g, m);
      StepFailureIgnoresOptions(lines, k + 3, f, n, g, m);
    }
    CollectSameFailures(outs, other);
  }

  // ---------------------------------------------------------------------------
  // Which lines are listed, and in which order
  // ---------------------------------------------------------------------------

  /** The line numbers of the emitting candidates, in increasing order. */
  ghost function EmittingLines(lines: seq<string>, filter: string, includeNotes: bool): seq<int>
  {
    EmittedAt(Outcomes(lines, |lines| - 1, filter, includeNotes), 3)
  }

  /** The emitting lines are increasing and are exactly the candidates that emit a display line. */
  lemma EmittingLinesExact(lines: seq<string>, filter: string, includeNotes: bool)
    ensures forall a, b :: 0 <= a < b < |EmittingLines(lines, filter, includeNotes)| ==>
              EmittingLines(lines, filter, includeNotes)[a] < EmittingLines(lines, filter, includeNotes)[b]
    ensures forall j :: j in EmittingLines(lines, filter, includeNotes) <==>
              3 <= j < |lines| - 1 && Emits(lines, j, filter, includeNotes)
  {
    hide Step;
    EmittedAtExact(Outcomes(lines, |lines| - 1, filter, includeNotes), 3);
    forall j
      ensures j in EmittingLines(lines, filter, includeNotes) <==> 3 <= j < |lines| - 1 && Emits(lines, j, filter, includeNotes)
    {
      EmittingLine(lines, j, filter, includeNotes);
    }
  }

  /** One line number is an emitting line exactly when that candidate emits. */
  lemma EmittingLine(lines: seq<string>, j: int, filter: string, includeNotes: bool)
    ensures j in EmittingLines(lines, filter, includeNotes) <==> 3 <= j < |lines| - 1 && Emits(lines, j, filter, includeNotes)
  {
    hide Step;
    EmittedAtExact(Outcomes(lines, |lines| - 1, filter, includeNotes), 3);
    if 3 <= j < |lines| - 1 {
      OutcomeOfLine(lines, |lines| - 1, j, filter, includeNotes);
    }
  }

  /**
   * A successful conversion lists, one for one and in order, the display
   * lines of the emitting candidates.
   */
  lemma ConvertListsEmitters(lines: seq<string>, filter: string, includeNotes: bool)
    requires Convert(lines, filter, includeNotes).Success?
    ensures |Convert(lines, filter, includeNotes).value| == |EmittingLines(lines, filter, includeNotes)|
    ensures forall t :: 0 <= t < |EmittingLines(lines, filter, includeNotes)| ==>
              3 <= EmittingLines(lines, filter, includeNotes)[t] < |lines| - 1 &&
              Step(lines, EmittingLines(lines, filter, includeNotes)[t], filter, includeNotes)
                == Success(Some(Convert(lines, filter, includeNotes).value[t]))
  {
    hide Step;
    CollectListsEmitted(Outcomes(lines, |lines| - 1, filter, includeNotes), 3);
    forall t | 0 <= t < |EmittingLines(lines, filter, includeNotes)|
      ensures 3 <= EmittingLines(lines, filter, includeNotes)[t] < |lines| - 1 &&
              Step(lines, EmittingLines(lines, filter, includeNotes)[t], filter, includeNotes)
                == Success(Some(Convert(lines, filter, includeNotes).value[t]))
    {
      ListedLine(lines, Convert(lines, filter, includeNotes).value, t, EmittingLines(lines, filter, includeNotes)[t], filter, includeNotes);
    }
  }

  /** Output line `t` is the display line of emitting line number `t`. */
  lemma ListedLine(lines: seq<string>, listed: seq<string>, t: int, j: int, filter: string, includeNotes: bool)
    requires Convert(lines, filter, includeNotes) == Success(listed)
    requires 0 <= t < |EmittingLines(lines, filter, includeNotes)| && EmittingLines(lines, filter, includeNotes)[t] == j
    ensures 3 <= j < |lines| - 1 && t < |listed|
    ensures Step(lines, j, filter, includeNotes) == Success(Some(listed[t]))
  {
    hide Step;
    var outs := Outcomes(lines, |lines| - 1, filter, includeNotes);
    CollectListsEmitted(outs, 3);
    OutcomeOfLine(lines, |lines| - 1, j, filter, includeNotes);
  }

  /** Under "All Colors" a record is listed whenever it is listed under any other label. */
  lemma AllColorsEmitsMore(lines: seq<string>, i: int, filter: string, includeNotes: bool)
    requires 0 <= i < |lines| - 1
    requires Emits(lines, i, filter, includeNotes)
    ensures Emits(lines, i, AllColors, includeNotes)
  {
  }

  /** The lines listed under any filter come from records that "All Colors" lists too. */
  lemma AllColorsListsEverySelection(lines: seq<string>, filter: string, includeNotes: bool)
    ensures forall j :: j in EmittingLines(lines, filter, includeNotes) ==>
              j in EmittingLines(lines, AllColors, includeNotes)
  {
    hide Step;
    EmittingLinesExact(lines, filter, includeNotes);
    EmittingLinesExact(lines, AllColors, includeNotes);
    forall j | j in EmittingLines(lines, filter, includeNotes)
      ensures j in EmittingLines(lines, AllColors, includeNotes)
    {
      AllColorsEmitsMore(lines, j, filter, includeNotes);
    }
  }

  /**
   * The notes option changes no decision, only text: the same candidates
   * are listed, and with notes each line is the line without notes,
   * possibly followed by " - " and the notes.
   */
  lemma NotesOnlyExtend(lines: seq<string>, i: int, filter: string)
    requires 0 <= i < |lines| - 1
    ensures Emits(lines, i, filter, false) <==> Emits(lines, i, filter, true)
    ensures Emits(lines, i, filter, false) ==>
              NotesExtend(Step(lines, i, filter, false).value.value, Step(lines, i, filter, true).value.value)
  {
    var current := Trim(lines[i]);
    if !AllWhite(current) && IsDigit(current[0]) {
      var record := ParseRecord(current, Trim(lines[i + 1]));
      if record.Success? && record.value.Some? && ColorPasses(filter, record.value.value.color) {
        var m := record.value.value;
        assert Step(lines, i, filter, false) == Success(Some(Render(m, false)));
        assert Step(lines, i, filter, true) == Success(Some(Render(m, true)));
        RenderWithNotes(m);
      } else {
        assert !Emits(lines, i, filter, false) && !Emits(lines, i, filter, true);
      }
    }
  }

  /** `with` is `without`, or `without` followed by " - " and at least one more character. */
  predicate NotesExtend(without: string, with: string)
  {
    with == without || (|with| > |without| + 3 && with[..|without| + 3] == without + " - ")
  }

  /** The display line with notes is the one without, or that line followed by " - " and more. */
  lemma RenderWithNotes(m: Marker)
    ensures NotesExtend(Render(m, false), Render(m, true))
  {
    var without := Render(m, false);
    if m.notes.Some? && m.notes.value != "" {
      assert Render(m, true) == without + " - " + m.notes.value;
      assert (without + " - " + m.notes.value)[..|without| + 3] == without + " - ";
    }
  }

  // ---------------------------------------------------------------------------
  // Lines the conversion never looks at
  // ---------------------------------------------------------------------------

  /** A candidate depends only on its own line and the line after it. */
  lemma StepReadsTwoLines(lines: seq<string>, other: seq<string>, i: int, filter: string, includeNotes: bool)
    requires 0 <= i < |lines| - 1 && 0 <= i < |other| - 1
    requires lines[i] == other[i] && lines[i + 1] == other[i + 1]
    ensures Step(lines, i, filter, includeNotes) == Step(other, i, filter, includeNotes)
  {
  }

  /**
   * The first three lines (the export's title and header lines) never
   * matter: two files of the same length that agree from line 3 on convert
   * alike.
   */
  lemma HeaderLinesIgnored(lines: seq<string>, other: seq<string>, filter: string, includeNotes: bool)
    requires |lines| == |other|
    requires forall j :: 3 <= j < |lines| ==> lines[j] == other[j]
    ensures Convert(lines, filter, includeNotes) == Convert(other, filter, includeNotes)
  {
    hide Step;
    var outs := Outcomes(lines, |lines| - 1, filter, includeNotes);
    var outs' := Outcomes(other, |other| - 1, filter, includeNotes);
    forall k | 0 <= k < |outs|
      ensures outs[k] == outs'[k]
    {
      OutcomeAt(lines, |lines| - 1, k, filter, includeNotes);
      OutcomeAt(other, |other| - 1, k, filter, includeNotes);
      StepReadsTwoLines(lines, other, k + 3, filter, includeNotes);
    }
    assert outs == outs';
  }

  /**
   * The last line is only ever read as the metadata of the line before it:
   * appending a line to a file adds at most one listed line, the one of the
   * former last line, and keeps every earlier line in place.
   */
  lemma AppendedLineAddsAtMostOne(lines: seq<string>, extra: string, filter: string, includeNotes: bool)
    requires |lines| >= 4
    requires Convert(lines + [extra], filter, includeNotes).Success?
    ensures Convert(lines, filter, includeNotes).Success?
    ensures var before := Convert(lines, filter, includeNotes).value;
            var after := Convert(lines + [extra], filter, includeNotes).value;
            before <= after && |after| <= |before| + 1
  {
    hide Step;
    var longer := lines + [extra];
    var outs := Outcomes(lines, |lines| - 1, filter, includeNotes);
    OutcomesIgnoreAppended(lines, extra, filter, includeNotes);
    OutcomesSnoc(longer, |lines| - 1, filter, includeNotes);
    var last := Step(longer, |lines| - 1, filter, includeNotes);
    CollectSnoc(outs, last);
    CollectPrefix(outs, [last]);
  }

  /** Appending a line changes none of the outcomes of the candidates before the former last line. */
  lemma OutcomesIgnoreAppended(lines: seq<string>, extra: string, filter: string, includeNotes: bool)
    requires |lines| >= 4
    ensures Outcomes(lines, |lines| - 1, filter, includeNotes) == Outcomes(lines + [extra], |lines| - 1, filter, includeNotes)
  {
    hide Step;
    var longer := lines + [extra];
    var outs := Outcomes(lines, |lines| - 1, filter, includeNotes);
    var outs' := Outcomes(longer, |lines| - 1, filter, includeNotes);
    forall k | 0 <= k < |outs|
      ensures outs[k] == outs'[k]
    {
      OutcomeAt(lines, |lines| - 1, k, filter, includeNotes);
      OutcomeAt(longer, |lines| - 1, k, filter, includeNotes);
      StepReadsTwoLines(lines, longer, k + 3, filter, includeNotes);
    }
  }
}
