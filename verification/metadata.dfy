/**
 * The metadata line of a marker record: the optional free-text notes before
 * the first '|', and the '|'-separated `key:value` pairs after it, gathered
 * into a dictionary that refuses a repeated key.
 */
module Metadata {
  import opened Wrappers
  import opened Text

  // ---------------------------------------------------------------------------
  // Notes
  // ---------------------------------------------------------------------------

  /**
   * Separates the notes from the metadata. Unless the line starts with " |",
   * a '|' in it splits it: the trimmed text before the first '|' is the
   * notes and '|' followed by the rest is the metadata. Otherwise there are
   * no notes (the source's `null`) and the whole line is the metadata.
   */
  function SplitNotes(next: string): (r: (Option<string>, string))
    ensures r.0.Some? <==> '|' in next && !StartsWith(next, " |")
    ensures r.0.None? ==> r.1 == next
    ensures r.0.Some? ==> IsTrimmed(r.0.value) && |r.1| >= 1 && r.1[0] == '|'
  {
    if !StartsWith(next, " |") then
      match SplitFirst(next, '|')
      case Some(parts) => (Some(Trim(parts.0)), "|" + parts.1)
      case None => (None, next)
    else (None, next)
  }

  /** A trimmed line never starts with a space, so the " |" guard, compared character by character, never applies to one. */
  lemma NotesGuardInert(next: string)
    requires IsTrimmed(next)
    ensures !StartsWith(next, " |")
  {
  }

  /**
   * Unless the guard applies, the notes are the trimmed text before the
   * first '|' and the metadata keeps the rest.
   */
  lemma NotesBeforeFirstPipe(before: string, after: string)
    requires '|' !in before
    requires !StartsWith(before + "|" + after, " |")
    ensures SplitNotes(before + "|" + after) == (Some(Trim(before)), "|" + after)
  {
    SplitFirstUnique(before, after, '|');
  }

  // ---------------------------------------------------------------------------
  // key:value pairs
  // ---------------------------------------------------------------------------

  /**
   * One segment between '|'s: trimmed and split at its first ':' into a
   * trimmed key and a trimmed value; None when it has no ':'.
   */
  function SegmentPair(seg: string): (r: Option<(string, string)>)
    ensures r.Some? ==> IsTrimmed(r.value.0) && IsTrimmed(r.value.1)
  {
    match SplitFirst(Trim(seg), ':')
    case None => None
    case Some(parts) => Some((Trim(parts.0), Trim(parts.1)))
  }

  /**
   * A segment with a ':' gives the trimmed text before its first ':' as the
   * key and the trimmed rest as the value, whatever whitespace surrounds them.
   */
  lemma SegmentPairOf(k: string, v: string)
    requires ':' !in k
    ensures SegmentPair(k + ":" + v) == Some((Trim(k), Trim(v)))
  {
    hide Trim, SegmentPair, AllWhite, IsTrimmed;
    var p1, K, q1 := SplitPadding(k);
    var p2, V, q2 := SplitPadding(v);
    if V == "" {
      p2, q2 := "", p2;
      assert v == p2 + V + q2;
    }
    TrimPadded(p1, K, q1);
    TrimPadded(p2, V, q2);
    ColonOutsideCore(p1, K, q1);
    SegmentPairPadded(p1, K, q1, p2, V, q2);
    assert k + ":" + v == p1 + K + q1 + ":" + p2 + V + q2;
  }

  lemma ColonOutsideCore(p: string, t: string, q: string)
    requires AllWhite(q) && ':' !in p + t + q
    ensures ':' !in t && ':' !in q
  {
    assert forall j :: 0 <= j < |t| ==> t[j] == (p + t + q)[|p| + j];
  }

  /** The same, for a segment given as its key and value with the whitespace around each. */
  lemma SegmentPairPadded(p1: string, K: string, q1: string, p2: string, V: string, q2: string)
    requires AllWhite(p1) && AllWhite(q1) && AllWhite(p2) && AllWhite(q2)
    requires IsTrimmed(K) && IsTrimmed(V) && ':' !in K && ':' !in q1
    requires K == "" ==> q1 == ""
    requires V == "" ==> p2 == ""
    ensures SegmentPair(p1 + K + q1 + ":" + p2 + V + q2) == Some((K, V))
  {
    PaddedSegmentTrims(p1, K, q1, p2, V, q2);
    CoreSegmentSplits(K, q1, p2, V);
  }

  lemma PaddedSegmentTrims(p1: string, K: string, q1: string, p2: string, V: string, q2: string)
    requires AllWhite(p1) && AllWhite(q2) && IsTrimmed(K) && IsTrimmed(V)
    requires K == "" ==> q1 == ""
    requires V == "" ==> p2 == ""
    ensures Trim(p1 + K + q1 + ":" + p2 + V + q2) == K + q1 + [':'] + (p2 + V)
  {
    hide Trim, AllWhite, IsTrimmed;
    var m := K + q1 + [':'] + (p2 + V);
    assert p1 + K + q1 + ":" + p2 + V + q2 == p1 + m + q2;
    MiddleTrimmed(K, q1, p2, V);
    TrimPadded(p1, m, q2);
  }

  lemma CoreSegmentSplits(K: string, q1: string, p2: string, V: string)
    requires AllWhite(q1) && AllWhite(p2) && IsTrimmed(K) && IsTrimmed(V) && ':' !in K && ':' !in q1
    ensures SplitFirst(K + q1 + [':'] + (p2 + V), ':') == Some((K + q1, p2 + V))
    ensures Trim(K + q1) == K && Trim(p2 + V) == V
  {
    assert "" + K + q1 == K + q1;
    assert p2 + V + "" == p2 + V;
    SplitFirstUnique(K + q1, p2 + V, ':');
    TrimPadded("", K, q1);
    TrimPadded(p2, V, "");
  }

  lemma MiddleTrimmed(K: string, q1: string, p2: string, V: string)
    requires IsTrimmed(K) && IsTrimmed(V)
    requires K == "" ==> q1 == ""
    requires V == "" ==> p2 == ""
    ensures IsTrimmed(K + q1 + [':'] + (p2 + V))
  {
    var m := K + q1 + [':'] + (p2 + V);
    if K != "" { assert m[0] == K[0]; } else { assert m[0] == ':'; }
    if V != "" { assert m[|m| - 1] == V[|V| - 1]; } else { assert m[|m| - 1] == ':'; }
  }

  /** A segment with a ':' gives exactly one pair. */
  lemma SegmentPairsOf(k: string, v: string)
    requires ':' !in k
    ensures SegmentPairs(k + ":" + v) == [(Trim(k), Trim(v))]
  {
    SegmentPairOf(k, v);
    assert (k + ":" + v)[|k|] == ':';
  }

  /** A segment without ':' gives no pair. */
  lemma SegmentWithoutColon(seg: string)
    requires ':' !in seg
    ensures SegmentPairs(seg) == []
  {
    TrimKeepsOut(seg, ':');
  }

  /** The pair of one segment, if it is non-empty and has a ':'. */
  function SegmentPairs(seg: string): seq<(string, string)>
  {
    if seg == "" then []
    else match SegmentPair(seg)
      case None => []
      case Some(p) => [p]
  }

  /** The pairs of the non-empty segments that have a ':', in order. */
  function PairsOf(segs: seq<string>): (r: seq<(string, string)>)
    ensures |r| <= |segs|
  {
    if |segs| == 0 then [] else SegmentPairs(segs[0]) + PairsOf(segs[1..])
  }

  /** The pairs of a metadata line, in order, before they are put into a dictionary. */
  function MetaPairs(line: string): seq<(string, string)>
  {
    PairsOf(SplitAll(line, '|'))
  }

  /** Keys and values are trimmed and free of '|', and no key holds a ':'. */
  predicate CleanPair(p: (string, string)) {
    IsTrimmed(p.0) && IsTrimmed(p.1) && ':' !in p.0 && '|' !in p.0 && '|' !in p.1
  }

  lemma {:induction false} PairsOfClean(segs: seq<string>)
    requires forall j :: 0 <= j < |segs| ==> '|' !in segs[j]
    ensures forall k :: 0 <= k < |PairsOf(segs)| ==> CleanPair(PairsOf(segs)[k])
  {
    if |segs| > 0 {
      var rest := segs[1..];
      assert forall j :: 0 <= j < |rest| ==> rest[j] == segs[j + 1];
      PairsOfClean(rest);
      var h, t := SegmentPairs(segs[0]), PairsOf(rest);
      SegmentPairsClean(segs[0]);
      assert PairsOf(segs) == h + t;
      forall k | 0 <= k < |h + t| ensures CleanPair((h + t)[k]) {
        if k >= |h| {
          assert (h + t)[k] == t[k - |h|];
        }
      }
    }
  }

  lemma SegmentPairsClean(seg: string)
    requires '|' !in seg
    ensures forall k :: 0 <= k < |SegmentPairs(seg)| ==> CleanPair(SegmentPairs(seg)[k])
  {
    var t := Trim(seg);
    TrimKeepsOut(seg, '|');
    match SplitFirst(t, ':')
    case None =>
    case Some(parts) =>
      TrimKeepsOut(parts.0, '|');
      TrimKeepsOut(parts.1, '|');
      TrimKeepsOut(parts.0, ':');
  }

  /** Every pair of a metadata line is clean. */
  lemma MetaPairsClean(line: string)
    ensures forall k :: 0 <= k < |MetaPairs(line)| ==> CleanPair(MetaPairs(line)[k])
  {
    PairsOfClean(SplitAll(line, '|'));
  }

  predicate DistinctKeys(pairs: seq<(string, string)>) {
    forall i, j :: 0 <= i < j < |pairs| ==> pairs[i].0 != pairs[j].0
  }

  function KeysOf(pairs: seq<(string, string)>): set<string> {
    set k | 0 <= k < |pairs| :: pairs[k].0
  }

  /**
   * `ToDictionary`: adds the pairs in order and fails with the key of the
   * first pair whose key is already present.
   */
  function ToDictionary(pairs: seq<(string, string)>): Result<map<string, string>, string>
  {
    if |pairs| == 0 then Success(map[])
    else match ToDictionary(pairs[..|pairs| - 1])
      case Failure(e) => Failure(e)
      case Success(m) =>
        var last := pairs[|pairs| - 1];
        if last.0 in m then Failure(last.0) else Success(m[last.0 := last.1])
  }

  /**
   * The dictionary is built exactly when no key repeats; it then has exactly
   * the keys of the pairs, each with its value. A failure names a repeated key.
   */
  lemma ToDictionaryCorrect(pairs: seq<(string, string)>)
    ensures ToDictionary(pairs).Success? <==> DistinctKeys(pairs)
    ensures ToDictionary(pairs).Success? ==> ToDictionary(pairs).value.Keys == KeysOf(pairs)
    ensures ToDictionary(pairs).Success? ==> forall k :: 0 <= k < |pairs| ==>
              pairs[k].0 in ToDictionary(pairs).value && ToDictionary(pairs).value[pairs[k].0] == pairs[k].1
    ensures ToDictionary(pairs).Failure? ==>
              exists i, j :: 0 <= i < j < |pairs| && pairs[i].0 == ToDictionary(pairs).error && pairs[j].0 == ToDictionary(pairs).error
  {
    if ToDictionary(pairs).Success? {
      ToDictionaryBuilt(pairs);
    }
    ToDictionaryRepeated(pairs);
  }

  /** A dictionary that is built holds every pair, and its keys never repeated. */
  lemma {:induction false} ToDictionaryBuilt(pairs: seq<(string, string)>)
    requires ToDictionary(pairs).Success?
    ensures DistinctKeys(pairs)
    ensures ToDictionary(pairs).value.Keys == KeysOf(pairs)
    ensures forall k :: 0 <= k < |pairs| ==>
              pairs[k].0 in ToDictionary(pairs).value && ToDictionary(pairs).value[pairs[k].0] == pairs[k].1
  {
    if |pairs| > 0 {
      var init := pairs[..|pairs| - 1];
      var last := pairs[|pairs| - 1];
      ToDictionaryBuilt(init);
      DistinctKeysSnoc(pairs);
      var m := ToDictionary(init).value;
      var full := m[last.0 := last.1];
      forall k | 0 <= k < |pairs|
        ensures pairs[k].0 in full && full[pairs[k].0] == pairs[k].1
      {
        if k < |init| {
          assert pairs[k] == init[k] && pairs[k].0 != last.0 by {
            assert init[k].0 in KeysOf(init);
          }
        }
      }
    } else {
      assert KeysOf(pairs) == {};
    }
  }

  /** A dictionary that is not built names a key that occurs twice. */
  lemma {:induction false} ToDictionaryRepeated(pairs: seq<(string, string)>)
    ensures ToDictionary(pairs).Failure? ==>
              exists i, j :: 0 <= i < j < |pairs| && pairs[i].0 == ToDictionary(pairs).error && pairs[j].0 == ToDictionary(pairs).error
  {
    if |pairs| > 0 {
      var init := pairs[..|pairs| - 1];
      var last := pairs[|pairs| - 1];
      ToDictionaryRepeated(init);
      assert forall k :: 0 <= k < |init| ==> init[k] == pairs[k];
      match ToDictionary(init)
      case Failure(e) =>
        var i, j :| 0 <= i < j < |init| && init[i].0 == e && init[j].0 == e;
        assert pairs[i].0 == e && pairs[j].0 == e;
      case Success(m) =>
        if last.0 in m {
          ToDictionaryBuilt(init);
          var i :| 0 <= i < |init| && init[i].0 == last.0;
          assert pairs[i].0 == last.0;
        }
    }
  }

  lemma DistinctKeysSnoc(pairs: seq<(string, string)>)
    requires |pairs| > 0
    ensures DistinctKeys(pairs) <==>
      DistinctKeys(pairs[..|pairs| - 1]) && pairs[|pairs| - 1].0 !in KeysOf(pairs[..|pairs| - 1])
    ensures KeysOf(pairs) == KeysOf(pairs[..|pairs| - 1]) + {pairs[|pairs| - 1].0}
  {
    var init := pairs[..|pairs| - 1];
    assert forall k :: 0 <= k < |init| ==> init[k] == pairs[k];
    assert forall k :: 0 <= k < |init| ==> init[k].0 in KeysOf(pairs);
    assert pairs[|pairs| - 1].0 in KeysOf(pairs);
  }

  /** The dictionary of a metadata line, or the key it repeats. */
  function ParseMeta(line: string): Result<map<string, string>, string>
  {
    ToDictionary(MetaPairs(line))
  }

  // ---------------------------------------------------------------------------
  // Properties of the metadata parser
  // ---------------------------------------------------------------------------

  /** A segment free of '|' contributes its own pair ahead of the pairs of the rest of the line. */
  lemma MetaPairsCons(seg: string, rest: string)
    requires '|' !in seg
    ensures MetaPairs(seg + "|" + rest) == PairsOf([seg]) + MetaPairs(rest)
  {
    SplitAllCons(seg, rest, '|');
    var x := SplitAll(rest, '|');
    assert ([seg] + x)[1..] == x;
    assert PairsOf([seg]) == SegmentPairs(seg) by {
      assert [seg][1..] == [];
    }
  }

  /** The '|' put back in front of the metadata adds no pair. */
  lemma MetaSkipsLeadingPipe(rest: string)
    ensures MetaPairs("|" + rest) == MetaPairs(rest)
  {
    MetaPairsCons("", rest);
    assert "" + "|" + rest == "|" + rest;
  }

  /** The metadata after the notes: '|' and then the segments between '|'s give the pairs of those segments. */
  lemma MetaPairsOfSegments(segs: seq<string>)
    requires |segs| >= 1
    requires forall k :: 0 <= k < |segs| ==> '|' !in segs[k]
    ensures MetaPairs("|" + Join(segs, '|')) == PairsOf(segs)
  {
    MetaSkipsLeadingPipe(Join(segs, '|'));
    SplitAllJoin(segs, '|');
  }

  /** A line without '|' is a single segment, so it yields at most one pair. */
  lemma NoPipeAtMostOnePair(line: string)
    requires '|' !in line
    ensures |MetaPairs(line)| <= 1
  {
    SplitAllNoSeparator(line, '|');
  }

  /** A line without '|' can never hold both an "M" and a "C" key. */
  lemma NoPipeLacksMarkerOrColor(line: string)
    requires '|' !in line
    requires ParseMeta(line).Success?
    ensures !("M" in ParseMeta(line).value && "C" in ParseMeta(line).value)
  {
    NoPipeAtMostOnePair(line);
    ToDictionaryCorrect(MetaPairs(line));
  }

  /** The metadata line an export writes for some pairs: "|key:value" for each. */
  function RenderMeta(pairs: seq<(string, string)>): string
  {
    if |pairs| == 0 then "" else "|" + pairs[0].0 + ":" + pairs[0].1 + RenderMeta(pairs[1..])
  }

  lemma SegmentPairOfRendered(p: (string, string))
    requires CleanPair(p)
    ensures PairsOf([p.0 + ":" + p.1]) == [p]
  {
    var seg := p.0 + ":" + p.1;
    assert seg[0] == if |p.0| > 0 then p.0[0] else ':';
    assert seg[|seg| - 1] == if |p.1| > 0 then p.1[|p.1| - 1] else ':';
    TrimTrimmed(seg);
    SplitFirstUnique(p.0, p.1, ':');
    TrimTrimmed(p.0);
    TrimTrimmed(p.1);
    assert SegmentPair(seg) == Some(p);
    assert [seg][1..] == [];
  }

  /** A segment followed by rendered pairs parses as that segment's pair and then those pairs. */
  lemma {:induction false} MetaPairsRendered(seg: string, ps: seq<(string, string)>)
    requires '|' !in seg
    requires forall k :: 0 <= k < |ps| ==> CleanPair(ps[k])
    ensures MetaPairs(seg + RenderMeta(ps)) == PairsOf([seg]) + ps
    decreases |ps|
  {
    if |ps| == 0 {
      assert seg + RenderMeta(ps) == seg;
      SplitAllNoSeparator(seg, '|');
    } else {
      assert ps == [ps[0]] + ps[1..];
      var s1 := ps[0].0 + ":" + ps[0].1;
      var tail := RenderMeta(ps[1..]);
      assert '|' !in s1 by {
        assert CleanPair(ps[0]);
      }
      assert seg + RenderMeta(ps) == seg + "|" + (s1 + tail) by {
        assert RenderMeta(ps) == "|" + ps[0].0 + ":" + ps[0].1 + tail;
      }
      MetaPairsCons(seg, s1 + tail);
      assert forall k :: 0 <= k < |ps[1..]| ==> CleanPair(ps[1..][k]) by {
        assert forall k :: 0 <= k < |ps[1..]| ==> ps[1..][k] == ps[k + 1];
      }
      MetaPairsRendered(s1, ps[1..]);
      SegmentPairOfRendered(ps[0]);
    }
  }

  /** Parsing rendered metadata gives back the pairs, in order. */
  lemma MetaRoundTrip(pairs: seq<(string, string)>)
    requires forall k :: 0 <= k < |pairs| ==> CleanPair(pairs[k])
    ensures MetaPairs(RenderMeta(pairs)) == pairs
  {
    MetaPairsRendered("", pairs);
    assert "" + RenderMeta(pairs) == RenderMeta(pairs);
    assert PairsOf([""]) == [] by {
      assert [""][1..] == [];
    }
  }
}
