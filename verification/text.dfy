/**
 * The string primitives the converter relies on: trimming, splitting on a
 * separator character, and the integer parsing and `D2` formatting of the
 * timecode hour. Whitespace and digits are the ASCII ones.
 */
module Text {
  import opened Wrappers

  // ---------------------------------------------------------------------------
  // Whitespace and trimming
  // ---------------------------------------------------------------------------

  /** Space, tab, line feed, vertical tab, form feed and carriage return. */
  predicate IsWhite(c: char) {
    c == ' ' || '\t' <= c <= '\r'
  }

  /** True when every character of `s` is whitespace (`string.IsNullOrWhiteSpace`). */
  predicate AllWhite(s: string) {
    forall k :: 0 <= k < |s| ==> IsWhite(s[k])
  }

  /** Neither the first nor the last character is whitespace. */
  predicate IsTrimmed(s: string) {
    |s| == 0 || (!IsWhite(s[0]) && !IsWhite(s[|s| - 1]))
  }

  /** `string.Trim()`: drops leading and trailing whitespace. */
  function Trim(s: string): (r: string)
    ensures IsTrimmed(r)
    ensures |r| == 0 <==> AllWhite(s)
  {
    if |s| > 0 && IsWhite(s[0]) then Trim(s[1..])
    else if |s| > 0 && IsWhite(s[|s| - 1]) then Trim(s[..|s| - 1])
    else s
  }

  /** Trimming only removes characters. */
  lemma {:induction false} TrimKeepsOut(s: string, c: char)
    requires c !in s
    ensures c !in Trim(s)
  {
    if |s| > 0 && IsWhite(s[0]) {
      TrimKeepsOut(s[1..], c);
    } else if |s| > 0 && IsWhite(s[|s| - 1]) {
      TrimKeepsOut(s[..|s| - 1], c);
    }
  }

  /** Trimming recovers any trimmed text from whatever whitespace surrounds it. */
  lemma {:induction false} TrimPadded(p: string, t: string, q: string)
    requires AllWhite(p) && AllWhite(q) && IsTrimmed(t)
    ensures Trim(p + t + q) == t
    decreases |p| + |q|
  {
    var s := p + t + q;
    if |p| > 0 {
      assert s[0] == p[0] && s[1..] == p[1..] + t + q;
      TrimPadded(p[1..], t, q);
    } else if |q| > 0 {
      assert s == t + q;
      assert s[|s| - 1] == q[|q| - 1] && s[..|s| - 1] == p + t + q[..|q| - 1];
      if |t| > 0 {
        assert s[0] == t[0];
      } else {
        assert s[1..] == p + t + q[1..];
        TrimPadded(p, t, q[1..]);
        return;
      }
      TrimPadded(p, t, q[..|q| - 1]);
    } else {
      assert s == t;
    }
  }

  /** Trimming text that is already trimmed changes nothing; in particular `Trim` is idempotent. */
  lemma TrimTrimmed(t: string)
    requires IsTrimmed(t)
    ensures Trim(t) == t
  {
    TrimPadded("", t, "");
    assert "" + t + "" == t;
  }

  /** Trimming keeps a leading non-whitespace character in front. */
  lemma {:induction false} TrimKeepsFirst(c: char, rest: string)
    requires !IsWhite(c)
    ensures |Trim([c] + rest)| > 0 && Trim([c] + rest)[0] == c
    decreases |rest|
  {
    var s := [c] + rest;
    if IsWhite(s[|s| - 1]) {
      assert |rest| > 0;
      assert s[..|s| - 1] == [c] + rest[..|rest| - 1];
      TrimKeepsFirst(c, rest[..|rest| - 1]);
    }
  }

  /** The first character of a trimmed line is its first non-whitespace character. */
  lemma {:induction false} TrimFirstChar(p: string, c: char, rest: string)
    requires AllWhite(p) && !IsWhite(c)
    ensures |Trim(p + [c] + rest)| > 0 && Trim(p + [c] + rest)[0] == c
    decreases |p|
  {
    var s := p + [c] + rest;
    if |p| > 0 {
      assert s[0] == p[0] && s[1..] == p[1..] + [c] + rest;
      TrimFirstChar(p[1..], c, rest);
    } else {
      assert s == [c] + rest;
      TrimKeepsFirst(c, rest);
    }
  }

  /**
   * Any text is a trimmed core with whitespace before and after it (the core
   * is `Trim`'s result, by TrimPadded); when the core is empty, all the
   * whitespace counts as leading.
   */
  lemma {:induction false} SplitPadding(s: string) returns (p: string, t: string, q: string)
    ensures AllWhite(p) && IsTrimmed(t) && AllWhite(q) && s == p + t + q
    ensures t == "" ==> q == ""
    decreases |s|
  {
    if AllWhite(s) {
      p, t, q := s, "", "";
      assert s == s + "" + "";
    } else if IsWhite(s[0]) {
      var p1, t1, q1 := SplitPadding(s[1..]);
      p, t, q := [s[0]] + p1, t1, q1;
      WhiteInFront(s[0], s[1..], p1, t1, q1);
      assert s == [s[0]] + s[1..];
    } else if IsWhite(s[|s| - 1]) {
      var p1, t1, q1 := SplitPadding(s[..|s| - 1]);
      p, t, q := p1, t1, q1 + [s[|s| - 1]];
      WhiteBehind(s[..|s| - 1], s[|s| - 1], p1, t1, q1);
      assert s == s[..|s| - 1] + [s[|s| - 1]];
    } else {
      p, t, q := "", s, "";
      assert s == "" + s + "";
    }
  }

  lemma WhiteInFront(c: char, rest: string, p1: string, t: string, q1: string)
    requires IsWhite(c) && AllWhite(p1) && rest == p1 + t + q1
    ensures AllWhite([c] + p1) && [c] + rest == [c] + p1 + t + q1
  {
    assert forall k :: 1 <= k < |p1| + 1 ==> ([c] + p1)[k] == p1[k - 1];
  }

  lemma WhiteBehind(init: string, c: char, p1: string, t: string, q1: string)
    requires IsWhite(c) && AllWhite(q1) && init == p1 + t + q1
    ensures AllWhite(q1 + [c]) && init + [c] == p1 + t + (q1 + [c])
  {
    assert forall k :: 0 <= k < |q1| ==> (q1 + [c])[k] == q1[k];
  }

  /**
   * `s.StartsWith(p)`, comparing character by character. (.NET's
   * `StartsWith(string)` compares under the current culture.)
   */
  predicate StartsWith(s: string, p: string) {
    |p| <= |s| && s[..|p|] == p
  }

  // ---------------------------------------------------------------------------
  // Splitting on a separator character
  // ---------------------------------------------------------------------------

  /**
   * `s.Split(c, 2)`: None when `c` does not occur (one part), otherwise the
   * text before the first `c` and everything after it.
   */
  function SplitFirst(s: string, c: char): (r: Option<(string, string)>)
    ensures r.None? <==> c !in s
    ensures r.Some? ==> s == r.value.0 + [c] + r.value.1 && c !in r.value.0
  {
    if |s| == 0 then None
    else if s[0] == c then Some(([], s[1..]))
    else match SplitFirst(s[1..], c)
      case None => None
      case Some(parts) => Some(([s[0]] + parts.0, parts.1))
  }

  /** The split at the first separator is the only one whose left part has no separator. */
  lemma {:induction false} SplitFirstUnique(a: string, b: string, c: char)
    requires c !in a
    ensures SplitFirst(a + [c] + b, c) == Some((a, b))
  {
    if |a| > 0 {
      assert (a + [c] + b)[1..] == a[1..] + [c] + b;
      SplitFirstUnique(a[1..], b, c);
      assert [a[0]] + a[1..] == a;
    } else {
      assert a + [c] + b == [c] + b;
    }
  }

  /** `s.Split(c)`: every part between separators, empty ones included. */
  function SplitAll(s: string, c: char): (r: seq<string>)
    ensures |r| >= 1
    ensures forall k :: 0 <= k < |r| ==> c !in r[k]
    decreases |s|
  {
    match SplitFirst(s, c)
    case None => [s]
    case Some(parts) => [parts.0] + SplitAll(parts.1, c)
  }

  /** `string.Join(c, parts)`. */
  function Join(parts: seq<string>, c: char): string
  {
    if |parts| == 0 then ""
    else if |parts| == 1 then parts[0]
    else parts[0] + [c] + Join(parts[1..], c)
  }

  lemma SplitAllNoSeparator(s: string, c: char)
    requires c !in s
    ensures SplitAll(s, c) == [s]
  {
  }

  /** Splitting peels off the text before the first separator. */
  lemma SplitAllCons(a: string, b: string, c: char)
    requires c !in a
    ensures SplitAll(a + [c] + b, c) == [a] + SplitAll(b, c)
  {
    SplitFirstUnique(a, b, c);
  }

  /** Joining the parts with the separator gives back the string that was split. */
  lemma {:induction false} JoinSplitAll(s: string, c: char)
    ensures Join(SplitAll(s, c), c) == s
    decreases |s|
  {
    match SplitFirst(s, c)
    case None =>
    case Some(parts) =>
      JoinSplitAll(parts.1, c);
      var r := SplitAll(s, c);
      assert r[1..] == SplitAll(parts.1, c);
  }

  /** Splitting the join of separator-free parts gives back exactly those parts. */
  lemma {:induction false} SplitAllJoin(parts: seq<string>, c: char)
    requires |parts| >= 1
    requires forall k :: 0 <= k < |parts| ==> c !in parts[k]
    ensures SplitAll(Join(parts, c), c) == parts
  {
    if |parts| > 1 {
      SplitAllJoin(parts[1..], c);
      SplitAllCons(parts[0], Join(parts[1..], c), c);
      assert [parts[0]] + parts[1..] == parts;
    }
  }

  /** Drops the empty strings (`StringSplitOptions.RemoveEmptyEntries`). */
  function RemoveEmpty(parts: seq<string>): (r: seq<string>)
    ensures |r| <= |parts|
    ensures forall k :: 0 <= k < |r| ==> r[k] != "" && r[k] in parts
  {
    if |parts| == 0 then []
    else if parts[0] == "" then RemoveEmpty(parts[1..])
    else [parts[0]] + RemoveEmpty(parts[1..])
  }

  lemma {:induction false} RemoveEmptyAppend(x: seq<string>, y: seq<string>)
    ensures RemoveEmpty(x + y) == RemoveEmpty(x) + RemoveEmpty(y)
  {
    if |x| > 0 {
      assert (x + y)[1..] == x[1..] + y;
      RemoveEmptyAppend(x[1..], y);
    } else {
      assert x + y == y;
    }
  }

  /** `s.Split(c, StringSplitOptions.RemoveEmptyEntries)`. */
  function SplitRemoveEmpty(s: string, c: char): (r: seq<string>)
    ensures forall k :: 0 <= k < |r| ==> r[k] != "" && c !in r[k]
  {
    RemoveEmpty(SplitAll(s, c))
  }

  /** Non-empty separator-free tokens joined by one separator split back into the same tokens. */
  lemma SplitRemoveEmptyJoin(tokens: seq<string>, c: char)
    requires |tokens| >= 1
    requires forall k :: 0 <= k < |tokens| ==> tokens[k] != "" && c !in tokens[k]
    ensures SplitRemoveEmpty(Join(tokens, c), c) == tokens
  {
    SplitAllJoin(tokens, c);
    RemoveEmptyNone(tokens);
  }

  lemma {:induction false} RemoveEmptyNone(parts: seq<string>)
    requires forall k :: 0 <= k < |parts| ==> parts[k] != ""
    ensures RemoveEmpty(parts) == parts
  {
    if |parts| > 0 {
      RemoveEmptyNone(parts[1..]);
      assert [parts[0]] + parts[1..] == parts;
    }
  }

  /** A run of two separators splits exactly like a single one. */
  lemma {:induction false} SplitRemoveEmptyCollapse(a: string, b: string, c: char)
    ensures SplitRemoveEmpty(a + [c, c] + b, c) == SplitRemoveEmpty(a + [c] + b, c)
    decreases |a|
  {
    match SplitFirst(a, c)
    case None =>
      assert a + [c, c] + b == a + [c] + ([c] + b);
      SplitAllCons(a, [c] + b, c);
      assert [c] + b == [] + [c] + b;
      SplitAllCons([], b, c);
      SplitAllCons(a, b, c);
      assert SplitAll(a + [c, c] + b, c) == [a] + ([""] + SplitAll(b, c));
      RemoveEmptyAppend([a], [""] + SplitAll(b, c));
      RemoveEmptyAppend([a], SplitAll(b, c));
    case Some(parts) =>
      var a1, a2 := parts.0, parts.1;
      assert a + [c, c] + b == a1 + [c] + (a2 + [c, c] + b);
      assert a + [c] + b == a1 + [c] + (a2 + [c] + b);
      SplitAllCons(a1, a2 + [c, c] + b, c);
      SplitAllCons(a1, a2 + [c] + b, c);
      SplitRemoveEmptyCollapse(a2, b, c);
      RemoveEmptyAppend([a1], SplitAll(a2 + [c, c] + b, c));
      RemoveEmptyAppend([a1], SplitAll(a2 + [c] + b, c));
  }

  // ---------------------------------------------------------------------------
  // Integers: parsing and the `D2` format
  // ---------------------------------------------------------------------------

  /** `char.IsDigit`, restricted to ASCII. */
  predicate IsDigit(c: char) {
    '0' <= c <= '9'
  }

  predicate AllDigits(s: string) {
    forall k :: 0 <= k < |s| ==> IsDigit(s[k])
  }

  function DigitValue(c: char): (d: nat)
    requires IsDigit(c)
    ensures d < 10
  {
    (c as int) - ('0' as int)
  }

  function DigitChar(d: nat): (c: char)
    requires d < 10
    ensures IsDigit(c) && DigitValue(c) == d
  {
    (('0' as int) + d) as char
  }

  /** The number a string of decimal digits denotes, most significant digit first. */
  function DecimalValue(s: string): nat
    requires AllDigits(s)
  {
    if |s| == 0 then 0 else DecimalValue(s[..|s| - 1]) * 10 + DigitValue(s[|s| - 1])
  }

  /** The shortest decimal rendering of `n`. */
  function NatToDecimal(n: nat): (r: string)
    ensures |r| >= 1 && AllDigits(r)
    ensures n < 10 <==> |r| == 1
    ensures n < 100 ==> |r| <= 2
    ensures n >= 1 ==> r[0] != '0'
  {
    if n < 10 then [DigitChar(n)] else NatToDecimal(n / 10) + [DigitChar(n % 10)]
  }

  lemma {:induction false} DecimalValueOfNatToDecimal(n: nat)
    ensures DecimalValue(NatToDecimal(n)) == n
  {
    var r := NatToDecimal(n);
    if n >= 10 {
      DecimalValueOfNatToDecimal(n / 10);
      assert r[..|r| - 1] == NatToDecimal(n / 10);
    } else {
      assert r[..0] == "";
    }
  }

  /** Leading zeros do not change the value of a digit string. */
  lemma {:induction false} DecimalValueLeadingZero(s: string)
    requires AllDigits(s)
    ensures DecimalValue("0" + s) == DecimalValue(s)
  {
    if |s| > 0 {
      assert ("0" + s)[..|"0" + s| - 1] == "0" + s[..|s| - 1];
      DecimalValueLeadingZero(s[..|s| - 1]);
    } else {
      assert ("0" + s)[..0] == "";
    }
  }

  /** The range of a C# `int`. */
  const IntMin: int := -0x8000_0000
  const IntMax: int := 0x7FFF_FFFF

  predicate IsInt(n: int) {
    IntMin <= n <= IntMax
  }

  /** The number an optional sign followed by at least one decimal digit denotes, unbounded. */
  function SignedValue(s: string): Option<int>
  {
    if |s| >= 2 && s[0] == '-' && AllDigits(s[1..]) then Some(-(DecimalValue(s[1..]) as int))
    else if |s| >= 2 && s[0] == '+' && AllDigits(s[1..]) then Some(DecimalValue(s[1..]))
    else if |s| >= 1 && AllDigits(s) then Some(DecimalValue(s))
    else None
  }

  /** An optional '-' or '+' followed by at least one decimal digit. */
  predicate IsNumeral(t: string) {
    (|t| >= 1 && AllDigits(t)) || (|t| >= 2 && (t[0] == '-' || t[0] == '+') && AllDigits(t[1..]))
  }

  /**
   * `int.Parse`: optional surrounding whitespace around an optional sign
   * and at least one decimal digit, denoting a number in the range of `int`;
   * None where .NET throws (a FormatException for the text, an
   * OverflowException for the range).
   */
  function ParseInt(s: string): (r: Option<int>)
    ensures r.Some? ==> IsInt(r.value)
    ensures r.Some? ==> IsNumeral(Trim(s))
    ensures AllWhite(s) ==> r.None?
  {
    var v := SignedValue(Trim(s));
    if v.Some? && IsInt(v.value) then v else None
  }

  /** A string of digits is read as its decimal value, unless that is beyond the range of `int`. */
  lemma ParseIntDigits(s: string)
    requires |s| >= 1 && AllDigits(s)
    ensures ParseInt(s) == if DecimalValue(s) <= IntMax then Some(DecimalValue(s)) else None
  {
    TrimTrimmed(s);
  }

  /**
   * What `int.Parse` accepts: digits with whitespace before and after them,
   * read as their value when that is an `int`.
   */
  lemma ParseIntUnsigned(p: string, d: string, q: string)
    requires AllWhite(p) && AllWhite(q)
    requires |d| >= 1 && AllDigits(d)
    ensures ParseInt(p + d + q) == if DecimalValue(d) <= IntMax then Some(DecimalValue(d)) else None
  {
    TrimPadded(p, d, q);
  }

  /**
   * What `int.Parse` accepts: a '-' or '+' sign followed by digits, with
   * whitespace before and after them, read as their signed value when that
   * is an `int`.
   */
  lemma ParseIntSigned(p: string, t: string, q: string)
    requires AllWhite(p) && AllWhite(q)
    requires |t| >= 2 && (t[0] == '-' || t[0] == '+') && AllDigits(t[1..])
    ensures t[0] == '+' ==> ParseInt(p + t + q) == if DecimalValue(t[1..]) <= IntMax then Some(DecimalValue(t[1..])) else None
    ensures t[0] == '-' ==> ParseInt(p + t + q) == if DecimalValue(t[1..]) <= -IntMin then Some(-(DecimalValue(t[1..]) as int)) else None
  {
    assert t[|t| - 1] == t[1..][|t| - 2];
    TrimPadded(p, t, q);
  }

  /** A digit string padded with a leading zero to at least two digits. */
  function PadTwo(d: string): string
  {
    if |d| < 2 then "0" + d else d
  }

  /**
   * .NET's `{n:D2}`: the magnitude in decimal, zero-padded to at least two
   * digits, preceded by '-' when `n` is negative (so -1 gives "-01").
   */
  function FormatD2(n: int): (r: string)
    ensures |r| >= 2
    ensures r[0] == '-' <==> n < 0
    ensures n >= 0 ==> AllDigits(r)
    ensures n < 0 ==> |r| >= 3 && AllDigits(r[1..])
    ensures 0 <= n < 100 ==> |r| == 2
    ensures -100 < n < 0 ==> |r| == 3
    ensures n >= 10 ==> r[0] != '0'
    ensures n <= -10 ==> r[1] != '0'
  {
    if n < 0 then "-" + PadTwo(NatToDecimal(-n)) else PadTwo(NatToDecimal(n))
  }

  /** The value of a padded rendering of `n` is `n`. */
  lemma PadTwoValue(n: nat)
    ensures |PadTwo(NatToDecimal(n))| >= 2 && AllDigits(PadTwo(NatToDecimal(n)))
    ensures DecimalValue(PadTwo(NatToDecimal(n))) == n
  {
    DecimalValueOfNatToDecimal(n);
    if n < 10 {
      DecimalValueLeadingZero(NatToDecimal(n));
    }
  }

  /** `int.Parse` reads back every `int` that `D2` writes. */
  lemma ParseFormatD2(n: int)
    requires IsInt(n)
    ensures ParseInt(FormatD2(n)) == Some(n)
  {
    if n < 0 {
      ParseNegativeD2(n);
    } else {
      PadTwoValue(n);
      ParseIntDigits(FormatD2(n));
    }
  }

  lemma ParseNegativeD2(n: int)
    requires IsInt(n) && n < 0
    ensures ParseInt(FormatD2(n)) == Some(n)
  {
    hide ParseInt, FormatD2, NatToDecimal, PadTwo, DecimalValue, AllDigits, Trim, SignedValue, IsNumeral;
    NegativeD2(n);
    var digits := PadTwo(NatToDecimal(-n));
    PadTwoValue(-n);
    ParseMinusDigits(digits);
  }

  /** A negative value is written as '-' and its padded magnitude. */
  lemma NegativeD2(n: int)
    requires n < 0
    ensures FormatD2(n) == "-" + PadTwo(NatToDecimal(-n))
  {
  }

  /** A '-' followed by digits is read as the negated value of the digits, when that is an `int`. */
  lemma ParseMinusDigits(digits: string)
    requires |digits| >= 1 && AllDigits(digits) && DecimalValue(digits) <= -IntMin
    ensures ParseInt("-" + digits) == Some(-(DecimalValue(digits) as int))
  {
    hide ParseInt, Trim, IsNumeral, AllWhite, AllDigits, DecimalValue;
    var t := "-" + digits;
    assert t[1..] == digits;
    ParseIntSigned("", t, "");
    assert "" + t + "" == t;
  }

}
