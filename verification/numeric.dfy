/**
  The numeric fallback for keywords missing from the catalog:
  strtol(name, &endptr, 10) on a 64-bit `long`, and the assignment of the
  result to the 32-bit attribute type.
 */
module Numeric {
  import opened Bytes

  const LONG_MIN: int := -0x8000_0000_0000_0000
  const LONG_MAX: int := 0x7FFF_FFFF_FFFF_FFFF
  const TWO_32: int := 0x1_0000_0000

  /** Number of leading isspace() bytes. */
  function SpacePrefix(s: seq<byte>): (n: nat)
    ensures n <= |s|
    ensures forall i | 0 <= i < n :: IsSpace(s[i])
    ensures n < |s| ==> !IsSpace(s[n])
  {
    if |s| > 0 && IsSpace(s[0]) then 1 + SpacePrefix(s[1..]) else 0
  }

  /** Number of leading decimal digits. */
  function DigitPrefix(s: seq<byte>): (n: nat)
    ensures n <= |s|
    ensures forall i | 0 <= i < n :: IsDigit(s[i])
    ensures n < |s| ==> !IsDigit(s[n])
  {
    if |s| > 0 && IsDigit(s[0]) then 1 + DigitPrefix(s[1..]) else 0
  }

  predicate AllDigits(d: seq<byte>)
  {
    forall i | 0 <= i < |d| :: IsDigit(d[i])
  }

  /** The value of a run of decimal digits, most significant digit first. */
  function DecimalValue(d: seq<byte>): nat
    requires AllDigits(d)
  {
    if |d| == 0 then 0 else 10 * DecimalValue(d[..|d| - 1]) + (d[|d| - 1] as int - 48)
  }

  /** strtol() saturates at the bounds of `long` when the digits overflow it. */
  function Saturate(v: int): (r: int)
    ensures LONG_MIN <= r <= LONG_MAX
    ensures LONG_MIN <= v <= LONG_MAX ==> r == v
    ensures v > LONG_MAX ==> r == LONG_MAX
    ensures v < LONG_MIN ==> r == LONG_MIN
  {
    if v > LONG_MAX then LONG_MAX else if v < LONG_MIN then LONG_MIN else v
  }

  /** What strtol() returns, and the offset endptr is left at. */
  datatype Conversion = Conversion(value: int, end: nat)

  /**
    strtol(s, &endptr, 10): optional leading white space, an optional sign,
    then decimal digits. Without any digit nothing is consumed and 0 is returned.
   */
  function StrToL(s: seq<byte>): (r: Conversion)
    ensures r.end <= |s|
    ensures LONG_MIN <= r.value <= LONG_MAX
    ensures r.end == 0 ==> r.value == 0
    ensures r.end > 0 ==> IsDigit(s[r.end - 1]) && (r.end == |s| || !IsDigit(s[r.end]))
  {
    var i := SpacePrefix(s);
    var signed := i < |s| && (s[i] == PLUS || s[i] == MINUS);
    var j := if signed then i + 1 else i;
    var n := DigitPrefix(s[j..]);
    if n == 0 then Conversion(0, 0)
    else
      var m: int := DecimalValue(s[j..j + n]);
      var v := if signed && s[i] == MINUS then -m else m;
      Conversion(Saturate(v), j + n)
  }

  /** Storing a `long` into the 32-bit attribute type keeps its low 32 bits (two's complement). */
  function ToInt32(v: int): (r: int)
    ensures -TWO_32 / 2 <= r < TWO_32 / 2
    ensures (v - r) % TWO_32 == 0
    ensures -TWO_32 / 2 <= v < TWO_32 / 2 ==> r == v
  {
    var w := v % TWO_32;
    if w >= TWO_32 / 2 then w - TWO_32 else w
  }

  predicate AllSpaces(s: seq<byte>)
  {
    forall i | 0 <= i < |s| :: IsSpace(s[i])
  }

  /** A decimal numeral, possibly signed: what strtol() can consume to the end. */
  predicate SignedDigits(t: seq<byte>)
  {
    || (|t| > 0 && AllDigits(t))
    || (|t| > 1 && (t[0] == PLUS || t[0] == MINUS) && AllDigits(t[1..]))
  }

  /** The name is white space followed by a signed decimal numeral. */
  ghost predicate IsNumeral(s: seq<byte>)
  {
    exists k | 0 <= k <= |s| :: AllSpaces(s[..k]) && SignedDigits(s[k..])
  }

  /** A run of spaces followed by a non-space is exactly what SpacePrefix counts. */
  lemma SpacePrefixIs(s: seq<byte>, k: nat)
    requires k < |s| && AllSpaces(s[..k]) && !IsSpace(s[k])
    ensures SpacePrefix(s) == k
  {
  }

  /** Spaces ws followed by t, which does not start with a space, has exactly |ws| leading spaces. */
  lemma {:induction false} SpacePrefixOf(ws: seq<byte>, t: seq<byte>)
    requires AllSpaces(ws) && (|t| > 0 ==> !IsSpace(t[0]))
    ensures SpacePrefix(ws + t) == |ws|
  {
    if |ws| > 0 {
      assert (ws + t)[1..] == ws[1..] + t;
      SpacePrefixOf(ws[1..], t);
    }
  }

  /** Digits d followed by t, which does not start with a digit, has exactly |d| leading digits. */
  lemma {:induction false} DigitPrefixOf(d: seq<byte>, t: seq<byte>)
    requires AllDigits(d) && (|t| > 0 ==> !IsDigit(t[0]))
    ensures DigitPrefix(d + t) == |d|
  {
    if |d| > 0 {
      assert (d + t)[1..] == d[1..] + t;
      DigitPrefixOf(d[1..], t);
    }
  }

  /** The value a sign and a run of digits denote. */
  function SignedValue(negative: bool, d: seq<byte>): int
    requires AllDigits(d)
  {
    if negative then 0 - DecimalValue(d) else DecimalValue(d)
  }

  /** strtol() once the blank run, the sign and the digit run are known. */
  lemma {:induction false} StrToLAt(s: seq<byte>, i: nat, signed: bool, j: nat, n: nat)
    requires SpacePrefix(s) == i
    requires signed <==> i < |s| && (s[i] == PLUS || s[i] == MINUS)
    requires j == (if signed then i + 1 else i) && j <= |s|
    requires DigitPrefix(s[j..]) == n
    ensures n == 0 ==> StrToL(s) == Conversion(0, 0)
    ensures n > 0 ==> StrToL(s) == Conversion(Saturate(SignedValue(signed && s[i] == MINUS, s[j..j + n])), j + n)
  {
  }

  /** The first n bytes of the suffix of s at j. */
  lemma SliceOfSuffix(s: seq<byte>, j: nat, u: seq<byte>, n: nat)
    requires j <= |s| && s[j..] == u && n <= |u|
    ensures s[j..j + n] == u[..n]
  {
    assert forall k | 0 <= k < n :: s[j..j + n][k] == s[j + k] == u[k];
  }

  /**
    What strtol() reads from any string, split into its maximal run of
    blanks ws, an optional sign, the maximal run of digits d and the rest:
    the signed value of d, clamped to `long`, with endptr just past d; and
    0 with endptr at the start when there is no digit.
   */
  lemma {:induction false} StrToLReads(ws: seq<byte>, sign: seq<byte>, d: seq<byte>, rest: seq<byte>)
    requires AllSpaces(ws)
    requires sign == [] || sign == [PLUS] || sign == [MINUS]
    requires AllDigits(d)
    requires |rest| > 0 ==> !IsDigit(rest[0])
    requires |sign + d + rest| > 0 ==> !IsSpace((sign + d + rest)[0])
    requires sign == [] && |d| == 0 && |rest| > 0 ==> rest[0] != PLUS && rest[0] != MINUS
    ensures |d| > 0 ==>
      StrToL(ws + sign + d + rest) == Conversion(Saturate(SignedValue(sign == [MINUS], d)), |ws| + |sign| + |d|)
    ensures |d| == 0 ==> StrToL(ws + sign + d + rest) == Conversion(0, 0)
  {
    var u := d + rest;
    var t := sign + u;
    var s := ws + t;
    assert ws + sign + d + rest == s;
    if sign == [] && |u| > 0 {
      if |d| > 0 { assert u[0] == d[0]; } else { assert u[0] == rest[0]; }
    }
    StrToLSplit(ws, sign, u, s);
    DigitPrefixOf(d, rest);
    assert u[..|d|] == d;
  }

  /** The first two steps of StrToLReads: blanks, then the sign. */
  lemma {:induction false} StrToLSplit(ws: seq<byte>, sign: seq<byte>, u: seq<byte>, s: seq<byte>)
    requires s == ws + (sign + u)
    requires AllSpaces(ws)
    requires sign == [] || sign == [PLUS] || sign == [MINUS]
    requires |sign + u| > 0 ==> !IsSpace((sign + u)[0])
    requires sign == [] && |u| > 0 ==> u[0] != PLUS && u[0] != MINUS
    ensures DigitPrefix(u) == 0 ==> StrToL(s) == Conversion(0, 0)
    ensures DigitPrefix(u) > 0 ==>
      StrToL(s) == Conversion(Saturate(SignedValue(sign == [MINUS], u[..DigitPrefix(u)])), |ws| + |sign| + DigitPrefix(u))
  {
    var t := sign + u;
    SpacePrefixOf(ws, t);
    var i := |ws|;
    var j := i + |sign|;
    assert s[i..] == t;
    var signed := |sign| > 0;
    var negative := sign == [MINUS];
    if signed {
      assert s[i] == sign[0];
      assert t[1..] == u;
      assert negative <==> s[i] == MINUS;
    } else {
      assert t == u;
      if i < |s| {
        assert s[i] == u[0];
      }
    }
    assert s[j..] == u;
    var n := DigitPrefix(u);
    StrToLAt(s, i, signed, j, n);
    if n > 0 {
      SliceOfSuffix(s, j, u, n);
      var v := Saturate(SignedValue(negative, u[..n]));
      assert SignedValue(signed && s[i] == MINUS, s[j..j + n]) == SignedValue(negative, u[..n]);
      assert StrToL(s) == Conversion(v, j + n);
    }
  }

  /** strtol() leaves endptr on the terminating NUL exactly for the empty name and for numerals. */
  lemma {:induction false} ConsumesWholeName(s: seq<byte>)
    ensures StrToL(s).end == |s| <==> |s| == 0 || IsNumeral(s)
  {
    var i := SpacePrefix(s);
    var signed := i < |s| && (s[i] == PLUS || s[i] == MINUS);
    var j := if signed then i + 1 else i;
    var n := DigitPrefix(s[j..]);
    if StrToL(s).end == |s| && |s| > 0 {
      assert n > 0 && j + n == |s|;
      assert AllSpaces(s[..i]);
      if signed {
        assert s[i..][1..] == s[j..];
        assert AllDigits(s[i..][1..]);
      } else {
        assert s[i..] == s[j..];
      }
      assert SignedDigits(s[i..]);
    }
    if |s| > 0 && IsNumeral(s) {
      var k :| 0 <= k <= |s| && AllSpaces(s[..k]) && SignedDigits(s[k..]);
      assert s[k..][0] == s[k];
      SpacePrefixIs(s, k);
      assert i == k;
      var t := s[j..];
      assert AllDigits(t) by {
        if signed { assert t == s[k..][1..]; } else { assert t == s[k..]; }
      }
      assert n == |t|;
    }
  }

  /** A plain run of digits that fits the attribute type is taken as that number. */
  lemma {:induction false} PlainNumberIsTypeCode(s: seq<byte>)
    requires |s| > 0 && AllDigits(s) && DecimalValue(s) < TWO_32 / 2
    ensures StrToL(s) == Conversion(DecimalValue(s), |s|)
    ensures ToInt32(StrToL(s).value) == DecimalValue(s)
  {
    assert !IsSpace(s[0]);
    assert SpacePrefix(s) == 0;
    var n := DigitPrefix(s);
    assert s[0..] == s;
    assert s[0..0 + n] == s;
  }
}
