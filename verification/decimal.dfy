/** Decimal rendering of integers, as Go's `fmt.Sprintf("%d", n)` produces it,
    and a reference parser for the same notation. */
module Decimal {

  import opened Wrappers
  import opened GoStrings

  const ZERO: byte := 48   // '0'
  const MINUS: byte := 45  // '-'

  predicate IsDigit(b: byte) {
    ZERO <= b <= ZERO + 9
  }

  function DigitByte(d: nat): (b: byte)
    requires d < 10
    ensures IsDigit(b)
  {
    ZERO + d as byte
  }

  function DigitValue(b: byte): (d: nat)
    requires IsDigit(b)
    ensures d < 10 && DigitByte(d) == b
  {
    (b - ZERO) as int
  }

  /** One or more decimal digits with no leading zero, unless the digits
      are exactly "0". */
  predicate IsCanonicalDigits(d: Bytes) {
    && |d| >= 1
    && (forall i :: 0 <= i < |d| ==> IsDigit(d[i]))
    && (d[0] == ZERO ==> |d| == 1)
  }

  /** The shape of Go's `%d`: canonical digits, optionally after a '-';
      zero is never signed, so "-0" is not of this shape. */
  predicate IsCanonical(s: Bytes) {
    if |s| > 0 && s[0] == MINUS then IsCanonicalDigits(s[1..]) && s[1..] != [ZERO]
    else IsCanonicalDigits(s)
  }

  /** The decimal digits of `n`, most significant first, without leading zeros. */
  function Digits(n: nat): (r: Bytes)
    ensures IsCanonicalDigits(r)
    ensures r[0] == ZERO ==> n == 0
    decreases n
  {
    if n < 10 then [DigitByte(n)] else Digits(n / 10) + [DigitByte(n % 10)]
  }

  /** `%d` of a signed integer: a leading '-' exactly when it is negative,
      then the digits of its magnitude without leading zeros. */
  function FormatInt(n: int): (r: Bytes)
    ensures IsCanonical(r)
    ensures r[0] == MINUS <==> n < 0
    ensures n >= 0 ==> (r[0] == ZERO ==> n == 0)
    ensures n < 0 ==> |r| >= 2 && r[1] != ZERO
  {
    if n < 0 then [MINUS] + Digits(-n) else Digits(n)
  }

  /** Reference reading of a non-empty run of decimal digits (leading zeros
      allowed); anything else is None. */
  function ParseDigits(s: Bytes): Option<nat>
    decreases |s|
  {
    if |s| == 0 || !IsDigit(s[|s| - 1]) then None
    else if |s| == 1 then Some(DigitValue(s[0]))
    else match ParseDigits(s[..|s| - 1])
      case None => None
      case Some(p) => Some(p * 10 + DigitValue(s[|s| - 1]))
  }

  /** Reference reading of an optionally '-'-signed decimal integer. */
  function ParseInt(s: Bytes): Option<int> {
    if |s| > 0 && s[0] == MINUS then
      match ParseDigits(s[1..])
      case None => None
      case Some(n) => Some(0 - n)
    else
      match ParseDigits(s)
      case None => None
      case Some(n) => Some(n)
  }

  lemma {:induction false} DigitsRoundTrip(n: nat)
    ensures ParseDigits(Digits(n)) == Some(n)
    decreases n
  {
    if n >= 10 {
      var s := Digits(n);
      assert s[..|s| - 1] == Digits(n / 10);
      DigitsRoundTrip(n / 10);
    }
  }

  /** `%d` is read back exactly by the reference parser, so it is injective. */
  lemma FormatIntRoundTrip(n: int)
    ensures ParseInt(FormatInt(n)) == Some(n)
  {
    if n < 0 {
      DigitsRoundTrip(-n);
      SignedRoundTrip(Digits(-n), -n);
    } else {
      DigitsRoundTrip(n);
      UnsignedRoundTrip(Digits(n), n);
    }
  }

  /** A leading `-` negates whatever the digits after it parse to. */
  lemma SignedRoundTrip(d: Bytes, m: nat)
    requires ParseDigits(d) == Some(m)
    ensures ParseInt([MINUS] + d) == Some(0 - m)
  {
    assert ([MINUS] + d)[1..] == d;
  }

  /** Without a leading `-`, the whole text is parsed as digits. */
  lemma UnsignedRoundTrip(d: Bytes, m: nat)
    requires |d| > 0 && IsDigit(d[0])
    requires ParseDigits(d) == Some(m)
    ensures ParseInt(d) == Some(m)
  {
  }

  /** A canonical digit string is the only one for the number it denotes. */
  lemma {:induction false} DigitsUnique(d: Bytes, m: nat)
    requires IsCanonicalDigits(d) && ParseDigits(d) == Some(m)
    ensures d == Digits(m)
    decreases |d|
  {
    if |d| > 1 {
      var init, last := d[..|d| - 1], d[|d| - 1];
      assert init[0] == d[0];
      assert d[..|d| - 1] == init;
      var p := ParseDigits(init).value;
      DigitsUnique(init, p);
      assert p != 0;
      assert m == p * 10 + DigitValue(last);
      assert m / 10 == p && m % 10 == DigitValue(last);
      assert d == init + [last];
    }
  }

  /** `%d` is the only canonical rendering of an integer: any canonical text
      that parses to `n` is `FormatInt(n)`. */
  lemma FormatIntUnique(s: Bytes, n: int)
    requires IsCanonical(s) && ParseInt(s) == Some(n)
    ensures s == FormatInt(n)
  {
    if s[0] == MINUS {
      var m :| ParseDigits(s[1..]) == Some(m);
      DigitsUnique(s[1..], m);
      assert s == [MINUS] + s[1..];
    } else {
      var m :| ParseDigits(s) == Some(m);
      DigitsUnique(s, m);
    }
  }

  lemma FormatIntInjective(m: int, n: int)
    ensures FormatInt(m) == FormatInt(n) <==> m == n
  {
    FormatIntRoundTrip(m);
    FormatIntRoundTrip(n);
  }
}
