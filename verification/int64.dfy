/** Go's fixed-width integers as the object model uses them: the `int64`
    payload of an Integer and its reinterpretation as `uint64` (a bit pattern). */
module Int64 {

  const TWO_TO_63: int := 0x8000_0000_0000_0000
  const TWO_TO_64: int := 0x1_0000_0000_0000_0000

  newtype int64 = x: int | -TWO_TO_63 <= x < TWO_TO_63

  newtype uint64 = x: int | 0 <= x < TWO_TO_64

  /** Go's conversion `uint64(i)`: the same 64 bits, read as an unsigned
      number. Non-negative values keep their value; a negative value becomes
      its two's-complement bit pattern, i + 2^64. */
  function ToUint64(i: int64): (u: uint64)
    ensures u as int % TWO_TO_64 == i as int % TWO_TO_64
    ensures i < 0 <==> u as int >= TWO_TO_63
  {
    if i >= 0 then i as int as uint64 else (i as int + TWO_TO_64) as uint64
  }

  /** Go's conversion `int64(u)`: the inverse reading of 64 bits as signed. */
  function FromUint64(u: uint64): (i: int64)
    ensures i as int % TWO_TO_64 == u as int % TWO_TO_64
  {
    if u as int < TWO_TO_63 then u as int as int64 else (u as int - TWO_TO_64) as int64
  }

  /** `uint64(i)` loses nothing: reading the bits back as signed gives `i`,
      and every bit pattern is the image of exactly one int64. */
  lemma ToUint64RoundTrip(i: int64, u: uint64)
    ensures FromUint64(ToUint64(i)) == i
    ensures ToUint64(FromUint64(u)) == u
  {
  }

  /** Distinct int64 values have distinct bit patterns. */
  lemma ToUint64Injective(i: int64, j: int64)
    ensures ToUint64(i) == ToUint64(j) <==> i == j
  {
    ToUint64RoundTrip(i, 0);
    ToUint64RoundTrip(j, 0);
  }

  /** A 64-bit word read as an unsigned number (how a `uint64` computed with
      bit operations, such as a hash, is seen as a number). */
  function FromBits(w: bv64): uint64 {
    w as int as uint64
  }

  lemma FromBitsInjective(w: bv64, x: bv64)
    ensures FromBits(w) == FromBits(x) <==> w == x
  {
    assert w == (w as int) as bv64;
    assert x == (x as int) as bv64;
  }
}
