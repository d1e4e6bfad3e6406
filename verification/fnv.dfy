/** The 64-bit FNV-1a hash (Fowler/Noll/Vo), as Go's `hash/fnv` computes it
    with `New64a`, `Write` and `Sum64`. All arithmetic is on 64-bit words, so
    the multiplication wraps modulo 2^64 exactly as Go's `uint64` does. */
module Fnv {

  import opened GoStrings

  const OFFSET_BASIS: bv64 := 14695981039346656037

  /** One FNV-1a round: XOR the byte into the low bits, then multiply by the
      64-bit FNV prime 1099511628211 (0x100000001b3). */
  function Step(h: bv64, b: byte): bv64 {
    (h ^ b as bv64) * 0x0000_0100_0000_01b3
  }

  /** Reference definition: the state reached from `h` after the rounds for
      `data`, stated as "the rounds for all but the last byte, then one more". */
  function Continue(h: bv64, data: Bytes): bv64
    decreases |data|
  {
    if |data| == 0 then h else Step(Continue(h, data[..|data| - 1]), data[|data| - 1])
  }

  /** FNV-1a-64 of a byte string: start from the offset basis and fold in every byte. */
  function Hash(data: Bytes): bv64 {
    Continue(OFFSET_BASIS, data)
  }

  /** Go's `Write` on a 64-bit FNV-1a hasher whose state is `h`: it walks the
      bytes front to back, one round per byte. */
  function Write(h: bv64, data: Bytes): (r: bv64)
    ensures r == Continue(h, data)
    decreases |data|
  {
    if |data| == 0 then h
    else
      var r := Write(Step(h, data[0]), data[1..]);
      ContinueFirst(h, data);
      r
  }

  /** Peeling the first byte off the reference definition. */
  lemma {:induction false} ContinueFirst(h: bv64, data: Bytes)
    requires |data| > 0
    ensures Continue(h, data) == Continue(Step(h, data[0]), data[1..])
    decreases |data|
  {
    if |data| > 1 {
      var n := |data|;
      assert data[..n - 1][0] == data[0];
      assert data[..n - 1][1..] == data[1..][..n - 2];
      ContinueFirst(h, data[..n - 1]);
    }
  }

  /** Two consecutive writes leave the hasher in the same state as one write
      of the concatenation: the hash of a string does not depend on how it was
      split into `Write` calls. */
  lemma {:induction false} ContinueConcat(h: bv64, a: Bytes, b: Bytes)
    ensures Continue(Continue(h, a), b) == Continue(h, a + b)
    decreases |b|
  {
    if |b| == 0 {
      assert a + b == a;
    } else {
      var n := |b|;
      assert (a + b)[..|a + b| - 1] == a + b[..n - 1];
      ContinueConcat(h, a, b[..n - 1]);
    }
  }

  /** One more byte of a prefix is one more round. */
  lemma ContinueSnoc(h: bv64, data: Bytes, i: nat)
    requires i < |data|
    ensures Continue(h, data[..i + 1]) == Step(Continue(h, data[..i]), data[i])
  {
    assert data[..i + 1][..i] == data[..i];
  }

  /** Go's `h := fnv.New64a(); h.Write(data); h.Sum64()` as the loop it runs. */
  method Sum64(data: Bytes) returns (sum: bv64)
    ensures sum == Hash(data)
  {
    sum := OFFSET_BASIS;
    var i := 0;
    while i < |data|
      invariant 0 <= i <= |data|
      invariant sum == Continue(OFFSET_BASIS, data[..i])
    {
      ContinueSnoc(OFFSET_BASIS, data, i);
      sum := Step(sum, data[i]);
      i := i + 1;
    }
    assert data[..i] == data;
  }

  /** The published FNV-1a-64 test vectors for "", "a" and "foobar". */
  lemma TestVectors()
    ensures Hash([]) == 0xcbf2_9ce4_8422_2325
    ensures Hash(Ascii("a")) == 0xaf63_dc4c_8601_ec8c
    ensures Hash(Ascii("foobar")) == 0x8594_4171_f739_67e8
  {
    assert Ascii("a") == [0x61];
    LetterVector();
    FoobarVector();
  }

  /** "foobar" is "foo" followed by "bar". */
  lemma FoobarVector()
    ensures Hash(Ascii("foobar")) == 0x8594_4171_f739_67e8
  {
    var foo: Bytes, bar: Bytes := [0x66, 0x6f, 0x6f], [0x62, 0x61, 0x72];
    assert Ascii("foobar") == foo + bar;
    FooVector();
    BarVector();
    ContinueConcat(OFFSET_BASIS, foo, bar);
  }

  /** The single round for "a". */
  lemma LetterVector()
    ensures Continue(OFFSET_BASIS, [0x61]) == 0xaf63_dc4c_8601_ec8c
  {
    var a: Bytes := [0x61];
    assert Step(0xcbf2_9ce4_8422_2325, 0x61) == 0xaf63_dc4c_8601_ec8c;
    ContinueSnoc(OFFSET_BASIS, a, 0);
    assert a[..0] == [] && a[..1] == a;
  }

  /** The state after "foo", one round at a time. */
  lemma FooVector()
    ensures Continue(OFFSET_BASIS, [0x66, 0x6f, 0x6f]) == 0xdcb2_7518_fed9_d577
  {
    var f: Bytes := [0x66, 0x6f, 0x6f];
    assert Step(0xcbf2_9ce4_8422_2325, 0x66) == 0xaf63_db4c_8601_ead9;
    assert Step(0xaf63_db4c_8601_ead9, 0x6f) == 0x0898_5907_b541_d342;
    assert Step(0x0898_5907_b541_d342, 0x6f) == 0xdcb2_7518_fed9_d577;
    ContinueSnoc(OFFSET_BASIS, f, 0);
    ContinueSnoc(OFFSET_BASIS, f, 1);
    ContinueSnoc(OFFSET_BASIS, f, 2);
    assert f[..0] == [] && f[..3] == f;
  }

  /** The rounds for "bar", starting from the state after "foo". */
  lemma BarVector()
    ensures Continue(0xdcb2_7518_fed9_d577, [0x62, 0x61, 0x72]) == 0x8594_4171_f739_67e8
  {
    var h: bv64 := 0xdcb2_7518_fed9_d577;
    var b: Bytes := [0x62, 0x61, 0x72];
    assert Step(0xdcb2_7518_fed9_d577, 0x62) == 0xdd12_0e79_0c25_12af;
    assert Step(0xdd12_0e79_0c25_12af, 0x61) == 0xcac1_65af_a2fe_f40a;
    assert Step(0xcac1_65af_a2fe_f40a, 0x72) == 0x8594_4171_f739_67e8;
    ContinueSnoc(h, b, 0);
    ContinueSnoc(h, b, 1);
    ContinueSnoc(h, b, 2);
    assert b[..0] == [] && b[..3] == b;
  }
}
