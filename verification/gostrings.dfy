/** Go strings are immutable byte sequences. This module models them, and the
    one operation of Go's `strings` package the object model uses (`Join`). */
module GoStrings {

  /** An 8-bit unsigned integer. */
  newtype byte = x: int | 0 <= x < 256

  /** A Go `string`: its bytes, in order. */
  type Bytes = seq<byte>

  predicate IsAscii(s: string) {
    forall i :: 0 <= i < |s| ==> s[i] < 128 as char
  }

  /** The bytes of a Go string literal that is written in ASCII. */
  function Ascii(s: string): (r: Bytes)
    requires IsAscii(s)
    ensures |r| == |s|
    ensures forall i :: 0 <= i < |s| ==> r[i] as int == s[i] as int
  {
    seq(|s|, i requires 0 <= i < |s| => s[i] as int as byte)
  }

  /** Two ASCII literals give the same bytes only when they are the same text. */
  lemma AsciiInjective(s: string, t: string)
    requires IsAscii(s) && IsAscii(t)
    ensures Ascii(s) == Ascii(t) <==> s == t
  {
    if Ascii(s) == Ascii(t) {
      forall i | 0 <= i < |s|
        ensures s[i] == t[i]
      {
        assert Ascii(s)[i] == Ascii(t)[i];
      }
    }
  }

  /** Go's `strings.Join(parts, sep)`: the parts in order, with `sep` between
      each two neighbours; no parts give the empty string. */
  function Join(parts: seq<Bytes>, sep: Bytes): Bytes
    decreases |parts|
  {
    if |parts| == 0 then []
    else if |parts| == 1 then parts[0]
    else parts[0] + sep + Join(parts[1..], sep)
  }

  /** Total length of the parts. */
  function TotalLength(parts: seq<Bytes>): nat
    decreases |parts|
  {
    if |parts| == 0 then 0 else |parts[0]| + TotalLength(parts[1..])
  }

  /** Joining two non-empty lists of parts is joining each and putting one
      separator between the results: the separator appears exactly between
      neighbouring parts and nowhere else. */
  lemma {:induction false} JoinConcat(a: seq<Bytes>, b: seq<Bytes>, sep: Bytes)
    requires |a| > 0 && |b| > 0
    ensures Join(a + b, sep) == Join(a, sep) + sep + Join(b, sep)
    decreases |a|
  {
    if |a| == 1 {
      assert (a + b)[1..] == b;
    } else {
      assert (a + b)[1..] == a[1..] + b;
      JoinConcat(a[1..], b, sep);
    }
  }

  /** A joined string holds every byte of the parts plus one separator per gap. */
  lemma {:induction false} JoinLength(parts: seq<Bytes>, sep: Bytes)
    requires |parts| > 0
    ensures |Join(parts, sep)| == TotalLength(parts) + (|parts| - 1) * |sep|
    decreases |parts|
  {
    if |parts| > 1 {
      JoinLength(parts[1..], sep);
    }
  }
}
