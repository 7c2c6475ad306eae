/** Integers as the four bytes, least significant first, in which the host stores them, and
    arrays of fixed-size records as flat bytes. */
module Bytes {
  newtype byte = x: int | 0 <= x < 256

  type int32 = n: int | -0x8000_0000 <= n < 0x8000_0000

  type uint32 = n: int | 0 <= n < 0x1_0000_0000

  function EncodeUnsigned(u: uint32): (b: seq<byte>)
    ensures |b| == 4
  {
    [(u % 256) as byte, (u / 0x100 % 256) as byte, (u / 0x1_0000 % 256) as byte, (u / 0x100_0000 % 256) as byte]
  }

  function DecodeUnsigned(b: seq<byte>): uint32
    requires |b| == 4
  {
    b[0] as int + b[1] as int * 0x100 + b[2] as int * 0x1_0000 + b[3] as int * 0x100_0000
  }

  lemma UnsignedRoundTrip(u: uint32)
    ensures DecodeUnsigned(EncodeUnsigned(u)) == u
  {
    assert u / 0x100 == u / 0x1_0000 * 0x100 + u / 0x100 % 0x100;
    assert u / 0x1_0000 == u / 0x100_0000 * 0x100 + u / 0x1_0000 % 0x100;
    assert u / 0x100_0000 % 0x100 == u / 0x100_0000;
  }

  function EncodeInt(n: int32): (b: seq<byte>)
    ensures |b| == 4
  {
    EncodeUnsigned(if n < 0 then n + 0x1_0000_0000 else n)
  }

  function DecodeInt(b: seq<byte>): int32
    requires |b| == 4
  {
    var u := DecodeUnsigned(b);
    if u >= 0x8000_0000 then u - 0x1_0000_0000 else u
  }

  lemma IntRoundTrip(n: int32)
    ensures DecodeInt(EncodeInt(n)) == n
  {
    hide EncodeUnsigned, DecodeUnsigned;
    UnsignedRoundTrip(if n < 0 then n + 0x1_0000_0000 else n);
  }

  // -------------------------------------------------------------- words

  function EncodeWord(w: bv32): (b: seq<byte>)
    ensures |b| == 4
  {
    EncodeUnsigned(w as int)
  }

  function DecodeWord(b: seq<byte>): bv32
    requires |b| == 4
  {
    DecodeUnsigned(b) as bv32
  }

  lemma WordRoundTrip(w: bv32)
    ensures DecodeWord(EncodeWord(w)) == w
  {
    hide EncodeUnsigned, DecodeUnsigned;
    UnsignedRoundTrip(w as int);
  }

  // -------------------------------------------------------------- records

  /** Records of w bytes each, one after the other. */
  function Flatten(records: seq<seq<byte>>, w: nat): (b: seq<byte>)
    requires w > 0 && forall i | 0 <= i < |records| :: |records[i]| == w
    ensures |b| == |records| * w
  {
    if records == [] then [] else Flatten(records[..|records| - 1], w) + records[|records| - 1]
  }

  /** The i-th record of w bytes. */
  function Record(b: seq<byte>, w: nat, i: nat): (r: seq<byte>)
    requires (i + 1) * w <= |b|
    ensures |r| == w
  {
    b[i * w..(i + 1) * w]
  }

  lemma {:induction false} FlattenRecord(records: seq<seq<byte>>, w: nat, i: nat)
    requires w > 0 && i < |records| && forall j | 0 <= j < |records| :: |records[j]| == w
    ensures (i + 1) * w <= |records| * w
    ensures Record(Flatten(records, w), w, i) == records[i]
  {
    hide Record;
    var n := |records| - 1;
    Multiples(i + 1, |records|, w);
    if i < n {
      FlattenRecord(records[..n], w, i);
      assert Record(Flatten(records[..n], w), w, i) == records[i];
      Lengthen(Flatten(records[..n], w), records[n], w, i);
    } else {
      LastRecord(Flatten(records[..n], w), records[n], w, n);
    }
  }

  lemma Multiples(a: nat, b: nat, w: nat)
    requires a <= b
    ensures a * w <= b * w
  {
  }

  lemma LastRecord(a: seq<byte>, b: seq<byte>, w: nat, n: nat)
    requires |a| == n * w && |b| == w
    ensures |a + b| == (n + 1) * w && Record(a + b, w, n) == b
  {
  }

  lemma Lengthen(a: seq<byte>, b: seq<byte>, w: nat, i: nat)
    requires (i + 1) * w <= |a|
    ensures Record(a + b, w, i) == Record(a, w, i)
  {
  }
}
