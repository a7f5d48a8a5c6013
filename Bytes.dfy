/** Byte strings: concatenation of a list of slices, zero buffers, and the
    4-byte little-endian encoding of a u32 used as the shard length prefix. */
module Bytes {

  newtype byte = x: int | 0 <= x < 256

  const U32_LIMIT: nat := 0x1_0000_0000

  /** All slices of `ss`, one after the other. */
  function Concat(ss: seq<seq<byte>>): seq<byte>
  {
    if ss == [] then [] else ss[0] + Concat(ss[1..])
  }

  lemma {:induction false} ConcatAppend(a: seq<seq<byte>>, b: seq<seq<byte>>)
    ensures Concat(a + b) == Concat(a) + Concat(b)
  {
    if a == [] {
      assert a + b == b;
    } else {
      assert (a + b)[1..] == a[1..] + b;
      ConcatAppend(a[1..], b);
    }
  }

  function Zeros(n: nat): (z: seq<byte>)
    ensures |z| == n && forall i :: 0 <= i < n ==> z[i] == 0
  {
    seq(n, _ => 0)
  }

  /** The 4-byte little-endian encoding of a u32. */
  function EncodeU32(x: nat): (r: seq<byte>)
    requires x < U32_LIMIT
    ensures |r| == 4
  {
    [(x % 256) as byte, (x / 256 % 256) as byte,
     (x / 256 / 256 % 256) as byte, (x / 256 / 256 / 256) as byte]
  }

  /** The u32 whose little-endian encoding is the 4 bytes `b`. */
  function DecodeU32(b: seq<byte>): (x: nat)
    requires |b| == 4
    ensures x < U32_LIMIT
  {
    b[0] as nat + 256 * (b[1] as nat + 256 * (b[2] as nat + 256 * b[3] as nat))
  }

  lemma DivModStep(lo: nat, hi: nat)
    requires lo < 256
    ensures (lo + 256 * hi) % 256 == lo && (lo + 256 * hi) / 256 == hi
  {
  }

  lemma DecodeEncodeU32(x: nat)
    requires x < U32_LIMIT
    ensures DecodeU32(EncodeU32(x)) == x
  {
    var q1 := x / 256;
    var q2 := q1 / 256;
    assert x == x % 256 + 256 * q1;
    assert q1 == q1 % 256 + 256 * q2;
    assert q2 == q2 % 256 + 256 * (q2 / 256);
  }

  lemma EncodeDecodeU32(b: seq<byte>)
    requires |b| == 4
    ensures EncodeU32(DecodeU32(b)) == b
  {
    var h2 := b[2] as nat + 256 * b[3] as nat;
    var h1 := b[1] as nat + 256 * h2;
    var x := b[0] as nat + 256 * h1;
    DivModStep(b[0] as nat, h1);
    DivModStep(b[1] as nat, h2);
    DivModStep(b[2] as nat, b[3] as nat);
    assert x / 256 == h1 && h1 / 256 == h2 && h2 / 256 == b[3] as nat;
  }
}
