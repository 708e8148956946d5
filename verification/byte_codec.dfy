/** Fixed-width byte layout of the scalars a memory stream carries.

    The source copies the host's native bytes with memcpy; this model fixes
    one byte order, little-endian, and two's complement for signed values. */
module ByteCodec {

  type Byte = b: int | 0 <= b < 0x100

  type uint32 = n: int | 0 <= n < 0x1_0000_0000
  type uint64 = n: int | 0 <= n < 0x1_0000_0000_0000_0000
  type int8 = n: int | -0x80 <= n < 0x80
  type int16 = n: int | -0x8000 <= n < 0x8000
  type int32 = n: int | -0x8000_0000 <= n < 0x8000_0000

  /** The number of distinct values a field of w bytes can hold. */
  function Pow256(w: nat): (p: nat)
    ensures p >= 1
  {
    if w == 0 then 1 else 256 * Pow256(w - 1)
  }

  lemma {:induction false} Pow256Values()
    ensures Pow256(1) == 0x100 && Pow256(2) == 0x1_0000
    ensures Pow256(4) == 0x1_0000_0000 && Pow256(8) == 0x1_0000_0000_0000_0000
  {
  }

  /** The w bytes of v, least significant first. */
  function EncodeLE(v: nat, w: nat): (bs: seq<Byte>)
    requires v < Pow256(w)
    ensures |bs| == w
  {
    if w == 0 then [] else [v % 256] + EncodeLE(v / 256, w - 1)
  }

  /** The unsigned value of the little-endian bytes bs[i..j]. */
  function DecodeRange(bs: seq<Byte>, i: nat, j: nat): (v: nat)
    requires i <= j <= |bs|
    ensures v < Pow256(j - i)
    decreases j - i
  {
    if i == j then 0 else bs[i] + 256 * DecodeRange(bs, i + 1, j)
  }

  /** The unsigned value of a little-endian byte sequence. */
  function DecodeLE(bs: seq<Byte>): (v: nat)
    ensures v < Pow256(|bs|)
  {
    DecodeRange(bs, 0, |bs|)
  }

  /** Decoding looks at nothing but the bytes in range: the same bytes at a
      position shifted by d decode to the same value. */
  lemma {:induction false} DecodeRangeShift(a: seq<Byte>, d: nat, b: seq<Byte>, i: nat, j: nat)
    requires i <= j <= |b| && j + d <= |a|
    requires forall k :: i <= k < j ==> a[k + d] == b[k]
    ensures DecodeRange(a, i + d, j + d) == DecodeRange(b, i, j)
    decreases j - i
  {
    if i < j {
      DecodeRangeShift(a, d, b, i + 1, j);
    }
  }

  /** The first byte is the least significant digit in base 256. */
  lemma {:induction false} DecodeLECons(bs: seq<Byte>)
    requires |bs| > 0
    ensures DecodeLE(bs) == bs[0] + 256 * DecodeLE(bs[1..])
  {
    DecodeRangeShift(bs, 1, bs[1..], 0, |bs| - 1);
  }

  lemma {:induction false} DecodeEncodeLE(v: nat, w: nat)
    requires v < Pow256(w)
    ensures DecodeLE(EncodeLE(v, w)) == v
  {
    if w > 0 {
      DecodeEncodeLE(v / 256, w - 1);
      assert EncodeLE(v, w)[1..] == EncodeLE(v / 256, w - 1);
      DecodeLECons(EncodeLE(v, w));
    }
  }

  lemma {:induction false} EncodeDecodeLE(bs: seq<Byte>)
    ensures EncodeLE(DecodeLE(bs), |bs|) == bs
  {
    if |bs| > 0 {
      EncodeDecodeLE(bs[1..]);
      DecodeLECons(bs);
      var v := DecodeLE(bs);
      assert v % 256 == bs[0] && v / 256 == DecodeLE(bs[1..]);
      assert bs == [bs[0]] + bs[1..];
    }
  }

  /** The values a signed integer of w bytes can hold. */
  predicate InSignedRange(v: int, w: nat)
  {
    -(Pow256(w) / 2) <= v < Pow256(w) / 2
  }

  /** The two's complement bit pattern of a signed w-byte value. */
  function ToUnsigned(v: int, w: nat): (u: nat)
    requires InSignedRange(v, w)
    ensures u < Pow256(w)
    ensures u == 0 <==> v == 0
  {
    if v < 0 then v + Pow256(w) else v
  }

  /** A field of at least one byte holds an even number of values. */
  lemma {:induction false} Pow256Even(w: nat)
    requires w >= 1
    ensures Pow256(w) == 2 * (Pow256(w) / 2)
  {
    var half := 128 * Pow256(w - 1);
    assert Pow256(w) == 2 * half;
  }

  /** The signed value of a w-byte two's complement bit pattern. */
  function ToSigned(u: nat, w: nat): (v: int)
    requires w >= 1 && u < Pow256(w)
    ensures InSignedRange(v, w)
    ensures v == 0 <==> u == 0
    ensures ToUnsigned(v, w) == u
  {
    Pow256Even(w);
    if u < Pow256(w) / 2 then u else u - Pow256(w)
  }

  lemma {:induction false} SignedRoundTrip(v: int, w: nat)
    requires w >= 1 && InSignedRange(v, w)
    ensures ToSigned(ToUnsigned(v, w), w) == v
  {
  }
}
