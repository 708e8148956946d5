/** The wire format of the memory streams and the effect of reading it, as
    functions over values: the scalar overloads, the raw read with its
    bounds check and sticky status, and length-prefixed strings. The classes
    in module MemoryStream are proved against these functions. */
module StreamFormat {
  import opened ByteCodec

  /** The single error channel of a stream; once it leaves NoError it stays there. */
  datatype Status = NoError | Error

  /** One value of each scalar type the stream overloads accept. Floating-point
      values are carried as their bit patterns. */
  datatype Scalar =
    | Bool(b: bool)
    | Char(c: int8)
    | UChar(uc: Byte)
    | Short(sh: int16)
    | SizeT(n: uint64)
    | Int(i: int32)
    | Float(floatBits: uint32)
    | Double(doubleBits: uint64)

  /** Byte width of a size_t, used for every length prefix. */
  const SizeTWidth: nat := 8

  /** The byte width of each scalar type, as pinned by the source's static asserts. */
  function Width(v: Scalar): nat
  {
    match v
    case Bool(_) => 1
    case Char(_) => 1
    case UChar(_) => 1
    case Short(_) => 2
    case SizeT(_) => SizeTWidth
    case Int(_) => 4
    case Float(_) => 4
    case Double(_) => 8
  }

  /** Two scalars are of the same C++ type (the same overload is chosen). */
  predicate SameKind(a: Scalar, b: Scalar)
  {
    match a
    case Bool(_) => b.Bool?
    case Char(_) => b.Char?
    case UChar(_) => b.UChar?
    case Short(_) => b.Short?
    case SizeT(_) => b.SizeT?
    case Int(_) => b.Int?
    case Float(_) => b.Float?
    case Double(_) => b.Double?
  }

  /** The unsigned bit pattern a scalar's memory holds: two's complement for
      the signed types, 1 or 0 for a bool. */
  function Bits(v: Scalar): (u: nat)
    ensures u < Pow256(Width(v))
  {
    Pow256Values();
    match v
    case Bool(b) => if b then 1 else 0
    case Char(c) => ToUnsigned(c, 1)
    case UChar(u) => u
    case Short(s) => ToUnsigned(s, 2)
    case SizeT(n) => n
    case Int(i) => ToUnsigned(i, 4)
    case Float(f) => f
    case Double(d) => d
  }

  /** The scalar of the same type as `like` whose memory holds the bit
      pattern u. A bool is true exactly when its pattern is not zero. */
  function FromBits(like: Scalar, u: nat): (v: Scalar)
    requires u < Pow256(Width(like))
    ensures SameKind(like, v)
  {
    Pow256Values();
    match like
    case Bool(_) => Bool(u != 0)
    case Char(_) => Char(ToSigned(u, 1))
    case UChar(_) => UChar(u)
    case Short(_) => Short(ToSigned(u, 2))
    case SizeT(_) => SizeT(u)
    case Int(_) => Int(ToSigned(u, 4))
    case Float(_) => Float(u)
    case Double(_) => Double(u)
  }

  lemma {:induction false} FromBitsBits(like: Scalar, v: Scalar)
    requires SameKind(like, v)
    ensures FromBits(like, Bits(v)) == v
  {
    Pow256Values();
    match v
    case Char(c) => SignedRoundTrip(c, 1);
    case Short(s) => SignedRoundTrip(s, 2);
    case Int(i) => SignedRoundTrip(i, 4);
    case _ =>
  }

  /** The bytes a scalar occupies in memory, and so on the wire. */
  function EncodeScalar(v: Scalar): (bs: seq<Byte>)
    ensures |bs| == Width(v) >= 1
  {
    EncodeLE(Bits(v), Width(v))
  }

  /** The scalar of the same type as `like` whose memory holds the bytes bs. */
  function DecodeScalar(like: Scalar, bs: seq<Byte>): (v: Scalar)
    requires |bs| == Width(like)
    ensures SameKind(like, v)
  {
    FromBits(like, DecodeLE(bs))
  }

  lemma {:induction false} DecodeEncodeScalar(like: Scalar, v: Scalar)
    requires SameKind(like, v)
    ensures DecodeScalar(like, EncodeScalar(v)) == v
  {
    DecodeEncodeLE(Bits(v), Width(v));
    FromBitsBits(like, v);
  }

  /** Every byte pattern of the right width is the encoding of the value
      decoded from it, except a bool byte other than 0 and 1. */
  lemma {:induction false} EncodeDecodeScalar(like: Scalar, bs: seq<Byte>)
    requires |bs| == Width(like)
    requires like.Bool? ==> bs[0] <= 1
    ensures EncodeScalar(DecodeScalar(like, bs)) == bs
  {
    EncodeDecodeLE(bs);
    if like.Bool? {
      DecodeLECons(bs);
    }
  }

  /** The bytes of several scalars written one after the other. */
  function EncodeScalars(vs: seq<Scalar>): seq<Byte>
  {
    if vs == [] then [] else EncodeScalars(vs[..|vs| - 1]) + EncodeScalar(vs[|vs| - 1])
  }

  // ---------------------------------------------------------------------------
  // Reading: the state of an input stream as a value

  /** A byte buffer, the cursor into it, and the stream status. */
  datatype ReaderState = ReaderState(buffer: seq<Byte>, position: nat, status: Status)
  {
    /** The cursor never passes the end of the buffer. */
    predicate Valid()
    {
      position <= |buffer|
    }
  }

  /** The n bytes of buffer that start at from, as a raw read copies them. */
  function Segment(buffer: seq<Byte>, from: nat, n: nat): (bs: seq<Byte>)
    requires from + n <= |buffer|
    ensures |bs| == n
  {
    seq(n, i requires 0 <= i < n => buffer[from + i])
  }

  /** The bounds test of the raw read as the source evaluates it: the sum is
      taken in 64-bit size_t arithmetic and can wrap around. */
  function RawReadRejectsAsWritten(position: uint64, size: uint64, length: uint64): bool
  {
    (position + size) % 0x1_0000_0000_0000_0000 > length
  }

  /** The bounds test the raw read evidently intends: the read would run past
      the end of the buffer. */
  predicate RawReadRejects(position: nat, size: nat, length: nat)
  {
    position + size > length
  }

  /** The two tests agree whenever the sum does not wrap around. */
  lemma {:induction false} GuardsAgreeWithoutWrapAround(position: uint64, size: uint64, length: uint64)
    requires position + size < 0x1_0000_0000_0000_0000
    ensures RawReadRejectsAsWritten(position, size, length) == RawReadRejects(position, size, length)
  {
  }

  /** The state after a raw read of size bytes: nothing happens once the
      status is an error; a read past the end sets the error and keeps the
      cursor; otherwise the cursor moves on by size. */
  function RawRead(st: ReaderState, size: nat): (r: ReaderState)
    ensures r.buffer == st.buffer
    ensures st.Valid() ==> r.Valid()
    ensures st.status != NoError ==> r == st
    ensures r.status == NoError <==> st.status == NoError && st.position + size <= |st.buffer|
    ensures r.position == if r.status == NoError then st.position + size else st.position
  {
    if st.status != NoError then st
    else if RawReadRejects(st.position, size, |st.buffer|) then st.(status := Error)
    else st.(position := st.position + size)
  }

  /** A typed read into a variable holding val: the cursor moves by the type's
      width, and the variable receives the decoded bytes, or keeps val when
      the read fails. */
  function ReadScalarF(st: ReaderState, val: Scalar): (r: (ReaderState, Scalar))
    ensures r.0 == RawRead(st, Width(val))
    ensures SameKind(val, r.1)
    ensures r.0.status != NoError ==> r.1 == val
  {
    var next := RawRead(st, Width(val));
    if next.status == NoError
    then (next, FromBits(val, DecodeRange(st.buffer, st.position, st.position + Width(val))))
    else (next, val)
  }

  /** Typed reads of the types of likes, one after the other. */
  function ReadScalarsF(st: ReaderState, likes: seq<Scalar>): (r: (ReaderState, seq<Scalar>))
    ensures r.0.buffer == st.buffer
    ensures |r.1| == |likes|
  {
    if likes == [] then (st, [])
    else
      var before := ReadScalarsF(st, likes[..|likes| - 1]);
      var last := ReadScalarF(before.0, likes[|likes| - 1]);
      (last.0, before.1 + [last.1])
  }

  /** The bytes of buffer from position on begin with bs. */
  predicate BytesAt(buffer: seq<Byte>, position: nat, bs: seq<Byte>)
  {
    position + |bs| <= |buffer| && forall i :: 0 <= i < |bs| ==> buffer[position + i] == bs[i]
  }

  /** Bytes that lie in the buffer decode there as they decode on their own. */
  lemma {:induction false} DecodeAtBytes(buffer: seq<Byte>, position: nat, bs: seq<Byte>)
    requires BytesAt(buffer, position, bs)
    ensures DecodeRange(buffer, position, position + |bs|) == DecodeLE(bs)
  {
    DecodeRangeShift(buffer, position, bs, 0, |bs|);
  }

  /** Decoding a copied segment is decoding the buffer where it was copied from. */
  lemma {:induction false} DecodeSegment(buffer: seq<Byte>, position: nat, n: nat)
    requires position + n <= |buffer|
    ensures DecodeLE(Segment(buffer, position, n)) == DecodeRange(buffer, position, position + n)
  {
    DecodeRangeShift(buffer, position, Segment(buffer, position, n), 0, n);
  }

  /** Bytes written one after the other lie one after the other. */
  lemma {:induction false} BytesAtConcat(buffer: seq<Byte>, position: nat, a: seq<Byte>, b: seq<Byte>)
    ensures BytesAt(buffer, position, a + b)
        <==> BytesAt(buffer, position, a) && BytesAt(buffer, position + |a|, b)
  {
    if BytesAt(buffer, position, a) && BytesAt(buffer, position + |a|, b) {
      forall i | 0 <= i < |a + b| ensures buffer[position + i] == (a + b)[i] {
        if i >= |a| {
          assert buffer[position + |a| + (i - |a|)] == b[i - |a|];
        }
      }
    }
    if BytesAt(buffer, position, a + b) {
      forall i | 0 <= i < |a| ensures buffer[position + i] == a[i] {
        assert a[i] == (a + b)[i];
      }
      forall i | 0 <= i < |b| ensures buffer[position + |a| + i] == b[i] {
        assert buffer[position + (|a| + i)] == (a + b)[|a| + i];
      }
    }
  }

  /** A typed read where the buffer holds the encoding of v at the cursor
      yields v, whatever the variable held before, and moves past it. */
  lemma {:induction false} ReadScalarAt(buffer: seq<Byte>, position: nat, like: Scalar, v: Scalar)
    requires SameKind(like, v) && BytesAt(buffer, position, EncodeScalar(v))
    ensures ReadScalarF(ReaderState(buffer, position, NoError), like)
         == (ReaderState(buffer, position + Width(v), NoError), v)
  {
    SameKindWidth(like, v);
    DecodeAtBytes(buffer, position, EncodeScalar(v));
    DecodeEncodeLE(Bits(v), Width(v));
    FromBitsBits(like, v);
  }

  /** Values of the same type have the same width. */
  lemma {:induction false} SameKindWidth(a: Scalar, b: Scalar)
    requires SameKind(a, b)
    ensures Width(a) == Width(b)
  {
  }

  /** Variables likes, one for each of vs, each of the type of its value. */
  predicate SameKinds(likes: seq<Scalar>, vs: seq<Scalar>)
  {
    |likes| == |vs| && forall i :: 0 <= i < |vs| ==> SameKind(likes[i], vs[i])
  }

  /** Reading back, in the same order and into variables of the same types,
      the scalars that were written yields those scalars without error,
      whatever the variables held before, and leaves the cursor right after
      them. */
  lemma {:induction false} ScalarsRoundTrip(buffer: seq<Byte>, position: nat, likes: seq<Scalar>, vs: seq<Scalar>)
    requires SameKinds(likes, vs)
    requires BytesAt(buffer, position, EncodeScalars(vs))
    ensures ReadScalarsF(ReaderState(buffer, position, NoError), likes)
         == (ReaderState(buffer, position + |EncodeScalars(vs)|, NoError), vs)
  {
    ScalarsAtBytes(buffer, position, vs);
    ReadScalarsAt(buffer, position, likes, vs);
  }

  /** The encodings of vs lie in buffer one after the other from position on. */
  predicate ScalarsAt(buffer: seq<Byte>, position: nat, vs: seq<Scalar>)
  {
    if vs == [] then position <= |buffer|
    else
      var init := vs[..|vs| - 1];
      ScalarsAt(buffer, position, init)
      && BytesAt(buffer, position + |EncodeScalars(init)|, EncodeScalar(vs[|vs| - 1]))
  }

  lemma {:induction false} ScalarsAtBytes(buffer: seq<Byte>, position: nat, vs: seq<Scalar>)
    requires BytesAt(buffer, position, EncodeScalars(vs))
    ensures ScalarsAt(buffer, position, vs)
  {
    if vs != [] {
      var init := vs[..|vs| - 1];
      BytesAtConcat(buffer, position, EncodeScalars(init), EncodeScalar(vs[|vs| - 1]));
      ScalarsAtBytes(buffer, position, init);
    }
  }

  lemma {:induction false} ReadScalarsAt(buffer: seq<Byte>, position: nat, likes: seq<Scalar>, vs: seq<Scalar>)
    requires SameKinds(likes, vs) && ScalarsAt(buffer, position, vs)
    ensures ReadScalarsF(ReaderState(buffer, position, NoError), likes)
         == (ReaderState(buffer, position + |EncodeScalars(vs)|, NoError), vs)
    decreases |vs|
  {
    if vs != [] {
      SameKindsInit(likes, vs);
      ReadScalarsAt(buffer, position, likes[..|likes| - 1], vs[..|vs| - 1]);
      ReadScalarsStep(buffer, position, likes, vs);
    }
  }

  lemma {:induction false} SameKindsInit(likes: seq<Scalar>, vs: seq<Scalar>)
    requires SameKinds(likes, vs) && vs != []
    ensures SameKinds(likes[..|likes| - 1], vs[..|vs| - 1])
    ensures SameKind(likes[|likes| - 1], vs[|vs| - 1])
  {
    assert forall i :: 0 <= i < |vs| - 1 ==> likes[..|likes| - 1][i] == likes[i] && vs[..|vs| - 1][i] == vs[i];
  }

  /** The inductive step of ReadScalarsAt: the last value, read into a
      variable of its type, extends a run of reads that gave back the others. */
  lemma {:induction false} ReadScalarsStep(buffer: seq<Byte>, position: nat, likes: seq<Scalar>, vs: seq<Scalar>)
    requires vs != [] && |likes| == |vs| && SameKind(likes[|likes| - 1], vs[|vs| - 1])
    requires ScalarsAt(buffer, position, vs)
    requires ReadScalarsF(ReaderState(buffer, position, NoError), likes[..|likes| - 1])
          == (ReaderState(buffer, position + |EncodeScalars(vs[..|vs| - 1])|, NoError), vs[..|vs| - 1])
    ensures ReadScalarsF(ReaderState(buffer, position, NoError), likes)
         == (ReaderState(buffer, position + |EncodeScalars(vs)|, NoError), vs)
  {
    var init, last := vs[..|vs| - 1], vs[|vs| - 1];
    var linit, llast := likes[..|likes| - 1], likes[|likes| - 1];
    assert vs == init + [last];
    assert likes == linit + [llast];
    var mid := ScalarsAtLast(buffer, position, init, last, llast);
    ReadOneMore(ReaderState(buffer, position, NoError), linit, llast, init, last,
                ReaderState(buffer, mid, NoError), ReaderState(buffer, mid + Width(last), NoError));
  }

  /** The last of the scalars laid out from position on reads back where the
      encodings of the others end. */
  lemma {:induction false} ScalarsAtLast(buffer: seq<Byte>, position: nat, init: seq<Scalar>, last: Scalar, like: Scalar) returns (mid: nat)
    requires SameKind(like, last)
    requires ScalarsAt(buffer, position, init + [last])
    ensures mid == position + |EncodeScalars(init)|
    ensures ScalarsAt(buffer, position, init)
    ensures ReadScalarF(ReaderState(buffer, mid, NoError), like) == (ReaderState(buffer, mid + Width(last), NoError), last)
    ensures position + |EncodeScalars(init + [last])| == mid + Width(last)
  {
    var vs := init + [last];
    assert vs[..|vs| - 1] == init;
    mid := position + |EncodeScalars(init)|;
    ReadScalarAt(buffer, mid, like, last);
  }

  /** One more typed read, of a value whose encoding follows, extends a run
      of reads that succeeded. */
  lemma {:induction false} ReadOneMore(st: ReaderState, likes: seq<Scalar>, like: Scalar, vs: seq<Scalar>, v: Scalar, mid: ReaderState, next: ReaderState)
    requires ReadScalarsF(st, likes) == (mid, vs)
    requires ReadScalarF(mid, like) == (next, v)
    ensures ReadScalarsF(st, likes + [like]) == (next, vs + [v])
  {
    var ls := likes + [like];
    assert ls[..|ls| - 1] == likes;
  }

  /** Once every value has been read back, one more read of any type fails. */
  lemma {:induction false} ReadPastEndFails(buffer: seq<Byte>, like: Scalar)
    ensures ReadScalarF(ReaderState(buffer, |buffer|, NoError), like).0.status == Error
  {
  }

  /** A stream in error stays in error: further typed reads change nothing and
      leave every variable as it was. */
  lemma {:induction false} ErrorIsSticky(st: ReaderState, likes: seq<Scalar>)
    requires st.status == Error
    ensures ReadScalarsF(st, likes) == (st, likes)
  {
    if likes != [] {
      var init, last := likes[..|likes| - 1], likes[|likes| - 1];
      assert likes == init + [last];
      ErrorIsSticky(st, init);
      ReadOneMore(st, init, last, init, last, st, st);
    }
  }

  // ---------------------------------------------------------------------------
  // Strings: an 8-byte length, then the code units

  /** Code units held as unsigned bit patterns of w bytes each. */
  predicate UnitsFit(us: seq<int>, w: nat)
  {
    forall i :: 0 <= i < |us| ==> 0 <= us[i] < Pow256(w)
  }

  /** Characters that are signed integers of w bytes each. */
  predicate CharsFit(s: seq<int>, w: nat)
  {
    forall i :: 0 <= i < |s| ==> InSignedRange(s[i], w)
  }

  /** The raw bytes of a run of code units. */
  function BytesOfUnits(us: seq<int>, w: nat): (bs: seq<Byte>)
    requires UnitsFit(us, w)
    ensures |bs| == |us| * w
  {
    if us == [] then []
    else
      assert |us| * w == (|us| - 1) * w + w;
      EncodeLE(us[0], w) + BytesOfUnits(us[1..], w)
  }

  /** The count code units of w bytes each that lie in bs from index from on. */
  function UnitsAt(bs: seq<Byte>, from: nat, w: nat, count: nat): (us: seq<int>)
    requires from + count * w <= |bs|
    ensures |us| == count && UnitsFit(us, w)
    decreases count
  {
    if count == 0 then []
    else
      assert count * w == (count - 1) * w + w;
      [DecodeRange(bs, from, from + w)] + UnitsAt(bs, from + w, w, count - 1)
  }

  /** Code units, like single values, depend on nothing but their bytes. */
  lemma {:induction false} UnitsAtShift(a: seq<Byte>, d: nat, b: seq<Byte>, from: nat, w: nat, count: nat)
    requires from + count * w <= |b| && from + count * w + d <= |a|
    requires forall k :: from <= k < from + count * w ==> a[k + d] == b[k]
    ensures UnitsAt(a, from + d, w, count) == UnitsAt(b, from, w, count)
    decreases count
  {
    if count > 0 {
      assert count * w == (count - 1) * w + w;
      DecodeRangeShift(a, d, b, from, from + w);
      UnitsAtShift(a, d, b, from + w, w, count - 1);
    }
  }

  /** The code units of a copied block are the code units where it was copied from. */
  lemma {:induction false} UnitsSegment(buffer: seq<Byte>, position: nat, w: nat, count: nat)
    requires position + count * w <= |buffer|
    ensures UnitsAt(Segment(buffer, position, count * w), 0, w, count) == UnitsAt(buffer, position, w, count)
  {
    UnitsAtShift(buffer, position, Segment(buffer, position, count * w), 0, w, count);
  }

  /** The bytes of written code units read back as those code units. */
  lemma {:induction false} UnitsAtBytesOfUnits(buffer: seq<Byte>, from: nat, us: seq<int>, w: nat)
    requires UnitsFit(us, w) && BytesAt(buffer, from, BytesOfUnits(us, w))
    ensures UnitsAt(buffer, from, w, |us|) == us
    decreases |us|
  {
    if us != [] {
      var head, rest := EncodeLE(us[0], w), us[1..];
      assert BytesOfUnits(us, w) == head + BytesOfUnits(rest, w);
      BytesAtConcat(buffer, from, head, BytesOfUnits(rest, w));
      DecodeAtBytes(buffer, from, head);
      DecodeEncodeLE(us[0], w);
      UnitsAtBytesOfUnits(buffer, from + w, rest, w);
      assert UnitsAt(buffer, from, w, |us|) == [DecodeRange(buffer, from, from + w)] + UnitsAt(buffer, from + w, w, |rest|);
      assert us == [us[0]] + rest;
    }
  }

  /** Characters as code units (a wchar_t widened to char32_t, or a char's bits). */
  function UnsignedUnits(s: seq<int>, w: nat): (us: seq<int>)
    requires CharsFit(s, w)
    ensures |us| == |s| && UnitsFit(us, w)
    ensures forall i :: 0 <= i < |s| ==> us[i] == ToUnsigned(s[i], w)
  {
    seq(|s|, i requires 0 <= i < |s| => ToUnsigned(s[i], w))
  }

  /** Code units as characters (a char32_t narrowed to wchar_t, or a char's bits). */
  function SignedUnits(us: seq<int>, w: nat): (s: seq<int>)
    requires w >= 1 && UnitsFit(us, w)
    ensures |s| == |us| && CharsFit(s, w)
    ensures forall i :: 0 <= i < |us| ==> s[i] == ToSigned(us[i], w)
  {
    seq(|us|, i requires 0 <= i < |us| => ToSigned(us[i], w))
  }

  /** The index of the first zero code unit, or the length when there is none. */
  function NulIndex(us: seq<int>): (k: nat)
    ensures k <= |us|
    ensures forall i :: 0 <= i < k ==> us[i] != 0
    ensures k < |us| ==> us[k] == 0
  {
    if us == [] || us[0] == 0 then 0 else 1 + NulIndex(us[1..])
  }

  lemma {:induction false} NulIndexUnique(us: seq<int>, k: nat)
    requires k <= |us|
    requires forall i :: 0 <= i < k ==> us[i] != 0
    requires k < |us| ==> us[k] == 0
    ensures k == NulIndex(us)
  {
    var n := NulIndex(us);
    assert !(k < n) && !(n < k);
  }

  /** The string a NUL-terminated buffer of code units denotes: everything
      before the first zero. It is the whole sequence exactly when there is
      no zero in it. */
  function UntilNul(us: seq<int>): (r: seq<int>)
    ensures r <= us && 0 !in r
    ensures |r| < |us| ==> us[|r|] == 0
    ensures r == us <==> 0 !in us
  {
    us[..NulIndex(us)]
  }

  /** Truncating at the first zero commutes with reinterpreting the code units
      as characters, since only the zero pattern denotes the zero character. */
  lemma {:induction false} SignedUntilNul(us: seq<int>, w: nat)
    requires w >= 1 && UnitsFit(us, w)
    ensures UnitsFit(UntilNul(us), w)
    ensures SignedUnits(UntilNul(us), w) == UntilNul(SignedUnits(us, w))
  {
    var s := SignedUnits(us, w);
    var k := NulIndex(us);
    NulIndexUnique(s, k);
    assert SignedUnits(UntilNul(us), w) == s[..k];
  }

  /** The written form of a string: its length as a size_t, then its code units. */
  function EncodeString(us: seq<int>, w: nat): (bs: seq<Byte>)
    requires UnitsFit(us, w) && |us| < 0x1_0000_0000_0000_0000
    ensures |bs| == SizeTWidth + |us| * w
  {
    EncodeScalar(SizeT(|us|)) + BytesOfUnits(us, w)
  }

  /** What a string read leaves in its target: the length could not be read;
      the length was read but the code units could not be (the source leaves
      unspecified contents); or the code units before the first zero. */
  datatype StringRead = LengthFailed | BodyFailed | Units(units: seq<int>)

  /** A string read of code units of w bytes: the length, then length * w bytes. */
  function ReadStringF(st: ReaderState, w: nat): (r: (ReaderState, StringRead))
    ensures r.0.buffer == st.buffer && (st.Valid() ==> r.0.Valid())
    ensures st.status != NoError ==> r == (st, LengthFailed)
    ensures r.1.LengthFailed? <==> RawRead(st, SizeTWidth).status != NoError
    ensures r.1.LengthFailed? ==> r.0 == RawRead(st, SizeTWidth)
    ensures r.0.status == NoError <==> r.1.Units?
    ensures r.1.Units? ==> 0 !in r.1.units && UnitsFit(r.1.units, w)
  {
    var afterLength := ReadScalarF(st, SizeT(0)).0;
    var length := ReadScalarF(st, SizeT(0)).1;
    if afterLength.status != NoError then (afterLength, LengthFailed)
    else
      var size := length.n * w;
      var afterBody := RawRead(afterLength, size);
      if afterBody.status != NoError then (afterBody, BodyFailed)
      else (afterBody, Units(UntilNul(UnitsAt(st.buffer, afterLength.position, w, length.n))))
  }

  /** Reading back a written string succeeds, consumes exactly its bytes, and
      yields its code units up to the first zero. */
  lemma {:induction false} StringRoundTrip(buffer: seq<Byte>, position: nat, us: seq<int>, w: nat)
    requires UnitsFit(us, w) && |us| < 0x1_0000_0000_0000_0000
    requires BytesAt(buffer, position, EncodeString(us, w))
    ensures ReadStringF(ReaderState(buffer, position, NoError), w)
         == (ReaderState(buffer, position + |EncodeString(us, w)|, NoError), Units(UntilNul(us)))
  {
    StringParts(buffer, position, us, w);
    ReadStringAt(buffer, position, w, |us|, position + SizeTWidth, us, position + |EncodeString(us, w)|);
  }

  /** A written string in a buffer: its length reads back, and its code units
      lie right after the length. */
  lemma {:induction false} StringParts(buffer: seq<Byte>, position: nat, us: seq<int>, w: nat)
    requires UnitsFit(us, w) && |us| < 0x1_0000_0000_0000_0000
    requires BytesAt(buffer, position, EncodeString(us, w))
    ensures ReadScalarF(ReaderState(buffer, position, NoError), SizeT(0))
         == (ReaderState(buffer, position + SizeTWidth, NoError), SizeT(|us|))
    ensures position + |EncodeString(us, w)| == position + SizeTWidth + |us| * w <= |buffer|
    ensures UnitsAt(buffer, position + SizeTWidth, w, |us|) == us
  {
    BytesAtConcat(buffer, position, EncodeScalar(SizeT(|us|)), BytesOfUnits(us, w));
    ReadScalarAt(buffer, position, SizeT(0), SizeT(|us|));
    UnitsAtBytesOfUnits(buffer, position + SizeTWidth, us, w);
  }

  /** A string read whose length reads as n, and after which n code units us
      lie in the buffer, yields us up to the first zero and stops at end. */
  lemma {:induction false} ReadStringAt(buffer: seq<Byte>, position: nat, w: nat, n: uint64, mid: nat, us: seq<int>, end: nat)
    requires ReadScalarF(ReaderState(buffer, position, NoError), SizeT(0)) == (ReaderState(buffer, mid, NoError), SizeT(n))
    requires end == mid + n * w <= |buffer|
    requires UnitsAt(buffer, mid, w, n) == us
    ensures ReadStringF(ReaderState(buffer, position, NoError), w) == (ReaderState(buffer, end, NoError), Units(UntilNul(us)))
  {
  }

  /** Characters written as a string and read back come out up to the first
      zero character: the whole string when it holds no zero. */
  lemma {:induction false} TextRoundTrip(buffer: seq<Byte>, position: nat, text: seq<int>, w: nat)
    requires w >= 1 && CharsFit(text, w) && |text| < 0x1_0000_0000_0000_0000
    requires BytesAt(buffer, position, EncodeString(UnsignedUnits(text, w), w))
    ensures var r := ReadStringF(ReaderState(buffer, position, NoError), w);
            r.0.status == NoError && r.1.Units? && SignedUnits(r.1.units, w) == UntilNul(text)
  {
    var us := UnsignedUnits(text, w);
    StringRoundTrip(buffer, position, us, w);
    SignedUntilNul(us, w);
    SignedOfUnsigned(text, w);
  }

  lemma {:induction false} SignedOfUnsigned(text: seq<int>, w: nat)
    requires w >= 1 && CharsFit(text, w)
    ensures SignedUnits(UnsignedUnits(text, w), w) == text
  {
    var back := SignedUnits(UnsignedUnits(text, w), w);
    forall i | 0 <= i < |text| ensures back[i] == text[i] {
      SignedRoundTrip(text[i], w);
    }
  }

  /** A length prefix of eight 0xFF bytes, read as a narrow string at the start
      of an 8-byte buffer, slips past the bounds check as written although the
      read it guards runs far beyond the buffer. */
  lemma {:induction false} AllOnesLengthSlipsPastGuard()
    ensures var allOnes := [0xFF, 0xFF, 0xFF, 0xFF, 0xFF, 0xFF, 0xFF, 0xFF];
            var (afterLength, length) := ReadScalarF(ReaderState(allOnes, 0, NoError), SizeT(0));
            && afterLength == ReaderState(allOnes, 8, NoError)
            && length == SizeT(0xFFFF_FFFF_FFFF_FFFF)
            && !RawReadRejectsAsWritten(afterLength.position, length.n * 1, |allOnes|)
            && RawReadRejects(afterLength.position, length.n * 1, |allOnes|)
  {
    var allOnes: seq<Byte> := [0xFF, 0xFF, 0xFF, 0xFF, 0xFF, 0xFF, 0xFF, 0xFF];
    Pow256Values();
    DecodeEncodeLE(0xFFFF_FFFF_FFFF_FFFF, 8);
    assert EncodeLE(0xFFFF_FFFF_FFFF_FFFF, 8) == allOnes;
    var st := ReaderState(allOnes, 0, NoError);
    assert RawRead(st, 8) == ReaderState(allOnes, 8, NoError);
    assert DecodeLE(allOnes) == 0xFFFF_FFFF_FFFF_FFFF;
    assert ReadScalarF(st, SizeT(0)).1 == SizeT(0xFFFF_FFFF_FFFF_FFFF);
  }
}
