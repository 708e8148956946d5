/** MemoryOutputStream appends bytes to a growing buffer; MemoryInputStream
    reads a fixed buffer through a cursor. Both carry a sticky status: once it
    is not NoError, raw reads and writes do nothing. Each method is proved
    against the functions of module StreamFormat. */
module MemoryStream {
  import opened ByteCodec
  import opened StreamFormat

  class MemoryOutputStream {
    var buffer: seq<Byte>
    /** Inherited from the stream base class, which is not part of this model;
        nothing in this class ever sets it to Error. */
    var status: Status

    constructor ()
      ensures buffer == [] && status == NoError
    {
      buffer := [];
      status := NoError;
    }

    /** The bytes written so far. */
    function GetBuffer(): seq<Byte>
      reads this
    {
      buffer
    }

    /** Raw write: appends source at the end of the buffer unless the stream
        is already in error. */
    method WriteBytes(source: seq<Byte>)
      modifies this
      ensures status == old(status)
      ensures buffer == old(buffer) + (if old(status) == NoError then source else [])
    {
      if status != NoError {
        return;
      }
      buffer := buffer + source;
    }

    /** The typed Write overloads: append the value's Width(val) bytes. */
    method WriteScalar(val: Scalar) returns (s: Status)
      modifies this
      ensures s == status == old(status)
      ensures buffer == old(buffer) + (if old(status) == NoError then EncodeScalar(val) else [])
    {
      WriteBytes(EncodeScalar(val));
      s := status;
    }

    /** WriteString for code units of w bytes: the length as a size_t, then
        the raw bytes of the units. */
    method WriteUnits(us: seq<int>, w: nat) returns (s: Status)
      requires UnitsFit(us, w) && |us| < 0x1_0000_0000_0000_0000
      modifies this
      ensures s == status == old(status)
      ensures buffer == old(buffer) + (if old(status) == NoError then EncodeString(us, w) else [])
    {
      ghost var before := buffer;
      var _ := WriteScalar(SizeT(|us|));
      WriteBytes(BytesOfUnits(us, w));
      assert before + EncodeScalar(SizeT(|us|)) + BytesOfUnits(us, w) == before + EncodeString(us, w);
      s := status;
    }

    /** Write of a std::string: one byte per char. */
    method WriteNarrowString(val: seq<int8>) returns (s: Status)
      requires |val| < 0x1_0000_0000_0000_0000
      modifies this
      ensures s == status == old(status)
      ensures buffer == old(buffer) + (if old(status) == NoError then EncodeString(UnsignedUnits(val, 1), 1) else [])
    {
      Pow256Values();
      s := WriteUnits(UnsignedUnits(val, 1), 1);
    }

    /** Write of a std::wstring: each wchar_t is widened to a 4-byte char32_t
        before it is written. */
    method WriteWideString(val: seq<int32>) returns (s: Status)
      requires |val| < 0x1_0000_0000_0000_0000
      modifies this
      ensures s == status == old(status)
      ensures buffer == old(buffer) + (if old(status) == NoError then EncodeString(UnsignedUnits(val, 4), 4) else [])
    {
      Pow256Values();
      var u32Val := UnsignedUnits(val, 4);
      s := WriteUnits(u32Val, 4);
    }
  }

  class MemoryInputStream {
    const buffer: seq<Byte>
    var position: nat
    /** Inherited from the stream base class, which is not part of this model. */
    var status: Status

    ghost function State(): ReaderState
      reads this
    {
      ReaderState(buffer, position, status)
    }

    ghost predicate Valid()
      reads this
    {
      State().Valid()
    }

    constructor (buffer: seq<Byte>)
      ensures Valid() && State() == ReaderState(buffer, 0, NoError)
    {
      this.buffer := buffer;
      position := 0;
      status := NoError;
    }

    /** Raw read of size bytes into dest: copies buffer[position..position+size)
        and advances the cursor, or sets Error and copies nothing when the read
        would run past the end; does nothing once the stream is in error. */
    method ReadBytes(dest: array<Byte>, size: nat)
      requires Valid() && size <= dest.Length
      modifies this, dest
      ensures Valid() && State() == RawRead(old(State()), size)
      ensures status == NoError ==> dest[..] == Segment(buffer, old(position), size) + old(dest[size..])
      ensures status != NoError ==> dest[..] == old(dest[..])
    {
      if status != NoError {
        return;
      }
      if RawReadRejects(position, size, |buffer|) {
        status := Error;
        return;
      }
      forall i | 0 <= i < size {
        dest[i] := buffer[position + i];
      }
      position := position + size;
    }

    /** The typed Read overloads: the variable's own bytes are overwritten by
        a raw read of its width, so a failed read leaves it as it was. */
    method ReadScalar(val: Scalar) returns (r: Scalar, s: Status)
      requires Valid()
      modifies this
      ensures Valid() && (State(), r) == ReadScalarF(old(State()), val)
      ensures s == status
    {
      var bytes := EncodeScalar(val);
      var memory := new Byte[Width(val)](i => if 0 <= i < |bytes| then bytes[i] else 0);
      assert memory[..] == bytes;
      ReadBytes(memory, Width(val));
      if status == NoError {
        assert memory[..] == Segment(buffer, old(position), Width(val));
        DecodeSegment(buffer, old(position), Width(val));
      } else {
        DecodeEncodeScalar(val, val);
      }
      r := DecodeScalar(val, memory[..]);
      s := status;
    }

    /** ReadString for code units of w bytes: reads the length, then the units
        into a fresh buffer, and keeps what comes before the first zero unit.
        If the length cannot be read, the target keeps val. */
    method ReadUnits(w: nat, val: seq<int>) returns (r: seq<int>, s: Status)
      requires Valid() && UnitsFit(val, w)
      modifies this
      ensures Valid() && State() == ReadStringF(old(State()), w).0
      ensures s == status && UnitsFit(r, w)
      ensures ReadStringF(old(State()), w).1.LengthFailed? ==> r == val
      ensures ReadStringF(old(State()), w).1.Units? ==> r == ReadStringF(old(State()), w).1.units
    {
      var count, countStatus := ReadScalar(SizeT(0));
      if countStatus != NoError {
        return val, status;
      }
      var size := count.n * w;
      var str := new Byte[size];
      ghost var start := position;
      ReadBytes(str, size);
      if status == NoError {
        assert str[..] == Segment(buffer, start, size);
        UnitsSegment(buffer, start, w, count.n);
      }
      r := UntilNul(UnitsAt(str[..], 0, w, count.n));
      s := status;
    }

    /** Read of a std::string. When the length cannot be read the target is
        left untouched. */
    method ReadNarrowString(val: seq<int8>) returns (r: seq<int8>, s: Status)
      requires Valid()
      modifies this
      ensures Valid() && State() == ReadStringF(old(State()), 1).0 && s == status
      ensures ReadStringF(old(State()), 1).1.LengthFailed? ==> r == val
      ensures ReadStringF(old(State()), 1).1.Units? ==> r == SignedUnits(ReadStringF(old(State()), 1).1.units, 1)
    {
      Pow256Values();
      var units;
      units, s := ReadUnits(1, UnsignedUnits(val, 1));
      if ReadStringF(old(State()), 1).1.LengthFailed? {
        SignedOfUnsigned(val, 1);
      }
      r := SignedUnits(units, 1);
    }

    /** Read of a std::wstring: the 4-byte code units are narrowed back to
        wchar_t one by one. The target is cleared even when the length cannot
        be read. */
    method ReadWideString(val: seq<int32>) returns (r: seq<int32>, s: Status)
      requires Valid()
      modifies this
      ensures Valid() && State() == ReadStringF(old(State()), 4).0 && s == status
      ensures ReadStringF(old(State()), 4).1.LengthFailed? ==> r == []
      ensures ReadStringF(old(State()), 4).1.Units? ==> r == SignedUnits(ReadStringF(old(State()), 4).1.units, 4)
    {
      Pow256Values();
      var u32Val, unitsStatus := ReadUnits(4, []);
      r := [];
      var i := 0;
      while i < |u32Val|
        invariant 0 <= i <= |u32Val|
        invariant |r| == i
        invariant forall k :: 0 <= k < i ==> r[k] == ToSigned(u32Val[k], 4)
      {
        r := r + [ToSigned(u32Val[i], 4)];
        i := i + 1;
      }
      s := unitsStatus;
    }
  }
}
