# Memory streams and NodeCollection of NodeEngine, in Dafny

This project models two parts of NodeEngine.

- **The in-memory streams.** `MemoryOutputStream` appends the bytes of values to a growing
  buffer. `MemoryInputStream` reads them back through a cursor. Both carry a sticky status:
  once it is not `NoError`, raw reads and writes do nothing. Every scalar overload (`bool`,
  `char`, `unsigned char`, `short`, `size_t`, `int`, `float`, `double`) copies the value's own
  bytes. A string is written as its length (a `size_t`) followed by its code units. A wide
  string travels as 4-byte `char32_t` units.
- **`NodeCollection`.** It holds an ordered sequence of node ids plus a parallel set used for
  membership tests. It is saved as an object header, the id count, and then the ids in order.

Files:

- `byte_codec.dfy` (module `ByteCodec`): the little-endian, two's complement byte layout of
  fixed-width integers.
- `stream_format.dfy` (module `StreamFormat`): the wire format and the effect of reads, as
  functions over a value `ReaderState(buffer, position, status)`. It holds the raw read with
  its bounds check, the typed reads, and string reads. The round-trip lemmas are here.
- `memory_stream.dfy` (module `MemoryStream`): the two stream classes. Their fields are updated
  in place, and every method is proved against the functions of `StreamFormat`.
- `node_collection.dfy` (module `NodeCollections`): the `NodeCollection` class and its
  serialised form, with the write-then-read round trip.

### Duplicate ids

`Insert` appends the id to the sequence and adds it to the set without checking membership
(`NE_NodeCollection.cpp:60-64`). `IsEmpty`, however, asserts that the sequence and the set
are empty together (`NE_NodeCollection.cpp:27-31`), as they are when both hold the same ids.
The model follows the code.

- `NodeCollection.Valid()` is the invariant that assertion expects: the set equals the
  sequence's elements, with no duplicates. `Insert` keeps it only for an id that is not yet a
  member.
- `InsertTwiceThenErase` proves what happens otherwise. After inserting an id twice and
  erasing it once, the sequence still holds the id but the set does not.
- `NodeCollection.Consistent()` is a weaker property: every id of the set is in the sequence.
  It holds after every operation.
- `Erase` requires `Consistent()`. If the set held an id the sequence lacked, `std::find`
  would return `end()` and `erase` would be undefined (`NE_NodeCollection.cpp:66-72`).

## Model

| member | source | states |
|---|---|---|
| ByteCodec.DecodeEncodeLE | Sources/NodeEngine/NE_MemoryStream.cpp:180-226 | the w bytes that represent a value below 256^w give back exactly that value |
| ByteCodec.EncodeDecodeLE | Sources/NodeEngine/NE_MemoryStream.cpp:92-138 | every byte string is the representation of the value it decodes to |
| ByteCodec.SignedRoundTrip | Sources/NodeEngine/NE_MemoryStream.cpp:98-126 | a signed char, short or int, stored as its two's complement pattern and reinterpreted as signed, is unchanged |
| ByteCodec.ToSigned | Sources/NodeEngine/NE_MemoryStream.cpp:98-126 | reinterpreting a bit pattern as signed lands in the type's range, maps only zero to zero, and is undone by taking the pattern again |
| StreamFormat.FromBitsBits | Sources/NodeEngine/NE_MemoryStream.cpp:92-138 | a value's memory pattern, read into a variable of the same type, is that value again |
| StreamFormat.DecodeEncodeScalar | Sources/NodeEngine/NE_MemoryStream.cpp:180-226 | the bytes a typed Write emits decode, under the same overload, to the written value |
| StreamFormat.EncodeDecodeScalar | Sources/NodeEngine/NE_MemoryStream.cpp:92-138 | any bytes of the right width are the encoding of what they decode to, except a bool byte above 1 |
| StreamFormat.GuardsAgreeWithoutWrapAround | Sources/NodeEngine/NE_MemoryStream.cpp:155 | the size_t bounds test and the exact test `position + size > length` agree whenever the sum fits in 64 bits |
| StreamFormat.RawRead | Sources/NodeEngine/NE_MemoryStream.cpp:150-161 | nothing changes in error; the read succeeds exactly when it stays inside the buffer; the cursor advances by size on success and stays on failure; the cursor never passes the end |
| StreamFormat.ReadScalarF | Sources/NodeEngine/NE_MemoryStream.cpp:92-138 | a typed read moves the stream as a raw read of the type's width, yields a value of the same type, and leaves the variable as it was when the read fails |
| StreamFormat.ReadScalarAt | Sources/NodeEngine/NE_MemoryStream.cpp:92-138 | where the buffer holds the encoding of v at the cursor, a read of v's type yields v whatever the variable held, and moves past it |
| StreamFormat.ScalarsRoundTrip | Sources/NodeEngine/NE_MemoryStream.cpp:92-138 | scalars read back in the order they were written, into variables of the same types whatever those variables held, come out as the written values, without error, with the cursor right after them |
| StreamFormat.ReadPastEndFails | Sources/NodeEngine/NE_MemoryStream.cpp:155-157 | at the end of the buffer, a read of any type sets the error |
| StreamFormat.ErrorIsSticky | Sources/NodeEngine/NE_MemoryStream.cpp:150-154 | a stream in error stays so: any sequence of typed reads leaves the state and every variable unchanged |
| StreamFormat.UnitsAtBytesOfUnits | Sources/NodeEngine/NE_MemoryStream.cpp:34-35 | the raw bytes of written code units, read as units of the same width, are those units |
| StreamFormat.UntilNul | Sources/NodeEngine/NE_MemoryStream.cpp:36-38 | assigning a NUL-terminated buffer keeps the prefix before the first zero unit; it is the whole buffer exactly when it contains no zero |
| StreamFormat.SignedUntilNul | Sources/NodeEngine/NE_MemoryStream.cpp:57-66 | narrowing char32_t units to wchar_t commutes with cutting at the first zero |
| StreamFormat.ReadStringF | Sources/NodeEngine/NE_MemoryStream.cpp:26-42 | in error, or when the length cannot be read, the target is untouched; the result is a string exactly when the status stays NoError; that string holds no zero and fits the unit width |
| StreamFormat.StringRoundTrip | Sources/NodeEngine/NE_MemoryStream.cpp:26-50 | a written string read back succeeds, consumes exactly its length field and units, and yields its units up to the first zero |
| StreamFormat.TextRoundTrip | Sources/NodeEngine/NE_MemoryStream.cpp:52-77 | a narrow or wide string written and read back is the original up to its first zero character |
| StreamFormat.AllOnesLengthSlipsPastGuard | Sources/NodeEngine/NE_MemoryStream.cpp:155 | a length of 2^64-1 at the start of an 8-byte buffer passes the wrapping size_t test although the read runs past the end |
| MemoryStream.MemoryOutputStream.constructor | Sources/NodeEngine/NE_MemoryStream.cpp:163-168 | a new output stream is empty and without error |
| MemoryStream.MemoryOutputStream.WriteBytes | Sources/NodeEngine/NE_MemoryStream.cpp:238-244 | the bytes are appended when there is no error; otherwise nothing changes; the status is never changed |
| MemoryStream.MemoryOutputStream.WriteScalar | Sources/NodeEngine/NE_MemoryStream.cpp:180-226 | every typed Write appends the value's memory bytes, of the type's width, and returns the status |
| MemoryStream.MemoryOutputStream.WriteUnits | Sources/NodeEngine/NE_MemoryStream.cpp:44-50 | a string write appends the string's written form: its length, then its units |
| MemoryStream.MemoryOutputStream.WriteNarrowString | Sources/NodeEngine/NE_MemoryStream.cpp:68-71 | a std::string is written as its length and one byte per char |
| MemoryStream.MemoryOutputStream.WriteWideString | Sources/NodeEngine/NE_MemoryStream.cpp:73-77 | a std::wstring is written as its length and each character widened to 4 bytes |
| MemoryStream.MemoryInputStream.constructor | Sources/NodeEngine/NE_MemoryStream.cpp:79-85 | a new input stream reads the given buffer from position 0 without error |
| MemoryStream.MemoryInputStream.ReadBytes | Sources/NodeEngine/NE_MemoryStream.cpp:150-161 | on success the destination's first size bytes are the buffer's bytes at the cursor and the rest is untouched; on failure the destination is untouched; the new state is RawRead's |
| MemoryStream.MemoryInputStream.ReadScalar | Sources/NodeEngine/NE_MemoryStream.cpp:92-138 | every typed Read yields the value and state of ReadScalarF: the decoded value on success, the old value on failure |
| MemoryStream.MemoryInputStream.ReadUnits | Sources/NodeEngine/NE_MemoryStream.cpp:26-42 | the string read ends in ReadStringF's state; the target keeps its value when the length cannot be read, and otherwise receives the units before the first zero |
| MemoryStream.MemoryInputStream.ReadNarrowString | Sources/NodeEngine/NE_MemoryStream.cpp:52-55 | a std::string read leaves the target untouched when the length fails, and otherwise yields the chars before the first NUL |
| MemoryStream.MemoryInputStream.ReadWideString | Sources/NodeEngine/NE_MemoryStream.cpp:57-66 | a std::wstring read clears the target even when the length fails, and otherwise yields each unit narrowed to wchar_t, up to the first zero |
| NodeCollections.FirstIndex | Sources/NodeEngine/Sources/NE_NodeCollection.cpp:69 | the position std::find reaches: the first occurrence at or after the start, or the end when there is none |
| NodeCollections.Find | Sources/NodeEngine/Sources/NE_NodeCollection.cpp:69 | std::find returns the index of the first occurrence, or the length when the id is absent; this is the index `FirstIndex` defines, on which `RemoveFirst` is built |
| NodeCollections.RemoveFirst | Sources/NodeEngine/Sources/NE_NodeCollection.cpp:69 | erasing the first occurrence shortens the sequence by one when the id is present and changes nothing when it is absent |
| NodeCollections.RemoveFirstAt | Sources/NodeEngine/Sources/NE_NodeCollection.cpp:69 | erasing the first occurrence found at index i keeps the ids before and after it, in order |
| NodeCollections.RemoveFirstMultiset | Sources/NodeEngine/Sources/NE_NodeCollection.cpp:69 | erasing removes exactly one copy of the id and nothing else |
| NodeCollections.RemoveFirstKeepsDistinct | Sources/NodeEngine/Sources/NE_NodeCollection.cpp:66-72 | in a sequence without duplicates, erasing keeps it without duplicates and removes the id from its elements |
| NodeCollections.CardElements | Sources/NodeEngine/Sources/NE_NodeCollection.cpp:38-41 | a sequence without duplicates has as many ids as its set |
| NodeCollections.NodeCollection.constructor | Sources/NodeEngine/Sources/NE_NodeCollection.cpp:10-13 | a new collection is empty and satisfies the invariant |
| NodeCollections.NodeCollection.Single | Sources/NodeEngine/Sources/NE_NodeCollection.cpp:15-20 | a collection built from one id holds exactly that id, in sequence and set |
| NodeCollections.NodeCollection.IsEmpty | Sources/NodeEngine/Sources/NE_NodeCollection.cpp:27-31 | empty means a count of zero; an empty sequence has an empty set; under the invariant the set's emptiness gives the same answer |
| NodeCollections.NodeCollection.Contains | Sources/NodeEngine/Sources/NE_NodeCollection.cpp:33-36 | a member of the set is in the sequence; under the invariant membership in the set and in the sequence coincide |
| NodeCollections.NodeCollection.Count | Sources/NodeEngine/Sources/NE_NodeCollection.cpp:38-41 | under the invariant the count equals the number of distinct ids |
| NodeCollections.NodeCollection.GetLast | Sources/NodeEngine/Sources/NE_NodeCollection.cpp:43-49 | NullNodeId for an empty collection, otherwise the most recently inserted id still present, which Contains confirms under the invariant |
| NodeCollections.NodeCollection.Enumerate | Sources/NodeEngine/Sources/NE_NodeCollection.cpp:51-58 | the processor sees a prefix of the sequence in order; every call but the last returned true; it stops early only after a false |
| NodeCollections.NodeCollection.Insert | Sources/NodeEngine/Sources/NE_NodeCollection.cpp:60-64 | the id is appended to the sequence and added to the set; the invariant survives a new id and breaks on a present one; afterwards the id is contained, last, and counted |
| NodeCollections.NodeCollection.Erase | Sources/NodeEngine/Sources/NE_NodeCollection.cpp:66-72 | a non-member is ignored; a member loses its first occurrence and leaves the set; the invariant is kept and the id is then absent |
| NodeCollections.NodeCollection.Clear | Sources/NodeEngine/Sources/NE_NodeCollection.cpp:74-78 | afterwards the collection is empty and satisfies the invariant |
| NodeCollections.NodeCollection.Equals | Sources/NodeEngine/Sources/NE_NodeCollection.cpp:80-83 | under the invariant on both sides, two collections are equal exactly when they hold the same ids in the same order |
| NodeCollections.NodeCollection.NotEquals | Sources/NodeEngine/Sources/NE_NodeCollection.cpp:85-88 | inequality is the negation of equality; under the invariant on both sides, two collections differ exactly when their id sequences differ |
| NodeCollections.NodeCollection.Write | Sources/NodeEngine/Sources/NE_NodeCollection.cpp:104-112 | a collection is saved as its header, its count and its ids in order, and the stream status is returned |
| NodeCollections.NodeCollection.Read | Sources/NodeEngine/Sources/NE_NodeCollection.cpp:90-102 | reading into an empty collection consumes and inserts what ReadCollectionF says; the set then holds exactly the ids read |
| NodeCollections.NodeCollection.ReadIds | Sources/NodeEngine/Sources/NE_NodeCollection.cpp:96-100 | count ids are read and inserted in order, as ReadIdsF says, and the set holds exactly them |
| NodeCollections.WriteIds | Sources/NodeEngine/Sources/NE_NodeCollection.cpp:108-110 | the loop of Write appends the ids' encodings in sequence order |
| NodeCollections.WriteNodeId | Sources/NodeEngine/Sources/NE_NodeCollection.cpp:109 | an id is written as one size_t |
| NodeCollections.ReadNodeId | Sources/NodeEngine/Sources/NE_NodeCollection.cpp:97-98 | an id is read as one size_t into a fresh NodeId |
| NodeCollections.WriteHeader | Sources/NodeEngine/Sources/NE_NodeCollection.cpp:106 | the object header is appended before the count |
| NodeCollections.ReadHeader | Sources/NodeEngine/Sources/NE_NodeCollection.cpp:93 | the object header is consumed as a raw read of its size |
| NodeCollections.ReadIdsF | Sources/NodeEngine/Sources/NE_NodeCollection.cpp:96-100 | the read loop inserts exactly count ids, and the cursor stays inside the buffer |
| NodeCollections.IdsRoundTrip | Sources/NodeEngine/Sources/NE_NodeCollection.cpp:96-100 | written ids read back in order, without error |
| NodeCollections.CollectionRoundTrip | Sources/NodeEngine/Sources/NE_NodeCollection.cpp:90-112 | reading what Write produced yields the same ids in the same order, without error, and consumes exactly the written bytes |
| NodeCollections.WriteThenRead | Sources/NodeEngine/Sources/NE_NodeCollection.cpp:90-112 | a collection written and read back has the same sequence and the set of its ids; it equals the original exactly when the original's set matches its sequence |
| NodeCollections.InsertTwiceThenErase | Sources/NodeEngine/Sources/NE_NodeCollection.cpp:60-72 | inserting an id twice and erasing it once leaves it in the sequence but not in the set, so the invariant is broken, Contains denies it, and IsEmpty is false |

## Left out

- Byte order and layout: the source copies the host's native bytes. The model fixes
  little-endian and two's complement, with widths as the static asserts pin them (size_t of 8
  bytes).
- Floating point: `float` and `double` travel as 32- and 64-bit patterns. No arithmetic is done
  on them.
- `wchar_t` is modelled as a signed 32-bit integer (`int32`), with 4 bytes as on the
  non-Windows platforms. The 2-byte Windows `wchar_t` is not modelled, nor the unsigned 32-bit
  `wchar_t` of AArch64 Linux: round trips are the same there, but `ReadWideString` would give
  non-negative values for units of 2^31 and above, where the model gives negative ones.
- `MemoryOutputStream.GetBuffer` is a plain accessor of the buffer, with no contract of its own.
- Error handling that is not part of this model:
  - the stream base classes that own the status, and their setters, are not part of this
    model (only `NoError` and `Error` are modelled);
  - `DBGASSERT` and `DBGERROR` reporting;
  - allocation failure of `new`.
- MemoryStream.MemoryInputStream.ReadUnits: the model allocates `count * sizeof(CharType)`
  bytes with no slot for the terminator; `UntilNul` stands for writing the terminator and
  assigning the string (`NE_MemoryStream.cpp:36-38`). The model computes that product without
  wrap-around, so a wide string whose length field is at least 2^62 does not wrap as it does
  in the source. Nor does the model capture that for a length of 2^64-1 the source's
  `count + 1` (line 34) wraps to 0, so `str[count] = 0` (line 36) writes outside a zero-length
  allocation.
- MemoryStream.MemoryInputStream.ReadUnits: when the length is read but the code units cannot
  be, the source assigns an uninitialised buffer. The model leaves the result unconstrained
  (`BodyFailed`), beyond its unit width.
- StreamFormat.Scalar: `Char` carries an `int8`, so plain `char` is taken to be signed; on
  platforms where `char` is unsigned its values would be 0 to 255.
- StreamFormat.FromBits: a `bool` byte above 1 reads as `true`. In C++, loading a `bool`
  whose byte is neither 0 nor 1 is undefined behaviour.
- NodeId and ObjectHeader are outside this model.
  - A `NodeId` is its `size_t` value, written as one `size_t`. `NullNodeId` is the value 0.
  - A default-constructed `NodeId` (`NodeId nodeId;` in `Read`, `NE_NodeCollection.cpp:97`) is
    taken to be `NullNodeId`; `NodeId`'s constructor is not part of this model. So `ReadIdsF`
    inserts `NullNodeId` for an id that cannot be read.
  - The object header is an opaque 8-byte prefix. Reading it consumes 8 bytes; the version it
    carries is not checked.
- NodeCollections.NodeCollection.Write and NodeCollections.CollectionRoundTrip require fewer
  than 2^64 ids, because the count is written as a `size_t`.
- NodeCollections.NodeCollection.Read requires an empty collection: the source asserts
  `IsEmpty()` on entry.
- NodeCollections.NodeCollection.Enumerate: the processor is a pure function. A processor
  with side effects, such as one that changes the collection, is not modelled.

## Findings

| source | as written | input that shows it | evidently intended | confidence | as-written member | corrected member |
|---|---|---|---|---|---|---|
| Sources/NodeEngine/NE_MemoryStream.cpp:155 | the bounds test `position + size > buffer.size ()` adds in `size_t`, so a huge size wraps around and passes | a narrow string whose length field is eight 0xFF bytes, at the start of an 8-byte buffer: position 8 plus size 2^64-1 wraps to 7, which is not greater than 8, so the read goes ahead; the end iterator `buffer.begin () + position + size` (line 159) wraps to `begin () + 7` as well, so `std::copy` receives a reversed range (undefined behaviour), and `position` wraps to 7 (line 160) | reject every read that would run past the end of the buffer | not executed | StreamFormat.RawReadRejectsAsWritten, StreamFormat.AllOnesLengthSlipsPastGuard | StreamFormat.RawReadRejects, StreamFormat.RawRead, MemoryStream.MemoryInputStream.ReadBytes |
