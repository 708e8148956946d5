/** NodeCollection: an ordered sequence of node ids with a parallel set for
    membership tests, and its versioned serialisation through the memory
    streams. */
module NodeCollections {
  import opened ByteCodec
  import opened StreamFormat
  import opened MemoryStream

  /** A node identity. The NodeId class is not part of this model: it is
      represented by the size_t value it carries, written as one size_t. */
  datatype NodeId = NodeId(id: uint64)

  /** The "no node" id; its value is a choice of this model. */
  const NullNodeId: NodeId := NodeId(0)

  function EncodeNodeId(nodeId: NodeId): (bs: seq<Byte>)
    ensures |bs| == SizeTWidth
  {
    EncodeScalar(SizeT(nodeId.id))
  }

  /** The object header written before the collection. Its layout is not
      part of this model: it is an opaque 8-byte prefix, here the version 1
      laid out as a size_t. */
  const HeaderBytes: seq<Byte> := [1, 0, 0, 0, 0, 0, 0, 0]

  // ---------------------------------------------------------------------------
  // Sequences of ids

  function Elements(s: seq<NodeId>): set<NodeId>
  {
    set x | x in s
  }

  predicate NoDuplicates(s: seq<NodeId>)
  {
    forall i, j :: 0 <= i < j < |s| ==> s[i] != s[j]
  }

  /** Without duplicates, the sequence has as many elements as its set. */
  lemma {:induction false} CardElements(s: seq<NodeId>)
    ensures NoDuplicates(s) ==> |Elements(s)| == |s|
  {
    if s != [] && NoDuplicates(s) {
      DistinctTail(s);
      CardElements(s[1..]);
      ElementsCons(s);
    }
  }

  lemma {:induction false} ElementsCons(s: seq<NodeId>)
    requires s != []
    ensures Elements(s) == Elements(s[1..]) + {s[0]}
  {
    assert s == [s[0]] + s[1..];
  }

  lemma {:induction false} ElementsSnoc(s: seq<NodeId>, x: NodeId)
    ensures Elements(s + [x]) == Elements(s) + {x}
  {
    var t := s + [x];
    forall y | y in t ensures y in s || y == x {
      var k :| 0 <= k < |t| && t[k] == y;
      if k < |s| {
        assert y == s[k];
      }
    }
    forall y | y in s ensures y in t {
      var k :| 0 <= k < |s| && s[k] == y;
      assert t[k] == y;
    }
  }

  /** The tail of a sequence without duplicates has none, and lacks the head. */
  lemma {:induction false} DistinctTail(s: seq<NodeId>)
    requires s != [] && NoDuplicates(s)
    ensures NoDuplicates(s[1..]) && s[0] !in Elements(s[1..])
  {
    var t := s[1..];
    forall i, j | 0 <= i < j < |t| ensures t[i] != t[j] {
      assert t[i] == s[i + 1] && t[j] == s[j + 1];
    }
    forall k | 0 <= k < |t| ensures t[k] != s[0] {
      assert t[k] == s[k + 1];
    }
  }

  /** The index of the first occurrence of x at or after from, or |s| when
      there is none. */
  function FirstIndex(s: seq<NodeId>, x: NodeId, from: nat): (i: nat)
    requires from <= |s|
    ensures from <= i <= |s|
    ensures i < |s| ==> s[i] == x
    ensures forall k :: from <= k < i ==> s[k] != x
    decreases |s| - from
  {
    if from == |s| || s[from] == x then from else FirstIndex(s, x, from + 1)
  }

  /** The sequence without the first occurrence of x. */
  function RemoveFirst(s: seq<NodeId>, x: NodeId): (r: seq<NodeId>)
    ensures x in s ==> |r| == |s| - 1
    ensures x !in s ==> r == s
  {
    var i := FirstIndex(s, x, 0);
    if i < |s| then s[..i] + s[i + 1..] else s
  }

  /** Removing the first occurrence, found at index i, keeps the ids before
      and after it in their order. */
  lemma {:induction false} RemoveFirstAt(s: seq<NodeId>, x: NodeId, i: nat)
    requires i < |s| && s[i] == x
    requires forall k :: 0 <= k < i ==> s[k] != x
    ensures RemoveFirst(s, x) == s[..i] + s[i + 1..]
  {
    assert FirstIndex(s, x, 0) == i;
  }

  /** Removing the first occurrence takes exactly one copy of x away, and
      nothing else. */
  lemma {:induction false} RemoveFirstMultiset(s: seq<NodeId>, x: NodeId)
    ensures multiset(RemoveFirst(s, x)) == multiset(s) - multiset{x}
  {
    var i := FirstIndex(s, x, 0);
    if i < |s| {
      assert s == s[..i] + [x] + s[i + 1..];
    } else {
      assert x !in multiset(s);
    }
  }

  /** Removing an id from a sequence without duplicates removes it from its
      elements and keeps it free of duplicates. */
  lemma {:induction false} RemoveFirstKeepsDistinct(s: seq<NodeId>, x: NodeId, i: nat)
    requires NoDuplicates(s) && i < |s| && s[i] == x
    ensures RemoveFirst(s, x) == s[..i] + s[i + 1..]
    ensures NoDuplicates(RemoveFirst(s, x))
    ensures Elements(RemoveFirst(s, x)) == Elements(s) - {x}
  {
    RemoveFirstAt(s, x, i);
    DistinctWithout(s, i);
    ElementsWithout(s, i);
  }

  lemma {:induction false} DistinctWithout(s: seq<NodeId>, i: nat)
    requires NoDuplicates(s) && i < |s|
    ensures NoDuplicates(s[..i] + s[i + 1..])
  {
    var r := s[..i] + s[i + 1..];
    forall a, b | 0 <= a < b < |r| ensures r[a] != r[b] {
      assert r[a] == s[if a < i then a else a + 1];
      assert r[b] == s[if b < i then b else b + 1];
    }
  }

  lemma {:induction false} ElementsWithout(s: seq<NodeId>, i: nat)
    requires NoDuplicates(s) && i < |s|
    ensures Elements(s[..i] + s[i + 1..]) == Elements(s) - {s[i]}
  {
    var r := s[..i] + s[i + 1..];
    forall k | 0 <= k < |r| ensures r[k] in s && r[k] != s[i] {
      assert r[k] == s[if k < i then k else k + 1];
    }
    forall k | 0 <= k < |s| && k != i ensures s[k] in r {
      assert s[k] == r[if k < i then k else k - 1];
    }
  }

  /** std::find: the index of the first occurrence of x, or |s| when absent. */
  method Find(s: seq<NodeId>, x: NodeId) returns (i: nat)
    ensures i <= |s|
    ensures i < |s| ==> s[i] == x
    ensures forall k :: 0 <= k < i ==> s[k] != x
    ensures i == FirstIndex(s, x, 0)
  {
    i := 0;
    while i < |s| && s[i] != x
      invariant i <= |s|
      invariant forall k :: 0 <= k < i ==> s[k] != x
    {
      i := i + 1;
    }
    var j := FirstIndex(s, x, 0);
    assert !(i < j) && !(j < i);
  }

  // ---------------------------------------------------------------------------
  // Serialised form

  /** The ids, one size_t each, in sequence order. */
  function EncodeIds(ids: seq<NodeId>): (bs: seq<Byte>)
    ensures |bs| == SizeTWidth * |ids|
  {
    if ids == [] then [] else EncodeIds(ids[..|ids| - 1]) + EncodeNodeId(ids[|ids| - 1])
  }

  lemma {:induction false} EncodeIdsSnoc(ids: seq<NodeId>, i: nat)
    requires i < |ids|
    ensures EncodeIds(ids[..i + 1]) == EncodeIds(ids[..i]) + EncodeNodeId(ids[i])
  {
    assert ids[..i + 1][..i] == ids[..i];
  }

  /** What Write emits: the header, the count as a size_t, then the ids. */
  function Serialized(ids: seq<NodeId>): seq<Byte>
    requires |ids| < 0x1_0000_0000_0000_0000
  {
    HeaderBytes + EncodeScalar(SizeT(|ids|)) + EncodeIds(ids)
  }

  /** The three parts Write appends, one after the other, are the serialised
      form appended at once. */
  lemma {:induction false} SerializedAfter(prefix: seq<Byte>, ids: seq<NodeId>)
    requires |ids| < 0x1_0000_0000_0000_0000
    ensures prefix + HeaderBytes + EncodeScalar(SizeT(|ids|)) + EncodeIds(ids) == prefix + Serialized(ids)
  {
    var a, b, c := HeaderBytes, EncodeScalar(SizeT(|ids|)), EncodeIds(ids);
    assert prefix + a + b + c == prefix + (a + b + c);
  }

  /** count iterations of "read an id into a fresh NodeId, insert it": an id
      that cannot be read is inserted as the default NullNodeId. */
  function ReadIdsF(st: ReaderState, count: nat): (r: (ReaderState, seq<NodeId>))
    ensures |r.1| == count && r.0.buffer == st.buffer
    ensures st.Valid() ==> r.0.Valid()
    decreases count
  {
    if count == 0 then (st, [])
    else
      var before := ReadIdsF(st, count - 1);
      var next := ReadScalarF(before.0, SizeT(NullNodeId.id));
      (next.0, before.1 + [NodeId(next.1.n)])
  }

  /** What Read consumes and the ids it inserts: the header, the count (zero
      if it cannot be read), then count ids. */
  function ReadCollectionF(st: ReaderState): (r: (ReaderState, seq<NodeId>))
    ensures r.0.buffer == st.buffer
    ensures st.Valid() ==> r.0.Valid()
  {
    var afterHeader := RawRead(st, |HeaderBytes|);
    var count := ReadScalarF(afterHeader, SizeT(0));
    ReadIdsF(count.0, count.1.n)
  }

  /** Reading back ids that were written yields them in order, without error. */
  lemma {:induction false} IdsRoundTrip(buffer: seq<Byte>, position: nat, ids: seq<NodeId>)
    requires BytesAt(buffer, position, EncodeIds(ids))
    ensures ReadIdsF(ReaderState(buffer, position, NoError), |ids|)
         == (ReaderState(buffer, position + |EncodeIds(ids)|, NoError), ids)
  {
    if ids != [] {
      var init, last := ids[..|ids| - 1], ids[|ids| - 1];
      assert ids == init + [last];
      var mid := IdsAtLast(buffer, position, init, last);
      IdsRoundTrip(buffer, position, init);
      ReadOneMoreId(ReaderState(buffer, position, NoError), init, last,
                    ReaderState(buffer, mid, NoError), ReaderState(buffer, mid + SizeTWidth, NoError));
    }
  }

  /** The last of the ids written from position on reads back where the
      encodings of the others end. */
  lemma {:induction false} IdsAtLast(buffer: seq<Byte>, position: nat, init: seq<NodeId>, last: NodeId) returns (mid: nat)
    requires BytesAt(buffer, position, EncodeIds(init + [last]))
    ensures mid == position + |EncodeIds(init)|
    ensures BytesAt(buffer, position, EncodeIds(init))
    ensures ReadScalarF(ReaderState(buffer, mid, NoError), SizeT(NullNodeId.id))
         == (ReaderState(buffer, mid + SizeTWidth, NoError), SizeT(last.id))
    ensures position + |EncodeIds(init + [last])| == mid + SizeTWidth
  {
    var ids := init + [last];
    assert ids[..|ids| - 1] == init;
    mid := position + |EncodeIds(init)|;
    BytesAtConcat(buffer, position, EncodeIds(init), EncodeNodeId(last));
    ReadScalarAt(buffer, mid, SizeT(NullNodeId.id), SizeT(last.id));
  }

  /** One more id read extends a run of id reads that succeeded. */
  lemma {:induction false} ReadOneMoreId(st: ReaderState, init: seq<NodeId>, last: NodeId, mid: ReaderState, next: ReaderState)
    requires ReadIdsF(st, |init|) == (mid, init)
    requires ReadScalarF(mid, SizeT(NullNodeId.id)) == (next, SizeT(last.id))
    ensures ReadIdsF(st, |init| + 1) == (next, init + [last])
  {
  }

  /** Reading a serialised collection yields its ids in order, without error,
      and consumes exactly the serialised bytes. */
  lemma {:induction false} CollectionRoundTrip(buffer: seq<Byte>, position: nat, ids: seq<NodeId>)
    requires |ids| < 0x1_0000_0000_0000_0000
    requires BytesAt(buffer, position, Serialized(ids))
    ensures ReadCollectionF(ReaderState(buffer, position, NoError))
         == (ReaderState(buffer, position + |Serialized(ids)|, NoError), ids)
  {
    var afterHeader := position + |HeaderBytes|;
    var afterCount := afterHeader + SizeTWidth;
    SerializedParts(buffer, position, ids);
    ReadCollectionSteps(ReaderState(buffer, position, NoError), ReaderState(buffer, afterHeader, NoError),
                        ReaderState(buffer, afterCount, NoError), |ids|,
                        ReaderState(buffer, afterCount + |EncodeIds(ids)|, NoError), ids);
  }

  /** A serialised collection in a buffer: the header is skipped, the count
      reads back as the number of ids, and the ids that follow read back. */
  lemma {:induction false} SerializedParts(buffer: seq<Byte>, position: nat, ids: seq<NodeId>)
    requires |ids| < 0x1_0000_0000_0000_0000
    requires BytesAt(buffer, position, Serialized(ids))
    ensures RawRead(ReaderState(buffer, position, NoError), |HeaderBytes|)
         == ReaderState(buffer, position + |HeaderBytes|, NoError)
    ensures ReadScalarF(ReaderState(buffer, position + |HeaderBytes|, NoError), SizeT(0))
         == (ReaderState(buffer, position + |HeaderBytes| + SizeTWidth, NoError), SizeT(|ids|))
    ensures ReadIdsF(ReaderState(buffer, position + |HeaderBytes| + SizeTWidth, NoError), |ids|)
         == (ReaderState(buffer, position + |HeaderBytes| + SizeTWidth + |EncodeIds(ids)|, NoError), ids)
    ensures |Serialized(ids)| == |HeaderBytes| + SizeTWidth + |EncodeIds(ids)|
  {
    SerializedSplit(buffer, position, ids);
    ReadScalarAt(buffer, position + |HeaderBytes|, SizeT(0), SizeT(|ids|));
    IdsRoundTrip(buffer, position + |HeaderBytes| + SizeTWidth, ids);
  }

  /** The three parts of a serialised collection lie one after the other. */
  lemma {:induction false} SerializedSplit(buffer: seq<Byte>, position: nat, ids: seq<NodeId>)
    requires |ids| < 0x1_0000_0000_0000_0000
    requires BytesAt(buffer, position, Serialized(ids))
    ensures position + |HeaderBytes| <= |buffer|
    ensures BytesAt(buffer, position + |HeaderBytes|, EncodeScalar(SizeT(|ids|)))
    ensures BytesAt(buffer, position + |HeaderBytes| + SizeTWidth, EncodeIds(ids))
    ensures |Serialized(ids)| == |HeaderBytes| + SizeTWidth + |EncodeIds(ids)|
  {
    var countBytes := EncodeScalar(SizeT(|ids|));
    var front := HeaderBytes + countBytes;
    assert Serialized(ids) == front + EncodeIds(ids);
    assert |front| == |HeaderBytes| + SizeTWidth;
    BytesAtConcat(buffer, position, front, EncodeIds(ids));
    BytesAtConcat(buffer, position, HeaderBytes, countBytes);
  }

  /** ReadCollectionF composed from its three reads. */
  lemma {:induction false} ReadCollectionSteps(st: ReaderState, afterHeader: ReaderState, afterCount: ReaderState, n: uint64,
                            final: ReaderState, ids: seq<NodeId>)
    requires RawRead(st, |HeaderBytes|) == afterHeader
    requires ReadScalarF(afterHeader, SizeT(0)) == (afterCount, SizeT(n))
    requires ReadIdsF(afterCount, n) == (final, ids)
    ensures ReadCollectionF(st) == (final, ids)
  {
  }

  // ---------------------------------------------------------------------------
  // Stream access of the collaborators that are not part of this model

  /** NodeId::Write: the id as one size_t. */
  method WriteNodeId(out: MemoryOutputStream, nodeId: NodeId)
    modifies out
    ensures out.status == old(out.status)
    ensures out.buffer == old(out.buffer) + (if old(out.status) == NoError then EncodeNodeId(nodeId) else [])
  {
    var _ := out.WriteScalar(SizeT(nodeId.id));
  }

  /** NodeId::Read into a NodeId holding val. */
  method ReadNodeId(inp: MemoryInputStream, val: NodeId) returns (r: NodeId)
    requires inp.Valid()
    modifies inp
    ensures inp.Valid() && (inp.State(), SizeT(r.id)) == ReadScalarF(old(inp.State()), SizeT(val.id))
  {
    var v, _ := inp.ReadScalar(SizeT(val.id));
    r := NodeId(v.n);
  }

  /** Writing an ObjectHeader: the opaque header bytes. */
  method WriteHeader(out: MemoryOutputStream)
    modifies out
    ensures out.status == old(out.status)
    ensures out.buffer == old(out.buffer) + (if old(out.status) == NoError then HeaderBytes else [])
  {
    out.WriteBytes(HeaderBytes);
  }

  /** Reading an ObjectHeader: consumes as many bytes as the header has. */
  method ReadHeader(inp: MemoryInputStream)
    requires inp.Valid()
    modifies inp
    ensures inp.Valid() && inp.State() == RawRead(old(inp.State()), |HeaderBytes|)
  {
    var header := new Byte[|HeaderBytes|];
    inp.ReadBytes(header, |HeaderBytes|);
  }

  /** The loop of NodeCollection::Write: each id in sequence order. */
  method WriteIds(out: MemoryOutputStream, ids: seq<NodeId>)
    modifies out
    ensures out.status == old(out.status)
    ensures out.buffer == old(out.buffer) + (if old(out.status) == NoError then EncodeIds(ids) else [])
  {
    var i := 0;
    while i < |ids|
      invariant i <= |ids|
      invariant out.status == old(out.status)
      invariant out.buffer == old(out.buffer) + (if old(out.status) == NoError then EncodeIds(ids[..i]) else [])
    {
      EncodeIdsSnoc(ids, i);
      assert old(out.buffer) + EncodeIds(ids[..i]) + EncodeNodeId(ids[i]) == old(out.buffer) + (EncodeIds(ids[..i]) + EncodeNodeId(ids[i]));
      WriteNodeId(out, ids[i]);
      i := i + 1;
    }
    assert ids[..i] == ids;
  }

  // ---------------------------------------------------------------------------
  // The collection

  class NodeCollection {
    var nodes: seq<NodeId>
    var nodeSet: set<NodeId>

    /** Holds of every collection: each id of the set is in the sequence. */
    ghost predicate Consistent()
      reads this
    {
      nodeSet <= Elements(nodes)
    }

    /** The intended invariant: the set holds exactly the ids of the sequence,
        and the sequence holds no id twice. Insert of an id already present
        breaks it. */
    ghost predicate Valid()
      reads this
    {
      nodeSet == Elements(nodes) && NoDuplicates(nodes)
    }

    constructor ()
      ensures nodes == [] && nodeSet == {}
      ensures Valid()
    {
      nodes := [];
      nodeSet := {};
    }

    constructor Single(nodeId: NodeId)
      ensures nodes == [nodeId] && nodeSet == {nodeId}
      ensures Valid()
    {
      nodes := [nodeId];
      nodeSet := {nodeId};
    }

    /** The source asserts that sequence and set agree on emptiness; they do
        whenever the invariant holds. */
    function IsEmpty(): (r: bool)
      reads this
      ensures r <==> Count() == 0
      ensures Consistent() && r ==> nodeSet == {}
      ensures Valid() ==> (r <==> nodeSet == {})
    {
      |nodes| == 0
    }

    /** Membership, answered by the set. */
    function Contains(nodeId: NodeId): (r: bool)
      reads this
      ensures Consistent() && r ==> nodeId in nodes
      ensures Valid() ==> (r <==> nodeId in nodes)
    {
      nodeId in nodeSet
    }

    /** The length of the sequence; the size of the set under the invariant. */
    function Count(): (r: nat)
      reads this
      ensures Valid() ==> r == |nodeSet|
    {
      CardElements(nodes);
      |nodes|
    }

    /** NullNodeId on an empty collection, otherwise the last id of the sequence. */
    function GetLast(): (r: NodeId)
      reads this
      ensures nodes == [] ==> r == NullNodeId
      ensures nodes != [] ==> r == nodes[|nodes| - 1]
      ensures nodes != [] && Valid() ==> Contains(r)
    {
      if |nodes| == 0 then NullNodeId else nodes[|nodes| - 1]
    }

    /** Calls processor on the ids in sequence order and stops right after the
        first call that returns false. Returns the ids it was called on. */
    method Enumerate(processor: NodeId -> bool) returns (visited: seq<NodeId>)
      ensures visited <= nodes
      ensures forall k :: 0 <= k < |visited| - 1 ==> processor(visited[k])
      ensures |visited| < |nodes| ==> visited != [] && !processor(visited[|visited| - 1])
    {
      visited := [];
      var i := 0;
      while i < |nodes|
        invariant i <= |nodes|
        invariant visited == nodes[..i]
        invariant forall k :: 0 <= k < i ==> processor(nodes[k])
      {
        visited := visited + [nodes[i]];
        if !processor(nodes[i]) {
          return;
        }
        i := i + 1;
      }
    }

    /** Appends the id and adds it to the set, without checking membership. */
    method Insert(nodeId: NodeId)
      modifies this
      ensures nodes == old(nodes) + [nodeId] && nodeSet == old(nodeSet) + {nodeId}
      ensures old(Consistent()) ==> Consistent()
      ensures old(Valid()) && nodeId !in old(nodeSet) ==> Valid()
      ensures old(Valid()) && nodeId in old(nodeSet) ==> !NoDuplicates(nodes)
      ensures Contains(nodeId) && GetLast() == nodeId && Count() == old(Count()) + 1
    {
      nodes := nodes + [nodeId];
      nodeSet := nodeSet + {nodeId};
      assert Elements(nodes) == Elements(old(nodes)) + {nodeId};
      if old(Valid()) && nodeId in old(nodeSet) {
        var k :| 0 <= k < |old(nodes)| && old(nodes)[k] == nodeId;
        assert nodes[k] == nodes[|nodes| - 1];
      }
    }

    /** Removes the first occurrence of a member from the sequence and the id
        from the set; an id that is not a member is ignored. */
    method Erase(nodeId: NodeId)
      requires Consistent()
      modifies this
      ensures Consistent()
      ensures nodeId !in old(nodeSet) ==> nodes == old(nodes) && nodeSet == old(nodeSet)
      ensures nodeId in old(nodeSet) ==> nodes == RemoveFirst(old(nodes), nodeId) && nodeSet == old(nodeSet) - {nodeId}
      ensures old(Valid()) ==> Valid() && nodeId !in nodes
    {
      if Contains(nodeId) {
        var i := Find(nodes, nodeId);
        RemoveFirstAt(nodes, nodeId, i);
        if Valid() {
          RemoveFirstKeepsDistinct(nodes, nodeId, i);
        }
        ghost var before := nodes;
        nodes := nodes[..i] + nodes[i + 1..];
        nodeSet := nodeSet - {nodeId};
        forall y | y in nodeSet ensures y in nodes {
          var k :| 0 <= k < |before| && before[k] == y;
          assert k != i;
          assert y == nodes[if k < i then k else k - 1];
        }
      }
    }

    /** Empties both the sequence and the set. */
    method Clear()
      modifies this
      ensures nodes == [] && nodeSet == {}
      ensures Valid()
    {
      nodes := [];
      nodeSet := {};
    }

    /** operator==: same sequence and same set. Under the invariant the set
        adds nothing to the comparison. */
    function Equals(other: NodeCollection): (r: bool)
      reads this, other
      ensures Valid() && other.Valid() ==> (r <==> nodes == other.nodes)
    {
      nodes == other.nodes && nodeSet == other.nodeSet
    }

    /** operator!=. */
    function NotEquals(other: NodeCollection): (r: bool)
      reads this, other
      ensures r <==> !Equals(other)
      ensures Valid() && other.Valid() ==> (r <==> nodes != other.nodes)
    {
      !Equals(other)
    }

    /** Writes the header, the number of ids as a size_t, then each id in
        sequence order. */
    method Write(out: MemoryOutputStream) returns (s: Status)
      requires |nodes| < 0x1_0000_0000_0000_0000
      modifies out
      ensures s == out.status == old(out.status)
      ensures out.buffer == old(out.buffer) + (if old(out.status) == NoError then Serialized(nodes) else [])
    {
      WriteHeader(out);
      var _ := out.WriteScalar(SizeT(|nodes|));
      WriteIds(out, nodes);
      SerializedAfter(old(out.buffer), nodes);
      s := out.status;
    }

    /** Reads into an empty collection: the header, the count, then as many
        ids as the count says, each inserted in turn (even after an error,
        as the default NullNodeId). */
    method Read(inp: MemoryInputStream) returns (s: Status)
      requires Consistent() && nodes == []
      requires inp.Valid()
      modifies this, inp
      ensures inp.Valid() && (inp.State(), nodes) == ReadCollectionF(old(inp.State()))
      ensures nodeSet == Elements(nodes)
      ensures s == inp.status
    {
      ReadHeader(inp);
      var count, _ := inp.ReadScalar(SizeT(0));
      ReadIds(inp, count.n);
      s := inp.status;
    }

    /** The loop of Read: count ids, each read and inserted in turn. */
    method ReadIds(inp: MemoryInputStream, count: nat)
      requires nodes == [] && nodeSet == {}
      requires inp.Valid()
      modifies this, inp
      ensures inp.Valid() && (inp.State(), nodes) == ReadIdsF(old(inp.State()), count)
      ensures nodeSet == Elements(nodes)
    {
      ghost var start := inp.State();
      var i := 0;
      while i < count
        invariant i <= count
        invariant inp.Valid() && (inp.State(), nodes) == ReadIdsF(start, i)
        invariant nodeSet == Elements(nodes)
      {
        ghost var mid, before := inp.State(), nodes;
        var nodeId := ReadNodeId(inp, NullNodeId);
        ReadOneMoreId(start, before, nodeId, mid, inp.State());
        ElementsSnoc(before, nodeId);
        Insert(nodeId);
        i := i + 1;
      }
    }
  }

  /** Writes a collection to a fresh memory stream and reads it back into a
      fresh collection: the copy has the same ids in the same order, and it is
      equal to the original exactly when the original's set holds exactly the
      ids of its sequence. */
  method WriteThenRead(original: NodeCollection) returns (copy: NodeCollection, s: Status)
    requires |original.nodes| < 0x1_0000_0000_0000_0000
    ensures s == NoError
    ensures copy.nodes == original.nodes && copy.nodeSet == Elements(original.nodes)
    ensures copy.Equals(original) <==> original.nodeSet == Elements(original.nodes)
  {
    var out := new MemoryOutputStream();
    var _ := original.Write(out);
    var inp := new MemoryInputStream(out.GetBuffer());
    copy := new NodeCollection();
    assert out.buffer == Serialized(original.nodes);
    assert BytesAt(out.buffer, 0, out.buffer);
    CollectionRoundTrip(out.buffer, 0, original.nodes);
    s := copy.Read(inp);
  }

  /** Inserting an id twice and erasing it once leaves one copy in the
      sequence but none in the set: the invariant is broken, Contains denies
      an id the sequence holds (so a further Erase cannot remove it), and
      sequence and set no longer agree on emptiness. */
  method InsertTwiceThenErase(nodeId: NodeId) returns (c: NodeCollection)
    ensures c.nodes == [nodeId] && c.nodeSet == {}
    ensures !c.Valid() && !c.Contains(nodeId) && !c.IsEmpty()
  {
    c := new NodeCollection();
    c.Insert(nodeId);
    c.Insert(nodeId);
    ghost var twice := c.nodes;
    assert twice == [nodeId, nodeId];
    RemoveFirstAt(twice, nodeId, 0);
    c.Erase(nodeId);
    assert c.nodes == [nodeId] && c.nodeSet == {};
    assert nodeId in Elements(c.nodes);
  }
}
