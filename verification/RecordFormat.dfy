/**
 * The bytes of node and edge records (chiffondb-core/src/storage/record.rs): 64 bytes each, with record
 * ids of six bytes, and of seven where the id may be absent.
 */
module RecordFormat {
  import opened Types
  import opened Header
  import Topology
  import PageSlots

  datatype RecordId = RecordId(page: U32, slot: U16)

  type RecordRef = Option<RecordId>

  datatype NodeRecord = NodeRecord(
    id: RecordId,
    typeId: U16,
    firstOut: RecordRef,
    firstIn: RecordRef,
    propertyRef: RecordRef,
    labelRef: RecordRef,
    flags: Byte)

  datatype EdgeRecord = EdgeRecord(
    id: RecordId,
    typeId: U16,
    fromNode: RecordId,
    toNode: RecordId,
    nextOut: RecordRef,
    nextIn: RecordRef,
    propertyRef: RecordRef,
    flags: Byte,
    labelRef: RecordRef)

  /** The bytes of a slot of records. */
  type Slot = s: seq<Byte> | |s| == Topology.RECORD_SIZE witness seq(Topology.RECORD_SIZE, _ => 0)

  const NO_RECORD: seq<Byte> := [0xFF, 0xFF, 0xFF, 0xFF, 0xFF, 0xFF, 0xFF]

  // ---- Record ids ----

  function Le16(x: U16): seq<Byte> {
    [x % 0x100, x / 0x100]
  }

  function FromLe16(b: seq<Byte>): U16
    requires |b| == 2
  {
    var b0: int, b1: int := b[0], b[1];
    b0 + 0x100 * b1
  }

  function EncodeId(r: RecordId): (b: seq<Byte>)
    ensures |b| == 6
  {
    Le32(r.page) + Le16(r.slot)
  }

  function DecodeId(b: seq<Byte>): RecordId
    requires |b| == 6
  {
    RecordId(FromLe32(b[..4]), FromLe16(b[4..]))
  }

  /** An absent id is seven bytes 0xFF; a present one is padded by a zero. */
  function EncodeRef(r: RecordRef): (b: seq<Byte>)
    ensures |b| == 7
  {
    match r
    case None => NO_RECORD
    case Some(id) => EncodeId(id) + [0]
  }

  function DecodeRef(b: seq<Byte>): RecordRef
    requires |b| == 7
  {
    if b == NO_RECORD then None else Some(DecodeId(b[..6]))
  }

  // ---- Records ----

  function SerializeNode(n: NodeRecord): (s: Slot) {
    EncodeId(n.id) + Le16(n.typeId) + EncodeRef(n.firstOut) + EncodeRef(n.firstIn) + EncodeRef(n.propertyRef)
    + EncodeRef(n.labelRef) + [n.flags] + seq(27, _ => 0)
  }

  function DeserializeNode(s: Slot): NodeRecord {
    NodeRecord(DecodeId(s[0..6]), FromLe16(s[6..8]), DecodeRef(s[8..15]), DecodeRef(s[15..22]), DecodeRef(s[22..29]),
               DecodeRef(s[29..36]), s[36])
  }

  function SerializeEdge(e: EdgeRecord): (s: Slot) {
    EncodeId(e.id) + Le16(e.typeId) + EncodeId(e.fromNode) + EncodeId(e.toNode) + EncodeRef(e.nextOut) + EncodeRef(e.nextIn)
    + EncodeRef(e.propertyRef) + [e.flags] + EncodeRef(e.labelRef) + seq(15, _ => 0)
  }

  function DeserializeEdge(s: Slot): EdgeRecord {
    EdgeRecord(DecodeId(s[0..6]), FromLe16(s[6..8]), DecodeId(s[8..14]), DecodeId(s[14..20]), DecodeRef(s[20..27]),
               DecodeRef(s[27..34]), DecodeRef(s[34..41]), s[41], DecodeRef(s[42..49]))
  }

  // ---- Round trips ----

  lemma IdRoundTrip(r: RecordId, b: seq<Byte>)
    requires |b| == 6
    ensures DecodeId(EncodeId(r)) == r && EncodeId(DecodeId(b)) == b
  {
    assert EncodeId(r)[..4] == Le32(r.page) && EncodeId(r)[4..] == Le16(r.slot);
    Le32Inverse(b[..4]);
    assert b == b[..4] + b[4..];
  }

  /** An id reads back whether or not it is there. Seven bytes are what writing back their reading gives
      exactly when they are the absent id or end in a zero: the last byte of a present one is not read. */
  lemma RefRoundTripIff(r: RecordRef, b: seq<Byte>)
    requires |b| == 7
    ensures DecodeRef(EncodeRef(r)) == r
    ensures EncodeRef(DecodeRef(b)) == b <==> b == NO_RECORD || b[6] == 0
  {
    IdRoundTrip(if r.Some? then r.value else RecordId(0, 0), b[..6]);
    if r.Some? {
      var a := EncodeRef(r);
      assert a[..6] == EncodeId(r.value) && a[6] == 0;
      assert NO_RECORD[6] == 0xFF;
    }
    if b != NO_RECORD {
      assert EncodeRef(DecodeRef(b)) == b[..6] + [0];
      assert b == b[..6] + [b[6]];
    }
  }

  lemma TypeRoundTrip(x: U16, b: seq<Byte>)
    requires |b| == 2
    ensures FromLe16(Le16(x)) == x && Le16(FromLe16(b)) == b
  {
    DivMod(b[1], b[0]);
  }

  // ---- Where the bytes stand ----

  /** Four bytes of the page and two of the slot, the least significant first. */
  predicate IdAt(s: Slot, off: nat, r: RecordId) {
    off + 6 <= |s|
    && var b0: int, b1: int, b2: int, b3: int, b4: int, b5: int := s[off], s[off+1], s[off+2], s[off+3], s[off+4], s[off+5];
       r.page == b0 + 0x100 * b1 + 0x1_0000 * b2 + 0x100_0000 * b3 && r.slot == b4 + 0x100 * b5
  }

  predicate RefAt(s: Slot, off: nat, r: RecordRef) {
    off + 7 <= |s|
    && match r
       case None => forall k :: off <= k < off + 7 ==> s[k] == 0xFF
       case Some(id) => IdAt(s, off, id) && s[off+6] == 0
  }

  predicate TypeAt(s: Slot, off: nat, x: U16) {
    off + 2 <= |s| && var b0: int, b1: int := s[off], s[off+1]; x == b0 + 0x100 * b1
  }

  lemma IdIsAt(s: Slot, off: nat, r: RecordId)
    requires off + 6 <= |s| && s[off..off+6] == EncodeId(r)
    ensures IdAt(s, off, r)
  {
    IdRoundTrip(r, EncodeId(r));
    var b := EncodeId(r);
    assert forall k :: 0 <= k < 6 ==> b[k] == s[off+k];
    hide EncodeId;
  }

  lemma RefIsAt(s: Slot, off: nat, r: RecordRef)
    requires off + 7 <= |s| && s[off..off+7] == EncodeRef(r)
    ensures RefAt(s, off, r)
  {
    hide IdAt, EncodeId;
    var b := EncodeRef(r);
    assert forall k :: 0 <= k < 7 ==> b[k] == s[off+k];
    match r
    case None =>
      forall k | off <= k < off + 7 ensures s[k] == 0xFF {
        assert s[k] == b[k-off];
      }
    case Some(id) =>
      assert s[off..off+6] == b[..6] == EncodeId(id);
      IdIsAt(s, off, id);
  }

  lemma TypeIsAt(s: Slot, off: nat, x: U16)
    requires off + 2 <= |s| && s[off..off+2] == Le16(x)
    ensures TypeAt(s, off, x)
  {
    TypeRoundTrip(x, Le16(x));
    var b := Le16(x);
    assert b[0] == s[off] && b[1] == s[off+1];
    hide Le16;
  }

  lemma NodeParts(n: NodeRecord)
    ensures var s := SerializeNode(n);
      && s[0..6] == EncodeId(n.id) && s[6..8] == Le16(n.typeId)
      && s[8..15] == EncodeRef(n.firstOut) && s[15..22] == EncodeRef(n.firstIn)
      && s[22..29] == EncodeRef(n.propertyRef) && s[29..36] == EncodeRef(n.labelRef)
      && s[36] == n.flags && forall k :: 37 <= k < 64 ==> s[k] == 0
  {
    hide EncodeId, EncodeRef, Le16;
  }

  lemma EdgeParts(e: EdgeRecord)
    ensures var s := SerializeEdge(e);
      && s[0..6] == EncodeId(e.id) && s[6..8] == Le16(e.typeId)
      && s[8..14] == EncodeId(e.fromNode) && s[14..20] == EncodeId(e.toNode)
      && s[20..27] == EncodeRef(e.nextOut) && s[27..34] == EncodeRef(e.nextIn)
      && s[34..41] == EncodeRef(e.propertyRef) && s[41] == e.flags
      && s[42..49] == EncodeRef(e.labelRef) && forall k :: 49 <= k < 64 ==> s[k] == 0
  {
    hide EncodeId, EncodeRef, Le16;
  }

  /** A node record: its id, its type, the heads of its two lists, what it stores, and its flags. */
  lemma NodeFormat(n: NodeRecord)
    ensures var s := SerializeNode(n);
      && IdAt(s, 0, n.id) && TypeAt(s, 6, n.typeId) && RefAt(s, 8, n.firstOut) && RefAt(s, 15, n.firstIn)
      && RefAt(s, 22, n.propertyRef) && RefAt(s, 29, n.labelRef) && s[36] == n.flags && forall k :: 37 <= k < 64 ==> s[k] == 0
  {
    hide SerializeNode, EncodeId, EncodeRef, Le16, IdAt, RefAt, TypeAt;
    var s := SerializeNode(n);
    NodeParts(n);
    IdIsAt(s, 0, n.id);
    TypeIsAt(s, 6, n.typeId);
    RefIsAt(s, 8, n.firstOut);
    RefIsAt(s, 15, n.firstIn);
    RefIsAt(s, 22, n.propertyRef);
    RefIsAt(s, 29, n.labelRef);
  }

  /** An edge record: its id, its type, its two ends, its two links, what it stores, and its flags. */
  lemma EdgeFormat(e: EdgeRecord)
    ensures var s := SerializeEdge(e);
      && IdAt(s, 0, e.id) && TypeAt(s, 6, e.typeId) && IdAt(s, 8, e.fromNode) && IdAt(s, 14, e.toNode)
      && RefAt(s, 20, e.nextOut) && RefAt(s, 27, e.nextIn) && RefAt(s, 34, e.propertyRef) && s[41] == e.flags
      && RefAt(s, 42, e.labelRef) && forall k :: 49 <= k < 64 ==> s[k] == 0
  {
    hide SerializeEdge, EncodeId, EncodeRef, Le16, IdAt, RefAt, TypeAt;
    var s := SerializeEdge(e);
    EdgeParts(e);
    IdIsAt(s, 0, e.id);
    TypeIsAt(s, 6, e.typeId);
    IdIsAt(s, 8, e.fromNode);
    IdIsAt(s, 14, e.toNode);
    RefIsAt(s, 20, e.nextOut);
    RefIsAt(s, 27, e.nextIn);
    RefIsAt(s, 34, e.propertyRef);
    RefIsAt(s, 42, e.labelRef);
  }

  // ---- Round trips of records ----

  /** Seven bytes that a written reference can be. */
  predicate IsRef(b: seq<Byte>)
    requires |b| == 7
  {
    b == NO_RECORD || b[6] == 0
  }

  /** A node record reads back as it was written. Any 64 bytes read as a node; written back they are the
      same exactly when its four references are in the form that is written and the rest is zero. */
  lemma NodeRoundTripIff(n: NodeRecord, s: Slot)
    ensures DeserializeNode(SerializeNode(n)) == n
    ensures SerializeNode(DeserializeNode(s)) == s <==>
      && IsRef(s[8..15]) && IsRef(s[15..22]) && IsRef(s[22..29]) && IsRef(s[29..36])
      && forall k :: 37 <= k < 64 ==> s[k] == 0
  {
    hide SerializeNode, EncodeId, DecodeId, EncodeRef, DecodeRef, Le16, FromLe16, IsRef;
    NodeParts(n);
    NodeReads(n);
    var m := DeserializeNode(s);
    NodeParts(m);
    NodeReads(m);
    RefWritten(s[8..15]);
    RefWritten(s[15..22]);
    RefWritten(s[22..29]);
    RefWritten(s[29..36]);
    IdRoundTrip(m.id, s[0..6]);
    TypeRoundTrip(m.typeId, s[6..8]);
    SameNodeBytes(SerializeNode(m), s);
  }

  lemma NodeReads(n: NodeRecord)
    ensures DeserializeNode(SerializeNode(n)) == n
  {
    hide SerializeNode, EncodeId, DecodeId, EncodeRef, DecodeRef, Le16, FromLe16;
    NodeParts(n);
    IdRoundTrip(n.id, EncodeId(n.id));
    TypeRoundTrip(n.typeId, Le16(n.typeId));
    RefRoundTripIff(n.firstOut, EncodeRef(n.firstOut));
    RefRoundTripIff(n.firstIn, EncodeRef(n.firstIn));
    RefRoundTripIff(n.propertyRef, EncodeRef(n.propertyRef));
    RefRoundTripIff(n.labelRef, EncodeRef(n.labelRef));
  }

  lemma RefWritten(b: seq<Byte>)
    requires |b| == 7
    ensures EncodeRef(DecodeRef(b)) == b <==> IsRef(b)
  {
    RefRoundTripIff(None, b);
    hide EncodeRef, DecodeRef;
  }

  lemma SameNodeBytes(s: Slot, t: Slot)
    ensures s == t <==> && s[0..6] == t[0..6] && s[6..8] == t[6..8] && s[8..15] == t[8..15] && s[15..22] == t[15..22]
                        && s[22..29] == t[22..29] && s[29..36] == t[29..36] && s[36] == t[36]
                        && forall k :: 37 <= k < 64 ==> s[k] == t[k]
  {
    assert s == s[0..6] + s[6..8] + s[8..15] + s[15..22] + s[22..29] + s[29..36] + [s[36]] + s[37..];
    assert t == t[0..6] + t[6..8] + t[8..15] + t[15..22] + t[22..29] + t[29..36] + [t[36]] + t[37..];
  }

  /** The same of an edge record, whose ends are plain ids. */
  lemma EdgeRoundTripIff(e: EdgeRecord, s: Slot)
    ensures DeserializeEdge(SerializeEdge(e)) == e
    ensures SerializeEdge(DeserializeEdge(s)) == s <==>
      && IsRef(s[20..27]) && IsRef(s[27..34]) && IsRef(s[34..41]) && IsRef(s[42..49])
      && forall k :: 49 <= k < 64 ==> s[k] == 0
  {
    hide SerializeEdge, EncodeId, DecodeId, EncodeRef, DecodeRef, Le16, FromLe16, IsRef;
    EdgeReads(e);
    var m := DeserializeEdge(s);
    EdgeParts(m);
    RefWritten(s[20..27]);
    RefWritten(s[27..34]);
    RefWritten(s[34..41]);
    RefWritten(s[42..49]);
    IdRoundTrip(m.id, s[0..6]);
    IdRoundTrip(m.fromNode, s[8..14]);
    IdRoundTrip(m.toNode, s[14..20]);
    TypeRoundTrip(m.typeId, s[6..8]);
    SameEdgeBytes(SerializeEdge(m), s);
  }

  lemma EdgeReads(e: EdgeRecord)
    ensures DeserializeEdge(SerializeEdge(e)) == e
  {
    hide SerializeEdge, EncodeId, DecodeId, EncodeRef, DecodeRef, Le16, FromLe16;
    EdgeParts(e);
    IdRoundTrip(e.id, EncodeId(e.id));
    IdRoundTrip(e.fromNode, EncodeId(e.fromNode));
    IdRoundTrip(e.toNode, EncodeId(e.toNode));
    TypeRoundTrip(e.typeId, Le16(e.typeId));
    RefRoundTripIff(e.nextOut, EncodeRef(e.nextOut));
    RefRoundTripIff(e.nextIn, EncodeRef(e.nextIn));
    RefRoundTripIff(e.propertyRef, EncodeRef(e.propertyRef));
    RefRoundTripIff(e.labelRef, EncodeRef(e.labelRef));
  }

  lemma SameEdgeBytes(s: Slot, t: Slot)
    ensures s == t <==> && s[0..6] == t[0..6] && s[6..8] == t[6..8] && s[8..14] == t[8..14] && s[14..20] == t[14..20]
                        && s[20..27] == t[20..27] && s[27..34] == t[27..34] && s[34..41] == t[34..41] && s[41] == t[41]
                        && s[42..49] == t[42..49] && forall k :: 49 <= k < 64 ==> s[k] == t[k]
  {
    assert s == s[0..6] + s[6..8] + s[8..14] + s[14..20] + s[20..27] + s[27..34] + s[34..41] + [s[41]] + s[42..49] + s[49..];
    assert t == t[0..6] + t[6..8] + t[8..14] + t[14..20] + t[20..27] + t[27..34] + t[34..41] + [t[41]] + t[42..49] + t[49..];
  }

  // ---- The records of the topology store ----

  /** A record id as one number. */
  function Number(r: RecordId): Id {
    r.page * 0x1_0000 + r.slot
  }

  function NumberOf(r: RecordRef): Option<Id> {
    if r.Some? then Some(Number(r.value)) else None
  }

  function NodeLinksOf(n: NodeRecord): Topology.NodeLinks {
    Topology.NodeLinks(NumberOf(n.firstOut), NumberOf(n.firstIn))
  }

  function EdgeLinksOf(e: EdgeRecord): Topology.EdgeLinks {
    Topology.EdgeLinks(e.typeId, Number(e.fromNode), Number(e.toNode), NumberOf(e.nextOut), NumberOf(e.nextIn))
  }

  /** The links that a record read from its bytes gives: for each side the head of that list of a node, and
      the end and the next edge of an edge. */
  lemma LinksAreStored(n: NodeRecord, e: EdgeRecord)
    ensures var node, edge := NodeLinksOf(DeserializeNode(SerializeNode(n))), EdgeLinksOf(DeserializeEdge(SerializeEdge(e)));
      && Topology.First(Topology.Out, node) == NumberOf(n.firstOut) && Topology.First(Topology.In, node) == NumberOf(n.firstIn)
      && Topology.Near(Topology.Out, edge) == Number(e.fromNode) && Topology.Near(Topology.In, edge) == Number(e.toNode)
      && Topology.Next(Topology.Out, edge) == NumberOf(e.nextOut) && Topology.Next(Topology.In, edge) == NumberOf(e.nextIn)
      && edge.typeId == e.typeId
  {
    NodeReads(n);
    EdgeReads(e);
    hide SerializeNode, SerializeEdge, DeserializeNode, DeserializeEdge;
  }

  /** Page and slot of the number are those of the id; a page of the store holds 63 records. */
  lemma NumberSplits<R>(r: RecordId, slots: Topology.Slots<R>)
    ensures Topology.PageOf(Number(r)) == r.page && Topology.SlotOf(Number(r)) == r.slot
    ensures slots.Mapped(Number(r)) <==> r.page < slots.pages && r.slot < 63
  {
  }

  /** What a slot that was never written reads as: its bytes are zeros, and zeros are the first slot of the
      first page wherever an id stands, absent or not. */
  lemma ZerosRead(s: Slot)
    requires forall k :: 0 <= k < |s| ==> s[k] == 0
    ensures NodeLinksOf(DeserializeNode(s)) == Topology.ZERO_NODE
    ensures EdgeLinksOf(DeserializeEdge(s)) == Topology.ZERO_EDGE
    ensures Topology.ZERO_NODE.firstOut == Topology.ZERO_NODE.firstIn == Some(0)
  {
    ZeroId(s[8..14]);
    ZeroId(s[14..20]);
    ZeroRef(s[8..15]);
    ZeroRef(s[15..22]);
    ZeroRef(s[20..27]);
    ZeroRef(s[27..34]);
    hide DecodeId, DecodeRef;
  }

  lemma ZeroId(b: seq<Byte>)
    requires |b| == 6 && forall k :: 0 <= k < |b| ==> b[k] == 0
    ensures DecodeId(b) == RecordId(0, 0)
  {
  }

  lemma ZeroRef(b: seq<Byte>)
    requires |b| == 7 && forall k :: 0 <= k < |b| ==> b[k] == 0
    ensures DecodeRef(b) == Some(RecordId(0, 0))
  {
    assert b[0] == 0 && NO_RECORD[0] == 0xFF;
    ZeroId(b[..6]);
  }
}
