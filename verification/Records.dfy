/**
 * Node and edge records with their stored properties and label lists (chiffondb-core/src/db.rs over the
 * topology and property stores). A record names its properties and labels by references into the
 * store; every stored value belongs to exactly one record, so freeing it once is right.
 */
module Records {
  import opened Types
  import opened Convert

  /** Where the property store keeps a value. */
  type Ref = nat

  type Props = map<string, Value>

  datatype NodeRecord = NodeRecord(typeId: U16, propertyRef: Option<Ref>, labelRef: Option<Ref>)

  datatype EdgeRecord = EdgeRecord(typeId: U16, fromNode: Id, toNode: Id, propertyRef: Option<Ref>, labelRef: Option<Ref>)

  datatype Stored = Properties(props: Props) | LabelList(ids: seq<U16>)

  /** The place in a record that names a stored value. */
  datatype Holder = NodeProps(id: Id) | NodeLabels(id: Id) | EdgeProps(id: Id) | EdgeLabels(id: Id) {
    predicate OfNode() {
      NodeProps? || NodeLabels?
    }

    predicate Takes(s: Stored) {
      s.Properties? == (NodeProps? || EdgeProps?)
    }
  }

  // ---- What the records mean ----

  /** A record without the references. */
  datatype View = View(typeId: U16, props: Props, labels: seq<U16>)

  datatype EdgeView = EdgeView(view: View, fromNode: Id, toNode: Id)

  predicate Exists(nodes: map<Id, NodeRecord>, edges: map<Id, EdgeRecord>, h: Holder) {
    if h.OfNode() then h.id in nodes else h.id in edges
  }

  function RefOf(nodes: map<Id, NodeRecord>, edges: map<Id, EdgeRecord>, h: Holder): Option<Ref> {
    if !Exists(nodes, edges, h) then None
    else
      match h
      case NodeProps(id) => nodes[id].propertyRef
      case NodeLabels(id) => nodes[id].labelRef
      case EdgeProps(id) => edges[id].propertyRef
      case EdgeLabels(id) => edges[id].labelRef
  }

  function PropsAt(store: map<Ref, Stored>, ref: Option<Ref>): Props {
    if ref.Some? && ref.value in store && store[ref.value].Properties? then store[ref.value].props else map[]
  }

  function LabelsAt(store: map<Ref, Stored>, ref: Option<Ref>): seq<U16> {
    if ref.Some? && ref.value in store && store[ref.value].LabelList? then store[ref.value].ids else []
  }

  function NodeViews(nodes: map<Id, NodeRecord>, store: map<Ref, Stored>): map<Id, View> {
    map n | n in nodes :: NodeView(store, nodes[n])
  }

  function NodeView(store: map<Ref, Stored>, n: NodeRecord): View {
    View(n.typeId, PropsAt(store, n.propertyRef), LabelsAt(store, n.labelRef))
  }

  function EdgeViews(edges: map<Id, EdgeRecord>, store: map<Ref, Stored>): map<Id, EdgeView> {
    map e | e in edges :: ViewOfEdge(store, edges[e])
  }

  function ViewOfEdge(store: map<Ref, Stored>, e: EdgeRecord): EdgeView {
    EdgeView(View(e.typeId, PropsAt(store, e.propertyRef), LabelsAt(store, e.labelRef)), e.fromNode, e.toNode)
  }

  // ---- Every stored value has one owner ----

  ghost predicate Owns(nodes: map<Id, NodeRecord>, edges: map<Id, EdgeRecord>, store: map<Ref, Stored>,
                       owner: map<Ref, Holder>, h: Holder) {
    var ref := RefOf(nodes, edges, h);
    ref.Some? ==> ref.value in store && ref.value in owner && owner[ref.value] == h && h.Takes(store[ref.value])
  }

  ghost predicate RefsOk(nodes: map<Id, NodeRecord>, edges: map<Id, EdgeRecord>, store: map<Ref, Stored>,
                         owner: map<Ref, Holder>) {
    && owner.Keys == store.Keys
    && (forall r :: r in owner ==> RefOf(nodes, edges, owner[r]) == Some(r))
    && forall h :: Owns(nodes, edges, store, owner, h)
  }

  /** Nothing is leaked, and no two records share a stored value. */
  lemma StoredOnce(nodes: map<Id, NodeRecord>, edges: map<Id, EdgeRecord>, store: map<Ref, Stored>,
                   owner: map<Ref, Holder>, r: Ref, h: Holder, h2: Holder)
    requires RefsOk(nodes, edges, store, owner)
    ensures r in store ==> exists o :: RefOf(nodes, edges, o) == Some(r)
    ensures RefOf(nodes, edges, h) == RefOf(nodes, edges, h2) && RefOf(nodes, edges, h).Some? ==> h == h2
  {
    assert Owns(nodes, edges, store, owner, h) && Owns(nodes, edges, store, owner, h2);
  }

  // ---- Changing one reference ----

  function WithNodeRef(nodes: map<Id, NodeRecord>, h: Holder, ref: Option<Ref>): map<Id, NodeRecord> {
    if !h.OfNode() || h.id !in nodes then nodes
    else if h.NodeProps? then nodes[h.id := nodes[h.id].(propertyRef := ref)]
    else nodes[h.id := nodes[h.id].(labelRef := ref)]
  }

  function WithEdgeRef(edges: map<Id, EdgeRecord>, h: Holder, ref: Option<Ref>): map<Id, EdgeRecord> {
    if h.OfNode() || h.id !in edges then edges
    else if h.EdgeProps? then edges[h.id := edges[h.id].(propertyRef := ref)]
    else edges[h.id := edges[h.id].(labelRef := ref)]
  }

  lemma RefAfter(nodes: map<Id, NodeRecord>, edges: map<Id, EdgeRecord>, h: Holder, ref: Option<Ref>, o: Holder)
    requires Exists(nodes, edges, h)
    ensures RefOf(WithNodeRef(nodes, h, ref), WithEdgeRef(edges, h, ref), o)
            == if o == h then ref else RefOf(nodes, edges, o)
  {
  }

  function StoreAfter(store: map<Ref, Stored>, freed: Option<Ref>, written: Option<Ref>, content: Stored): map<Ref, Stored> {
    var more := if written.Some? then store[written.value := content] else store;
    if freed.Some? then more - {freed.value} else more
  }

  function OwnerAfter(owner: map<Ref, Holder>, freed: Option<Ref>, written: Option<Ref>, h: Holder): map<Ref, Holder> {
    var more := if written.Some? then owner[written.value := h] else owner;
    if freed.Some? then more - {freed.value} else more
  }

  /** A holder drops its stored value for another one, freshly stored, or for none. */
  lemma RefReplaced(nodes: map<Id, NodeRecord>, edges: map<Id, EdgeRecord>, store: map<Ref, Stored>, owner: map<Ref, Holder>,
                    h: Holder, written: Option<Ref>, content: Stored)
    requires RefsOk(nodes, edges, store, owner) && Exists(nodes, edges, h)
    requires written.Some? ==> written.value !in store && h.Takes(content)
    ensures var freed := RefOf(nodes, edges, h);
      RefsOk(WithNodeRef(nodes, h, written), WithEdgeRef(edges, h, written),
             StoreAfter(store, freed, written, content), OwnerAfter(owner, freed, written, h))
  {
    hide RefOf, Exists, WithNodeRef, WithEdgeRef, Owns;
    var freed := RefOf(nodes, edges, h);
    var nodes2, edges2 := WithNodeRef(nodes, h, written), WithEdgeRef(edges, h, written);
    var store2, owner2 := StoreAfter(store, freed, written, content), OwnerAfter(owner, freed, written, h);
    FreedIsOwned(nodes, edges, store, owner, h);
    forall r | r in owner2 ensures RefOf(nodes2, edges2, owner2[r]) == Some(r) {
      RefAfter(nodes, edges, h, written, owner2[r]);
    }
    forall o ensures Owns(nodes2, edges2, store2, owner2, o) {
      RefAfter(nodes, edges, h, written, o);
      OwnsAfter(nodes, edges, store, owner, h, written, content, o);
    }
  }

  lemma FreedIsOwned(nodes: map<Id, NodeRecord>, edges: map<Id, EdgeRecord>, store: map<Ref, Stored>, owner: map<Ref, Holder>, h: Holder)
    requires RefsOk(nodes, edges, store, owner)
    ensures RefOf(nodes, edges, h).Some? ==>
      RefOf(nodes, edges, h).value in store && RefOf(nodes, edges, h).value in owner && owner[RefOf(nodes, edges, h).value] == h
  {
    assert Owns(nodes, edges, store, owner, h);
    hide RefOf;
  }

  lemma OwnsAfter(nodes: map<Id, NodeRecord>, edges: map<Id, EdgeRecord>, store: map<Ref, Stored>, owner: map<Ref, Holder>,
                  h: Holder, written: Option<Ref>, content: Stored, o: Holder)
    requires RefsOk(nodes, edges, store, owner) && Exists(nodes, edges, h)
    requires written.Some? ==> written.value !in store && h.Takes(content)
    ensures var freed := RefOf(nodes, edges, h);
      Owns(WithNodeRef(nodes, h, written), WithEdgeRef(edges, h, written),
           StoreAfter(store, freed, written, content), OwnerAfter(owner, freed, written, h), o)
  {
    hide RefOf, Exists, WithNodeRef, WithEdgeRef;
    FreedIsOwned(nodes, edges, store, owner, h);
    assert Owns(nodes, edges, store, owner, o);
    RefAfter(nodes, edges, h, written, o);
  }

  /** The other holders read what they read before. */
  lemma OthersRead(nodes: map<Id, NodeRecord>, edges: map<Id, EdgeRecord>, store: map<Ref, Stored>, owner: map<Ref, Holder>,
                   h: Holder, written: Option<Ref>, content: Stored, o: Holder)
    requires RefsOk(nodes, edges, store, owner)
    requires written.Some? ==> written.value !in store
    ensures var store2 := StoreAfter(store, RefOf(nodes, edges, h), written, content);
      o != h ==>
        && PropsAt(store2, RefOf(nodes, edges, o)) == PropsAt(store, RefOf(nodes, edges, o))
        && LabelsAt(store2, RefOf(nodes, edges, o)) == LabelsAt(store, RefOf(nodes, edges, o))
  {
    assert Owns(nodes, edges, store, owner, h) && Owns(nodes, edges, store, owner, o);
    hide RefOf;
  }

  /** What a holder reads once `content` is stored for it; nothing is stored for an empty value. */
  function Held(view: View, h: Holder, content: Stored): View {
    match content
    case Properties(props) => view.(props := props)
    case LabelList(ids) => view.(labels := ids)
  }

  predicate IsEmpty(content: Stored) {
    match content
    case Properties(props) => props == map[]
    case LabelList(ids) => ids == []
  }

  /** A map that differs from another at one key. */
  lemma MapPut<V(!new)>(before: map<Id, V>, after: map<Id, V>, put: bool, id: Id, v: V)
    requires after.Keys == before.Keys && (put ==> id in before)
    requires forall n :: n in before ==> after[n] == if put && n == id then v else before[n]
    ensures after == if put then before[id := v] else before
  {
  }

  lemma NodesAfter(nodes: map<Id, NodeRecord>, edges: map<Id, EdgeRecord>, store: map<Ref, Stored>, owner: map<Ref, Holder>,
                   h: Holder, written: Option<Ref>, content: Stored)
    requires RefsOk(nodes, edges, store, owner) && Exists(nodes, edges, h) && h.Takes(content)
    requires if written.Some? then written.value !in store else IsEmpty(content)
    ensures var before := NodeViews(nodes, store);
      NodeViews(WithNodeRef(nodes, h, written), StoreAfter(store, RefOf(nodes, edges, h), written, content))
      == if h.OfNode() then before[h.id := Held(before[h.id], h, content)] else before
  {
    hide NodeView, RefsOk, StoreAfter, Held, RefOf, WithNodeRef;
    var store2, nodes2 := StoreAfter(store, RefOf(nodes, edges, h), written, content), WithNodeRef(nodes, h, written);
    var before, after := NodeViews(nodes, store), NodeViews(nodes2, store2);
    KeysAfter(nodes, edges, h, written);
    forall n | n in nodes
      ensures after[n] == if h.OfNode() && n == h.id then Held(before[n], h, content) else before[n]
    {
      NodeViewAfter(nodes, edges, store, owner, h, written, content, n);
    }
    if h.OfNode() {
      MapPut(before, after, true, h.id, Held(before[h.id], h, content));
    }
  }

  lemma EdgesAfter(nodes: map<Id, NodeRecord>, edges: map<Id, EdgeRecord>, store: map<Ref, Stored>, owner: map<Ref, Holder>,
                   h: Holder, written: Option<Ref>, content: Stored)
    requires RefsOk(nodes, edges, store, owner) && Exists(nodes, edges, h) && h.Takes(content)
    requires if written.Some? then written.value !in store else IsEmpty(content)
    ensures var before := EdgeViews(edges, store);
      EdgeViews(WithEdgeRef(edges, h, written), StoreAfter(store, RefOf(nodes, edges, h), written, content))
      == if h.OfNode() then before else before[h.id := before[h.id].(view := Held(before[h.id].view, h, content))]
  {
    hide ViewOfEdge, RefsOk, StoreAfter, Held, RefOf, WithEdgeRef;
    var store2, edges2 := StoreAfter(store, RefOf(nodes, edges, h), written, content), WithEdgeRef(edges, h, written);
    var before, after := EdgeViews(edges, store), EdgeViews(edges2, store2);
    KeysAfter(nodes, edges, h, written);
    forall e | e in edges
      ensures after[e] == if !h.OfNode() && e == h.id then before[e].(view := Held(before[e].view, h, content)) else before[e]
    {
      EdgeViewAfter(nodes, edges, store, owner, h, written, content, e);
    }
    if !h.OfNode() {
      MapPut(before, after, true, h.id, before[h.id].(view := Held(before[h.id].view, h, content)));
    }
  }

  lemma KeysAfter(nodes: map<Id, NodeRecord>, edges: map<Id, EdgeRecord>, h: Holder, ref: Option<Ref>)
    ensures WithNodeRef(nodes, h, ref).Keys == nodes.Keys && WithEdgeRef(edges, h, ref).Keys == edges.Keys
    ensures forall e :: e in edges ==>
      && WithEdgeRef(edges, h, ref)[e].fromNode == edges[e].fromNode
      && WithEdgeRef(edges, h, ref)[e].toNode == edges[e].toNode
  {
  }

  lemma NodeViewAfter(nodes: map<Id, NodeRecord>, edges: map<Id, EdgeRecord>, store: map<Ref, Stored>, owner: map<Ref, Holder>,
                      h: Holder, written: Option<Ref>, content: Stored, n: Id)
    requires RefsOk(nodes, edges, store, owner) && Exists(nodes, edges, h) && h.Takes(content) && n in nodes
    requires if written.Some? then written.value !in store else IsEmpty(content)
    ensures var store2, nodes2 := StoreAfter(store, RefOf(nodes, edges, h), written, content), WithNodeRef(nodes, h, written);
      && n in nodes2
      && NodeView(store2, nodes2[n])
         == if h.OfNode() && n == h.id then Held(NodeView(store, nodes[n]), h, content) else NodeView(store, nodes[n])
  {
    assert Owns(nodes, edges, store, owner, h);
    HolderReads(store, RefOf(nodes, edges, h), written, content);
    OthersRead(nodes, edges, store, owner, h, written, content, NodeProps(n));
    OthersRead(nodes, edges, store, owner, h, written, content, NodeLabels(n));
    hide RefsOk, StoreAfter, PropsAt, LabelsAt;
  }

  lemma EdgeViewAfter(nodes: map<Id, NodeRecord>, edges: map<Id, EdgeRecord>, store: map<Ref, Stored>, owner: map<Ref, Holder>,
                      h: Holder, written: Option<Ref>, content: Stored, e: Id)
    requires RefsOk(nodes, edges, store, owner) && Exists(nodes, edges, h) && h.Takes(content) && e in edges
    requires if written.Some? then written.value !in store else IsEmpty(content)
    ensures var store2, edges2 := StoreAfter(store, RefOf(nodes, edges, h), written, content), WithEdgeRef(edges, h, written);
      && e in edges2
      && var before := ViewOfEdge(store, edges[e]);
         ViewOfEdge(store2, edges2[e])
         == if !h.OfNode() && e == h.id then before.(view := Held(before.view, h, content)) else before
  {
    assert Owns(nodes, edges, store, owner, h);
    HolderReads(store, RefOf(nodes, edges, h), written, content);
    OthersRead(nodes, edges, store, owner, h, written, content, EdgeProps(e));
    OthersRead(nodes, edges, store, owner, h, written, content, EdgeLabels(e));
    hide RefsOk, StoreAfter, PropsAt, LabelsAt;
  }

  lemma HolderReads(store: map<Ref, Stored>, freed: Option<Ref>, written: Option<Ref>, content: Stored)
    requires if written.Some? then written.value !in store else IsEmpty(content)
    requires freed.Some? ==> freed.value in store
    ensures var store2 := StoreAfter(store, freed, written, content);
      && (content.Properties? ==> PropsAt(store2, written) == content.props)
      && (content.LabelList? ==> LabelsAt(store2, written) == content.ids)
  {
  }

  /** The records after a holder has taken a new value. */
  lemma Replaced(nodes: map<Id, NodeRecord>, edges: map<Id, EdgeRecord>, store: map<Ref, Stored>, owner: map<Ref, Holder>,
                 h: Holder, written: Option<Ref>, content: Stored)
    requires RefsOk(nodes, edges, store, owner) && Exists(nodes, edges, h) && h.Takes(content)
    requires if written.Some? then written.value !in store else IsEmpty(content)
    ensures var freed := RefOf(nodes, edges, h);
      var nodes2, edges2 := WithNodeRef(nodes, h, written), WithEdgeRef(edges, h, written);
      var store2 := StoreAfter(store, freed, written, content);
      && RefsOk(nodes2, edges2, store2, OwnerAfter(owner, freed, written, h))
      && nodes2.Keys == nodes.Keys && edges2.Keys == edges.Keys
      && (EndsLive(nodes, edges) ==> EndsLive(nodes2, edges2))
      && (if h.OfNode()
          then && h.id in NodeViews(nodes, store)
               && NodeViews(nodes2, store2) == NodeViews(nodes, store)[h.id := Held(NodeViews(nodes, store)[h.id], h, content)]
               && EdgeViews(edges2, store2) == EdgeViews(edges, store)
          else && h.id in EdgeViews(edges, store)
               && NodeViews(nodes2, store2) == NodeViews(nodes, store)
               && var before := EdgeViews(edges, store)[h.id];
                  EdgeViews(edges2, store2) == EdgeViews(edges, store)[h.id := before.(view := Held(before.view, h, content))])
  {
    hide RefsOk, StoreAfter, OwnerAfter, Held, RefOf, WithNodeRef, WithEdgeRef, NodeViews, EdgeViews;
    ViewKeys(nodes, edges, store);
    RefReplaced(nodes, edges, store, owner, h, written, content);
    NodesAfter(nodes, edges, store, owner, h, written, content);
    EdgesAfter(nodes, edges, store, owner, h, written, content);
    KeysAfter(nodes, edges, h, written);
  }

  // ---- The records ----

  lemma {:induction false} Above(keys: set<nat>) returns (m: nat)
    ensures forall k :: k in keys ==> k < m
  {
    if keys == {} {
      m := 0;
    } else {
      var k :| k in keys;
      m := Above(keys - {k});
      m := if k < m then m else k + 1;
      assert keys == (keys - {k}) + {k};
    }
  }

  lemma FreshExists(keys: set<nat>)
    ensures exists r: nat :: r !in keys
  {
    var m := Above(keys);
    assert m !in keys;
  }

  lemma ViewKeys(nodes: map<Id, NodeRecord>, edges: map<Id, EdgeRecord>, store: map<Ref, Stored>)
    ensures NodeViews(nodes, store).Keys == nodes.Keys && EdgeViews(edges, store).Keys == edges.Keys
  {
  }

  lemma NoEdgeAt(nodes: map<Id, NodeRecord>, edges: map<Id, EdgeRecord>, store: map<Ref, Stored>, id: Id)
    requires forall e :: e in EdgeViews(edges, store) ==>
      EdgeViews(edges, store)[e].fromNode != id && EdgeViews(edges, store)[e].toNode != id
    ensures forall e :: e in edges ==> edges[e].fromNode != id && edges[e].toNode != id
  {
    forall e | e in edges ensures edges[e].fromNode != id && edges[e].toNode != id {
      assert e in EdgeViews(edges, store);
    }
  }

  /** A record that stores nothing can be added or dropped. */
  lemma BareNode(nodes: map<Id, NodeRecord>, edges: map<Id, EdgeRecord>, store: map<Ref, Stored>, owner: map<Ref, Holder>,
                 id: Id, typeId: U16)
    requires RefsOk(nodes, edges, store, owner) && id !in nodes
    ensures RefsOk(nodes[id := NodeRecord(typeId, None, None)], edges, store, owner)
    ensures NodeViews(nodes[id := NodeRecord(typeId, None, None)], store) == NodeViews(nodes, store)[id := View(typeId, map[], [])]
  {
    SameRefs(nodes, edges, nodes[id := NodeRecord(typeId, None, None)], edges, store, owner);
  }

  lemma NoBareNode(nodes: map<Id, NodeRecord>, edges: map<Id, EdgeRecord>, store: map<Ref, Stored>, owner: map<Ref, Holder>, id: Id)
    requires RefsOk(nodes, edges, store, owner) && id in nodes && nodes[id].propertyRef == None && nodes[id].labelRef == None
    ensures RefsOk(nodes - {id}, edges, store, owner)
    ensures NodeViews(nodes - {id}, store) == NodeViews(nodes, store) - {id}
  {
    SameRefs(nodes, edges, nodes - {id}, edges, store, owner);
  }

  /** All references are as they were. */
  lemma SameRefs(nodes: map<Id, NodeRecord>, edges: map<Id, EdgeRecord>, nodes2: map<Id, NodeRecord>, edges2: map<Id, EdgeRecord>,
                 store: map<Ref, Stored>, owner: map<Ref, Holder>)
    requires RefsOk(nodes, edges, store, owner)
    requires forall h :: RefOf(nodes2, edges2, h) == RefOf(nodes, edges, h)
    ensures RefsOk(nodes2, edges2, store, owner)
  {
    hide RefOf;
    forall h ensures Owns(nodes2, edges2, store, owner, h) {
      assert Owns(nodes, edges, store, owner, h);
    }
  }

  lemma BareEdge(nodes: map<Id, NodeRecord>, edges: map<Id, EdgeRecord>, store: map<Ref, Stored>, owner: map<Ref, Holder>,
                 id: Id, typeId: U16, fromNode: Id, toNode: Id)
    requires RefsOk(nodes, edges, store, owner) && id !in edges
    ensures RefsOk(nodes, edges[id := EdgeRecord(typeId, fromNode, toNode, None, None)], store, owner)
    ensures EdgeViews(edges[id := EdgeRecord(typeId, fromNode, toNode, None, None)], store)
            == EdgeViews(edges, store)[id := EdgeView(View(typeId, map[], []), fromNode, toNode)]
  {
    SameRefs(nodes, edges, nodes, edges[id := EdgeRecord(typeId, fromNode, toNode, None, None)], store, owner);
  }

  lemma NoBareEdge(nodes: map<Id, NodeRecord>, edges: map<Id, EdgeRecord>, store: map<Ref, Stored>, owner: map<Ref, Holder>, id: Id)
    requires RefsOk(nodes, edges, store, owner) && id in edges && edges[id].propertyRef == None && edges[id].labelRef == None
    ensures RefsOk(nodes, edges - {id}, store, owner)
    ensures EdgeViews(edges - {id}, store) == EdgeViews(edges, store) - {id}
  {
    SameRefs(nodes, edges, nodes, edges - {id}, store, owner);
  }

  ghost predicate EndsLive(nodes: map<Id, NodeRecord>, edges: map<Id, EdgeRecord>) {
    forall e :: e in edges ==> edges[e].fromNode in nodes && edges[e].toNode in nodes
  }

  lemma EndsStayLive(nodes: map<Id, NodeRecord>, edges: map<Id, EdgeRecord>, e: Id)
    requires EndsLive(nodes, edges)
    ensures EndsLive(nodes, edges - {e})
  {
  }

  /** The topology and property pages as the database reads and writes them. Ids and places of freed
      values are used again in any order. */
  class RecordStore {
    var nodes: map<Id, NodeRecord>
    var edges: map<Id, EdgeRecord>
    var store: map<Ref, Stored>

    /** The record that each stored value belongs to. */
    ghost var owner: map<Ref, Holder>

    ghost predicate Valid()
      reads this
    {
      RefsOk(nodes, edges, store, owner) && EndsLive(nodes, edges)
    }

    function Nodes(): map<Id, View>
      reads this
    {
      NodeViews(nodes, store)
    }

    function Edges(): map<Id, EdgeView>
      reads this
    {
      EdgeViews(edges, store)
    }

    constructor ()
      ensures Valid() && Nodes() == map[] && Edges() == map[]
    {
      nodes, edges, store, owner := map[], map[], map[], map[];
    }

    method AllocNode(typeId: U16) returns (id: Id)
      requires Valid()
      modifies this
      ensures Valid() && id !in old(Nodes())
      ensures Nodes() == old(Nodes())[id := View(typeId, map[], [])] && Edges() == old(Edges())
    {
      hide RefsOk, NodeViews, EdgeViews;
      FreshExists(nodes.Keys);
      id :| id !in nodes.Keys;
      BareNode(nodes, edges, store, owner, id, typeId);
      ViewKeys(nodes, edges, store);
      nodes := nodes[id := NodeRecord(typeId, None, None)];
    }

    method AllocEdge(typeId: U16, fromNode: Id, toNode: Id) returns (id: Id)
      requires Valid() && fromNode in Nodes() && toNode in Nodes()
      modifies this
      ensures Valid() && id !in old(Edges())
      ensures Edges() == old(Edges())[id := EdgeView(View(typeId, map[], []), fromNode, toNode)] && Nodes() == old(Nodes())
    {
      hide RefsOk, NodeViews, EdgeViews;
      FreshExists(edges.Keys);
      id :| id !in edges.Keys;
      BareEdge(nodes, edges, store, owner, id, typeId, fromNode, toNode);
      ViewKeys(nodes, edges, store);
      edges := edges[id := EdgeRecord(typeId, fromNode, toNode, None, None)];
    }

    /** Stores a value for a record and frees the one it replaces. */
    method Replace(h: Holder, content: Stored)
      requires Valid() && h.Takes(content) && (if h.OfNode() then h.id in Nodes() else h.id in Edges())
      modifies this
      ensures Valid()
      ensures if h.OfNode()
              then && Edges() == old(Edges()) && h.id in old(Nodes())
                   && Nodes() == old(Nodes())[h.id := Held(old(Nodes())[h.id], h, content)]
              else && Nodes() == old(Nodes()) && h.id in old(Edges())
                   && var before := old(Edges())[h.id];
                      Edges() == old(Edges())[h.id := before.(view := Held(before.view, h, content))]
      ensures IsEmpty(content) ==> nodes == WithNodeRef(old(nodes), h, None) && edges == WithEdgeRef(old(edges), h, None)
      ensures nodes.Keys == old(nodes).Keys && edges.Keys == old(edges).Keys
    {
      hide RefsOk, NodeViews, EdgeViews, WithNodeRef, WithEdgeRef, Held, EndsLive, RefOf;
      ViewKeys(nodes, edges, store);
      var written: Option<Ref> := None;
      if !IsEmpty(content) {
        FreshExists(store.Keys);
        var ref :| ref !in store.Keys;
        written := Some(ref);
      }
      var freed := RefOf(nodes, edges, h);
      FreedIsOwned(nodes, edges, store, owner, h);
      Replaced(nodes, edges, store, owner, h, written, content);
      if written.Some? {
        store := store[written.value := content];
      }
      nodes, edges := WithNodeRef(nodes, h, written), WithEdgeRef(edges, h, written);
      if freed.Some? {
        Free(freed.value);
      }
      owner := OwnerAfter(owner, freed, written, h);
    }

    /** Only a stored value can be freed. */
    method Free(ref: Ref)
      requires ref in store
      modifies `store
      ensures store == old(store) - {ref}
    {
      store := store - {ref};
    }

    /** Frees what the node stored, then the node; its edges are gone by then. */
    method RemoveNode(id: Id)
      requires Valid() && id in Nodes()
      requires forall e :: e in Edges() ==> Edges()[e].fromNode != id && Edges()[e].toNode != id
      modifies this
      ensures Valid() && Nodes() == old(Nodes()) - {id} && Edges() == old(Edges())
    {
      hide RefsOk, NodeViews, EdgeViews;
      ViewKeys(nodes, edges, store);
      assert Edges() == EdgeViews(edges, store);
      NoEdgeAt(nodes, edges, store, id);
      Replace(NodeProps(id), Properties(map[]));
      Replace(NodeLabels(id), LabelList([]));
      NoBareNode(nodes, edges, store, owner, id);
      nodes := nodes - {id};
    }

    method RemoveEdge(id: Id)
      requires Valid() && id in Edges()
      modifies this
      ensures Valid() && Nodes() == old(Nodes()) && Edges() == old(Edges()) - {id}
    {
      hide RefsOk, NodeViews, EdgeViews, EndsLive;
      ViewKeys(nodes, edges, store);
      Replace(EdgeProps(id), Properties(map[]));
      Replace(EdgeLabels(id), LabelList([]));
      NoBareEdge(nodes, edges, store, owner, id);
      EndsStayLive(nodes, edges, id);
      edges := edges - {id};
    }

    /** The pages as a snapshot holds them. */
    method Save() returns (saved: SavedRecords, ghost savedOwner: map<Ref, Holder>)
      requires Valid()
      ensures Intact(saved, savedOwner)
      ensures NodeViews(saved.nodes, saved.store) == Nodes() && EdgeViews(saved.edges, saved.store) == Edges()
    {
      saved, savedOwner := SavedRecords(nodes, edges, store), owner;
    }

    method Restore(saved: SavedRecords, ghost savedOwner: map<Ref, Holder>)
      requires Intact(saved, savedOwner)
      modifies this
      ensures Valid()
      ensures Nodes() == NodeViews(saved.nodes, saved.store) && Edges() == EdgeViews(saved.edges, saved.store)
    {
      nodes, edges, store, owner := saved.nodes, saved.edges, saved.store, savedOwner;
    }
  }

  datatype SavedRecords = SavedRecords(nodes: map<Id, NodeRecord>, edges: map<Id, EdgeRecord>, store: map<Ref, Stored>)

  ghost predicate Intact(saved: SavedRecords, owner: map<Ref, Holder>) {
    && RefsOk(saved.nodes, saved.edges, saved.store, owner)
    && forall e :: e in saved.edges ==> saved.edges[e].fromNode in saved.nodes && saved.edges[e].toNode in saved.nodes
  }
}
