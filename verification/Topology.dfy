/**
 * The topology store (chiffondb-core/src/storage/topology.rs): nodes and edges in pages of fixed-size
 * slots. Each node heads two lists of edges, linked through the edge records. A freed slot keeps its
 * record, and a slot that was never used reads as zeros.
 */
module Topology {
  import opened Types
  import PageSlots

  datatype Side = Out | In

  /** The links of a node record; what else it holds does not matter here. */
  datatype NodeLinks = NodeLinks(firstOut: Option<Id>, firstIn: Option<Id>)

  datatype EdgeLinks = EdgeLinks(typeId: U16, fromNode: Id, toNode: Id, nextOut: Option<Id>, nextIn: Option<Id>)

  /** How a slot of zeros reads: an absent id is seven bytes 0xFF, so that zeros name the first slot. */
  const ZERO_NODE := NodeLinks(Some(0), Some(0))
  const ZERO_EDGE := EdgeLinks(0, 0, 0, Some(0), Some(0))

  function First(side: Side, n: NodeLinks): Option<Id> {
    if side.Out? then n.firstOut else n.firstIn
  }

  function Next(side: Side, e: EdgeLinks): Option<Id> {
    if side.Out? then e.nextOut else e.nextIn
  }

  /** The node that lists the edge on the side. */
  function Near(side: Side, e: EdgeLinks): Id {
    if side.Out? then e.fromNode else e.toNode
  }

  function WithFirst(side: Side, n: NodeLinks, first: Option<Id>): NodeLinks {
    if side.Out? then n.(firstOut := first) else n.(firstIn := first)
  }

  function WithNext(side: Side, e: EdgeLinks, next: Option<Id>): EdgeLinks {
    if side.Out? then e.(nextOut := next) else e.(nextIn := next)
  }

  // ---- Slots ----

  const RECORD_SIZE := 64

  function PageOf(id: Id): nat {
    id / 0x1_0000
  }

  function SlotOf(id: Id): nat {
    id % 0x1_0000
  }

  /** The pages of one kind: their number, the records written to slots, and the slots in use. */
  datatype Slots<R> = Slots(pages: nat, records: map<Id, R>, used: set<Id>) {
    predicate Mapped(id: Id) {
      PageOf(id) < pages && SlotOf(id) < PageSlots.FirstGuess(RECORD_SIZE)
    }

    /** A page is mapped for its first record, which takes its first slot. */
    ghost predicate Valid() {
      && used <= records.Keys
      && (forall id :: id in records ==> Mapped(id))
      && (pages > 0 ==> 0 in records)
    }

    function Read(id: Id, zeros: R): R {
      if id in records then records[id] else zeros
    }
  }

  lemma FirstSlot(p: nat)
    ensures PageOf(p * 0x1_0000) == p && SlotOf(p * 0x1_0000) == 0
  {
  }

  /** Takes a free slot of a mapped page, or the first slot of a new one when all are full. */
  method AllocSlot<R>(s: Slots<R>, record: R) returns (t: Slots<R>, id: Id)
    requires s.Valid()
    ensures t.Valid() && id !in s.used && s.pages <= t.pages
    ensures t.records == s.records[id := record] && t.used == s.used + {id}
    ensures t.pages == s.pages || (t.pages == s.pages + 1 && forall k: Id :: s.Mapped(k) ==> k in s.used)
  {
    var free := set k: Id | k < s.pages * 0x1_0000 && s.Mapped(k) && k !in s.used;
    FirstSlot(s.pages);
    if free != {} {
      id :| id in free;
      t := Slots(s.pages, s.records[id := record], s.used + {id});
    } else {
      forall k: Id | s.Mapped(k) ensures k in s.used {
        assert k < s.pages * 0x1_0000;
        assert k !in s.used ==> k in free;
      }
      id := s.pages * 0x1_0000;
      t := Slots(s.pages + 1, s.records[id := record], s.used + {id});
    }
  }

  // ---- The lists ----

  /** The slots; and, for the proof, what each node lists, and when each edge joined or was freed. */
  datatype Graph = Graph(nodes: Slots<NodeLinks>, edges: Slots<EdgeLinks>,
                         outs: map<Id, seq<Id>>, ins: map<Id, seq<Id>>, stamp: map<Id, nat>, clock: nat)

  function FirstOf(g: Graph, side: Side, n: Id): Option<Id> {
    First(side, g.nodes.Read(n, ZERO_NODE))
  }

  function EdgeAt(g: Graph, e: Id): EdgeLinks {
    g.edges.Read(e, ZERO_EDGE)
  }

  function NextOf(g: Graph, side: Side, e: Id): Option<Id> {
    Next(side, EdgeAt(g, e))
  }

  function NearOf(g: Graph, side: Side, e: Id): Id {
    Near(side, EdgeAt(g, e))
  }

  function ListOf(g: Graph, side: Side, n: Id): seq<Id> {
    if side.Out? then (if n in g.outs then g.outs[n] else []) else (if n in g.ins then g.ins[n] else [])
  }

  function Stamp(g: Graph, e: Id): nat {
    if e in g.stamp then g.stamp[e] else 0
  }

  function At(l: seq<Id>, i: nat): Option<Id> {
    if i < |l| then Some(l[i]) else None
  }

  /** The links of a node's record and of its edges are those of its list; edges join at the front. */
  ghost predicate Linked(g: Graph, side: Side, n: Id) {
    && FirstOf(g, side, n) == At(ListOf(g, side, n), 0)
    && forall i: nat :: i < |ListOf(g, side, n)| ==> LinkedAt(g, side, n, i)
  }

  ghost predicate LinkedAt(g: Graph, side: Side, n: Id, i: nat) {
    var l := ListOf(g, side, n);
    i < |l| ==>
      && l[i] in g.edges.used && NearOf(g, side, l[i]) == n
      && NextOf(g, side, l[i]) == At(l, i + 1)
      && (i + 1 < |l| ==> Stamp(g, l[i+1]) < Stamp(g, l[i]))
  }

  predicate Listed(g: Graph, side: Side, e: Id) {
    e in ListOf(g, side, NearOf(g, side, e))
  }

  /** A freed edge still links to an edge in use, or to one that was freed later. */
  predicate Stale(g: Graph, side: Side, e: Id) {
    var next := NextOf(g, side, e);
    next.Some? ==>
      next.value in g.edges.records && (next.value in g.edges.used || Stamp(g, next.value) > Stamp(g, e))
  }

  /** One side of the graph, but for the edges that are just being linked or unlinked there. */
  ghost predicate SideOk(g: Graph, side: Side, missing: set<Id>) {
    && (forall n :: n in g.nodes.records ==> Linked(g, side, n))
    && (forall n :: n !in g.nodes.used ==> ListOf(g, side, n) == [])
    && (forall e :: e in g.edges.used ==> NearOf(g, side, e) in g.nodes.used && (Listed(g, side, e) <==> e !in missing))
    && (forall e :: e in g.edges.records ==> NearOf(g, side, e) in g.nodes.records && (e !in g.edges.used ==> Stale(g, side, e)))
  }

  ghost predicate Shaped(g: Graph) {
    && g.nodes.Valid() && g.edges.Valid()
    && forall e :: e in g.edges.records ==> Stamp(g, e) < g.clock
  }

  ghost predicate GraphOk(g: Graph) {
    Shaped(g) && SideOk(g, Out, {}) && SideOk(g, In, {})
  }

  /** Following a link comes to an edge in use that joined earlier, or to one that was freed later. */
  lemma NextIsNearer(g: Graph, side: Side, e: Id)
    requires GraphOk(g) && e in g.edges.records
    ensures var next := NextOf(g, side, e);
      next.Some? ==>
        && next.value in g.edges.records
        && (if e in g.edges.used then next.value in g.edges.used && Stamp(g, next.value) < Stamp(g, e)
            else next.value in g.edges.used || Stamp(g, next.value) > Stamp(g, e))
  {
    hide FirstOf, NextOf, NearOf, ListOf, Stamp;
    assert SideOk(g, side, {});
    if e in g.edges.used {
      var n := NearOf(g, side, e);
      assert Listed(g, side, e);
      var i :| 0 <= i < |ListOf(g, side, n)| && ListOf(g, side, n)[i] == e;
      assert Linked(g, side, n) && LinkedAt(g, side, n, i);
      if i + 1 < |ListOf(g, side, n)| {
        assert LinkedAt(g, side, n, i + 1);
      }
    } else {
      assert Stale(g, side, e);
    }
  }

  /** The edges that a walk over the links from `first` on collects: it always ends. */
  ghost function Chain(g: Graph, side: Side, first: Option<Id>): seq<Id>
    requires GraphOk(g) && (first.Some? ==> first.value in g.edges.records)
    decreases if first.Some? && first.value !in g.edges.used then 1 else 0,
              if first.None? then 0
              else if first.value in g.edges.used then Stamp(g, first.value) + 1
              else g.clock - Stamp(g, first.value)
  {
    if first.None? then []
    else
      NextIsNearer(g, side, first.value);
      [first.value] + Chain(g, side, NextOf(g, side, first.value))
  }

  lemma ListsRecords(g: Graph, side: Side, n: Id, i: nat)
    requires GraphOk(g) && n in g.nodes.records
    ensures At(ListOf(g, side, n), i).Some? ==> At(ListOf(g, side, n), i).value in g.edges.records
  {
    hide FirstOf, NextOf, NearOf, ListOf, Stamp;
    assert SideOk(g, side, {}) && Linked(g, side, n);
    assert LinkedAt(g, side, n, i);
  }

  /** From a node that was ever used, the walk collects its list. */
  lemma {:induction false} ChainIsList(g: Graph, side: Side, n: Id, i: nat)
    requires GraphOk(g) && n in g.nodes.records && i <= |ListOf(g, side, n)|
    requires At(ListOf(g, side, n), i).Some? ==> At(ListOf(g, side, n), i).value in g.edges.records
    ensures Chain(g, side, At(ListOf(g, side, n), i)) == ListOf(g, side, n)[i..]
    decreases |ListOf(g, side, n)| - i
  {
    hide FirstOf, NextOf, NearOf, ListOf, Stamp, Shaped, Stale, Listed;
    var l := ListOf(g, side, n);
    if i < |l| {
      assert SideOk(g, side, {}) && Linked(g, side, n) && LinkedAt(g, side, n, i);
      ListsRecords(g, side, n, i + 1);
      ChainIsList(g, side, n, i + 1);
      assert l[i..] == [l[i]] + l[i+1..];
    }
  }

  // ---- Linking and unlinking ----

  /** The edge goes in front of the list of its node. */
  ghost predicate Prepended(g: Graph, h: Graph, side: Side, e: Id) {
    var n := NearOf(g, side, e);
    && h.nodes.used == g.nodes.used && h.nodes.records.Keys == g.nodes.records.Keys
    && h.edges.used == g.edges.used && h.edges.records.Keys == g.edges.records.Keys
    && (forall m :: FirstOf(h, side, m) == if m == n then Some(e) else FirstOf(g, side, m))
    && (forall m :: ListOf(h, side, m) == if m == n then [e] + ListOf(g, side, m) else ListOf(g, side, m))
    && (forall x :: NextOf(h, side, x) == if x == e then FirstOf(g, side, n) else NextOf(g, side, x))
    && (forall x :: NearOf(h, side, x) == NearOf(g, side, x) && Stamp(h, x) == Stamp(g, x))
  }

  lemma PrependedLinks(g: Graph, h: Graph, side: Side, e: Id, n: Id)
    requires Linked(g, side, n) && Prepended(g, h, side, e)
    requires e in g.edges.used && !Listed(g, side, e)
    requires forall x :: x in g.edges.used && x != e ==> Stamp(g, x) < Stamp(g, e)
    ensures Linked(h, side, n)
  {
    hide FirstOf, NextOf, NearOf, ListOf, Stamp;
    var l, near := ListOf(g, side, n), NearOf(g, side, e);
    forall i: nat | i < |ListOf(h, side, n)| ensures LinkedAt(h, side, n, i) {
      if n == near {
        assert i > 0 ==> LinkedAt(g, side, n, i - 1);
        assert |l| > 0 ==> LinkedAt(g, side, n, 0);
      } else {
        assert LinkedAt(g, side, n, i);
      }
    }
  }

  lemma PrependedSide(g: Graph, h: Graph, side: Side, e: Id, missing: set<Id>)
    requires SideOk(g, side, missing) && Prepended(g, h, side, e)
    requires e in g.edges.used && e in g.edges.records && e in missing
    requires forall x :: x in g.edges.used && x != e ==> Stamp(g, x) < Stamp(g, e)
    ensures SideOk(h, side, missing - {e})
  {
    hide FirstOf, NextOf, NearOf, ListOf, Stamp, Linked;
    forall n | n in h.nodes.records ensures Linked(h, side, n) {
      PrependedLinks(g, h, side, e, n);
    }
    forall x | x in h.edges.records && x !in h.edges.used ensures Stale(h, side, x) {
      assert Stale(g, side, x);
    }
    forall x | x in h.edges.used ensures Listed(h, side, x) <==> x !in missing - {e} {
      assert Listed(g, side, x) <==> x !in missing;
    }
  }

  /** The list of its node loses the edge at place `i`; the record of the edge keeps its links. */
  ghost predicate Unlinked(g: Graph, h: Graph, side: Side, e: Id, i: nat) {
    var n := NearOf(g, side, e);
    var l := ListOf(g, side, n);
    && i < |l| && l[i] == e
    && h.nodes.used == g.nodes.used && h.nodes.records.Keys == g.nodes.records.Keys
    && h.edges.used == g.edges.used && h.edges.records.Keys == g.edges.records.Keys
    && (forall m :: FirstOf(h, side, m) == if m == n && i == 0 then NextOf(g, side, e) else FirstOf(g, side, m))
    && (forall m :: ListOf(h, side, m) == if m == n then l[..i] + l[i+1..] else ListOf(g, side, m))
    && (forall x :: NextOf(h, side, x) == if i > 0 && x == l[i-1] then NextOf(g, side, e) else NextOf(g, side, x))
    && (forall x :: NearOf(h, side, x) == NearOf(g, side, x) && Stamp(h, x) == Stamp(g, x))
  }

  /** Edges stand in a list by their stamps. */
  lemma {:induction false} LaterIsSmaller(g: Graph, side: Side, n: Id, i: nat, j: nat)
    requires Linked(g, side, n) && i < j < |ListOf(g, side, n)|
    ensures Stamp(g, ListOf(g, side, n)[j]) < Stamp(g, ListOf(g, side, n)[i])
  {
    hide FirstOf, NextOf, NearOf, ListOf, Stamp;
    assert LinkedAt(g, side, n, j - 1);
    if i < j - 1 {
      LaterIsSmaller(g, side, n, i, j - 1);
    }
  }

  lemma UnlinkedLinks(g: Graph, h: Graph, side: Side, e: Id, i: nat, n: Id)
    requires Linked(g, side, n) && Linked(g, side, NearOf(g, side, e)) && Unlinked(g, h, side, e, i)
    ensures Linked(h, side, n)
  {
    hide FirstOf, NextOf, NearOf, ListOf, Stamp;
    var near := NearOf(g, side, e);
    assert LinkedAt(g, side, near, 0) && LinkedAt(g, side, near, i) && (i > 0 ==> LinkedAt(g, side, near, i - 1));
    hide LinkedAt;
    forall k: nat | k < |ListOf(h, side, n)| ensures LinkedAt(h, side, n, k) {
      if n == near {
        ShorterLinks(g, h, side, e, i, n, k);
      } else {
        OtherLinks(g, h, side, e, i, n, k);
      }
    }
    if n == near {
      ShorterFirst(g, h, side, e, i, n);
    }
  }

  lemma ShorterFirst(g: Graph, h: Graph, side: Side, e: Id, i: nat, n: Id)
    requires Linked(g, side, n) && n == NearOf(g, side, e) && Unlinked(g, h, side, e, i)
    ensures FirstOf(h, side, n) == At(ListOf(h, side, n), 0)
  {
    hide FirstOf, NextOf, NearOf, ListOf, Stamp;
    assert LinkedAt(g, side, n, i);
  }

  /** In the shortened list the place before the gap links across it. */
  lemma ShorterLinks(g: Graph, h: Graph, side: Side, e: Id, i: nat, n: Id, k: nat)
    requires Linked(g, side, n) && n == NearOf(g, side, e) && Unlinked(g, h, side, e, i)
    ensures LinkedAt(h, side, n, k)
  {
    hide FirstOf, NextOf, NearOf, ListOf, Stamp;
    assert LinkedAt(g, side, n, if k < i then k else k + 1) && LinkedAt(g, side, n, i);
    if i > 0 && k != i - 1 && k + 1 < |ListOf(g, side, n)| {
      if k < i - 1 {
        LaterIsSmaller(g, side, n, k, i - 1);
      } else {
        LaterIsSmaller(g, side, n, i - 1, k + 1);
      }
    }
  }

  lemma OtherLinks(g: Graph, h: Graph, side: Side, e: Id, i: nat, n: Id, k: nat)
    requires Linked(g, side, n) && n != NearOf(g, side, e) && Linked(g, side, NearOf(g, side, e)) && Unlinked(g, h, side, e, i)
    ensures LinkedAt(h, side, n, k)
  {
    hide FirstOf, NextOf, NearOf, ListOf, Stamp;
    assert LinkedAt(g, side, n, k) && (i > 0 ==> LinkedAt(g, side, NearOf(g, side, e), i - 1));
  }

  lemma UnlinkedStale(g: Graph, h: Graph, side: Side, e: Id, i: nat, x: Id)
    requires Unlinked(g, h, side, e, i) && Stale(g, side, x) && x !in g.edges.used
    requires i > 0 ==> ListOf(g, side, NearOf(g, side, e))[i-1] in g.edges.used
    ensures Stale(h, side, x)
  {
    hide FirstOf, NextOf, NearOf, ListOf, Stamp;
  }

  lemma UnlinkedListed(g: Graph, h: Graph, side: Side, e: Id, i: nat, x: Id)
    requires Unlinked(g, h, side, e, i) && Linked(g, side, NearOf(g, side, e))
    ensures Listed(h, side, x) <==> Listed(g, side, x) && x != e
  {
    hide FirstOf, NextOf, NearOf, ListOf, Stamp, Linked;
    NoRepetition(g, side, NearOf(g, side, e));
    OneLess(ListOf(g, side, NearOf(g, side, e)), i, x);
  }

  lemma OneLess(l: seq<Id>, i: nat, x: Id)
    requires i < |l| && forall j, k :: 0 <= j < k < |l| ==> l[j] != l[k]
    ensures x in l[..i] + l[i+1..] <==> x in l && x != l[i]
  {
    var rest := l[..i] + l[i+1..];
    if x in l && x != l[i] {
      var k :| 0 <= k < |l| && l[k] == x;
      assert rest[if k < i then k else k - 1] == x;
    }
    if x in rest {
      var k :| 0 <= k < |rest| && rest[k] == x;
      assert l[if k < i then k else k + 1] == x;
    }
  }

  lemma UnlinkedSide(g: Graph, h: Graph, side: Side, e: Id, i: nat, missing: set<Id>)
    requires SideOk(g, side, missing) && Unlinked(g, h, side, e, i) && e in g.edges.used && e in g.edges.records
    ensures SideOk(h, side, missing + {e}) && NextOf(h, side, e) == NextOf(g, side, e)
    ensures NextOf(g, side, e).Some? ==> NextOf(g, side, e).value in g.edges.used - {e}
  {
    hide FirstOf, NextOf, NearOf, ListOf, Stamp, Linked, Stale, Listed;
    var near := NearOf(g, side, e);
    var l := ListOf(g, side, near);
    NoRepetition(g, side, near);
    FollowedBy(g, side, near, i);
    assert i > 0 ==> l[i-1] in g.edges.used;
    forall n | n in h.nodes.records ensures Linked(h, side, n) {
      UnlinkedLinks(g, h, side, e, i, n);
    }
    forall x | x in h.edges.records && x !in h.edges.used ensures Stale(h, side, x) {
      UnlinkedStale(g, h, side, e, i, x);
    }
    forall x | x in h.edges.used ensures Listed(h, side, x) <==> x !in missing + {e} {
      UnlinkedListed(g, h, side, e, i, x);
    }
  }

  lemma NoRepetition(g: Graph, side: Side, n: Id)
    requires Linked(g, side, n)
    ensures var l := ListOf(g, side, n);
      (forall i, j :: 0 <= i < j < |l| ==> l[i] != l[j]) && (forall i :: 0 <= i < |l| ==> l[i] in g.edges.used)
  {
    hide FirstOf, NextOf, NearOf, ListOf, Stamp;
    var l := ListOf(g, side, n);
    forall i, j | 0 <= i < j < |l| ensures l[i] != l[j] {
      LaterIsSmaller(g, side, n, i, j);
    }
    forall i | 0 <= i < |l| ensures l[i] in g.edges.used {
      assert LinkedAt(g, side, n, i);
    }
  }

  lemma FollowedBy(g: Graph, side: Side, n: Id, i: nat)
    requires Linked(g, side, n) && i < |ListOf(g, side, n)|
    ensures var l := ListOf(g, side, n); NextOf(g, side, l[i]) == At(l, i + 1)
  {
    assert LinkedAt(g, side, n, i);
  }

  /** Nothing of the side changes. */
  ghost predicate SameSide(g: Graph, h: Graph, side: Side) {
    && h.nodes.used == g.nodes.used && h.nodes.records.Keys == g.nodes.records.Keys
    && h.edges.used == g.edges.used && h.edges.records.Keys == g.edges.records.Keys
    && (forall m :: FirstOf(h, side, m) == FirstOf(g, side, m) && ListOf(h, side, m) == ListOf(g, side, m))
    && (forall x :: NextOf(h, side, x) == NextOf(g, side, x) && NearOf(h, side, x) == NearOf(g, side, x) && Stamp(h, x) == Stamp(g, x))
  }

  lemma SameSideOk(g: Graph, h: Graph, side: Side, missing: set<Id>)
    requires SideOk(g, side, missing) && SameSide(g, h, side)
    ensures SideOk(h, side, missing)
  {
    hide FirstOf, NextOf, NearOf, ListOf, Stamp;
    forall n, i: nat | n in h.nodes.records ensures LinkedAt(h, side, n, i) {
      assert Linked(g, side, n) && LinkedAt(g, side, n, i);
    }
    forall x | x in h.edges.records && x !in h.edges.used ensures Stale(h, side, x) {
      assert Stale(g, side, x);
    }
    forall x | x in h.edges.used ensures Listed(h, side, x) <==> x !in missing {
      assert Listed(g, side, x) <==> x !in missing;
    }
  }

  /** An edge takes a slot, perhaps a freed one, and is in no list yet. */
  ghost predicate EdgeAdded(g: Graph, h: Graph, side: Side, e: Id, near: Id) {
    && h.nodes.used == g.nodes.used && h.nodes.records.Keys == g.nodes.records.Keys
    && e !in g.edges.used && h.edges.used == g.edges.used + {e} && h.edges.records.Keys == g.edges.records.Keys + {e}
    && (forall m :: FirstOf(h, side, m) == FirstOf(g, side, m) && ListOf(h, side, m) == ListOf(g, side, m))
    && NearOf(h, side, e) == near && NextOf(h, side, e) == None
    && (forall x :: x != e ==> NextOf(h, side, x) == NextOf(g, side, x) && NearOf(h, side, x) == NearOf(g, side, x))
    && forall x :: x != e ==> Stamp(h, x) == Stamp(g, x)
  }

  lemma EdgeAddedLinks(g: Graph, h: Graph, side: Side, e: Id, near: Id, n: Id)
    requires Linked(g, side, n) && EdgeAdded(g, h, side, e, near)
    ensures Linked(h, side, n) && e !in ListOf(h, side, n)
  {
    hide FirstOf, NextOf, NearOf, ListOf, Stamp;
    NoRepetition(g, side, n);
    forall i: nat | i < |ListOf(h, side, n)| ensures LinkedAt(h, side, n, i) {
      assert LinkedAt(g, side, n, i);
    }
  }

  lemma EdgeAddedSide(g: Graph, h: Graph, side: Side, e: Id, near: Id)
    requires SideOk(g, side, {}) && EdgeAdded(g, h, side, e, near)
    requires near in g.nodes.used && near in g.nodes.records
    ensures SideOk(h, side, {e})
  {
    hide FirstOf, NextOf, NearOf, ListOf, Stamp, Linked;
    forall n | n in h.nodes.records ensures Linked(h, side, n) && e !in ListOf(h, side, n) {
      EdgeAddedLinks(g, h, side, e, near, n);
    }
    forall x | x in h.edges.records && x !in h.edges.used ensures Stale(h, side, x) {
      assert Stale(g, side, x);
    }
    forall x | x in h.edges.used ensures Listed(h, side, x) <==> x !in {e} {
      assert x != e ==> Listed(g, side, x);
    }
  }

  /** An edge in no list gives up its slot; its record keeps its links. */
  ghost predicate EdgeFreed(g: Graph, h: Graph, side: Side, e: Id) {
    && h.nodes.used == g.nodes.used && h.nodes.records.Keys == g.nodes.records.Keys
    && h.edges.used == g.edges.used - {e} && h.edges.records.Keys == g.edges.records.Keys
    && (forall m :: FirstOf(h, side, m) == FirstOf(g, side, m) && ListOf(h, side, m) == ListOf(g, side, m))
    && (forall x :: NextOf(h, side, x) == NextOf(g, side, x) && NearOf(h, side, x) == NearOf(g, side, x))
    && forall x :: Stamp(h, x) == if x == e then g.clock else Stamp(g, x)
  }

  lemma NotInList(g: Graph, side: Side, e: Id, n: Id)
    requires Linked(g, side, n) && !Listed(g, side, e)
    ensures forall i :: 0 <= i < |ListOf(g, side, n)| ==> ListOf(g, side, n)[i] != e
  {
    hide FirstOf, NextOf, NearOf, ListOf, Stamp;
    forall i | 0 <= i < |ListOf(g, side, n)| ensures ListOf(g, side, n)[i] != e {
      assert LinkedAt(g, side, n, i);
    }
  }

  lemma EdgeFreedLinks(g: Graph, h: Graph, side: Side, e: Id, n: Id)
    requires Linked(g, side, n) && EdgeFreed(g, h, side, e) && !Listed(g, side, e)
    ensures Linked(h, side, n)
  {
    hide FirstOf, NextOf, NearOf, ListOf, Stamp;
    NotInList(g, side, e, n);
    forall i: nat | i < |ListOf(h, side, n)| ensures LinkedAt(h, side, n, i) {
      assert LinkedAt(g, side, n, i);
    }
  }

  lemma EdgeFreedStale(g: Graph, h: Graph, side: Side, e: Id, x: Id)
    requires EdgeFreed(g, h, side, e) && x in g.edges.records && Stamp(g, x) < g.clock
    requires x != e ==> Stale(g, side, x)
    requires NextOf(g, side, e).Some? ==> NextOf(g, side, e).value in g.edges.used - {e} && NextOf(g, side, e).value in g.edges.records
    ensures Stale(h, side, x)
  {
    hide FirstOf, NextOf, NearOf, ListOf, Stamp;
  }

  lemma EdgeFreedSide(g: Graph, h: Graph, side: Side, e: Id)
    requires SideOk(g, side, {e}) && EdgeFreed(g, h, side, e) && e in g.edges.used && e in g.edges.records
    requires g.edges.used <= g.edges.records.Keys && forall x :: x in g.edges.records ==> Stamp(g, x) < g.clock
    requires NextOf(g, side, e).Some? ==> NextOf(g, side, e).value in g.edges.used - {e}
    ensures SideOk(h, side, {})
  {
    hide FirstOf, NextOf, NearOf, ListOf, Stamp, Linked, Stale;
    assert !Listed(g, side, e);
    forall n | n in h.nodes.records ensures Linked(h, side, n) {
      EdgeFreedLinks(g, h, side, e, n);
    }
    forall x | x in h.edges.records && x !in h.edges.used ensures Stale(h, side, x) {
      EdgeFreedStale(g, h, side, e, x);
    }
    forall x | x in h.edges.used ensures Listed(h, side, x) {
      assert Listed(g, side, x);
    }
  }

  /** A node takes a slot, or gives one up, with its lists empty. */
  ghost predicate NodeChanged(g: Graph, h: Graph, side: Side, n: Id) {
    && (forall m :: m != n ==> (m in h.nodes.used <==> m in g.nodes.used)) && n in h.nodes.records
    && h.nodes.records.Keys == g.nodes.records.Keys + {n}
    && h.edges.used == g.edges.used && h.edges.records.Keys == g.edges.records.Keys
    && FirstOf(h, side, n) == None && ListOf(h, side, n) == []
    && (forall m :: m != n ==> FirstOf(h, side, m) == FirstOf(g, side, m))
    && (forall m :: ListOf(h, side, m) == ListOf(g, side, m))
    && (forall x :: NextOf(h, side, x) == NextOf(g, side, x) && NearOf(h, side, x) == NearOf(g, side, x) && Stamp(h, x) == Stamp(g, x))
  }

  lemma NodeChangedSide(g: Graph, h: Graph, side: Side, n: Id)
    requires SideOk(g, side, {}) && NodeChanged(g, h, side, n)
    ensures SideOk(h, side, {})
  {
    hide FirstOf, NextOf, NearOf, ListOf, Stamp;
    forall m, i: nat | m in h.nodes.records ensures LinkedAt(h, side, m, i) {
      assert m in g.nodes.records ==> Linked(g, side, m) && LinkedAt(g, side, m, i);
    }
    forall x | x in h.edges.records && x !in h.edges.used ensures Stale(h, side, x) {
      assert Stale(g, side, x);
    }
    forall x | x in h.edges.used ensures Listed(h, side, x) && NearOf(h, side, x) in h.nodes.used {
      assert Listed(g, side, x);
    }
  }

  // ---- Reading ----

  /** The lists of a mapped slot can be read, unless it was never used and there is no edge page yet. */
  predicate Readable(g: Graph, n: Id) {
    g.nodes.Mapped(n) && (n in g.nodes.records || g.edges.pages > 0)
  }

  lemma FirstIsRecord(g: Graph, side: Side, n: Id)
    requires GraphOk(g) && Readable(g, n)
    ensures FirstOf(g, side, n).Some? ==> FirstOf(g, side, n).value in g.edges.records
  {
    if n in g.nodes.records {
      assert SideOk(g, side, {}) && Linked(g, side, n);
      ListsRecords(g, side, n, 0);
    }
  }

  /** What reading the list of a slot gives. */
  ghost function Adjacent(g: Graph, side: Side, n: Id): seq<Id>
    requires GraphOk(g) && Readable(g, n)
  {
    FirstIsRecord(g, side, n);
    Chain(g, side, FirstOf(g, side, n))
  }

  /** A node in use lists exactly its edges; a freed one lists none; a slot that was never used lists
      the first edge slot and what is linked from there. */
  lemma AdjacentEdges(g: Graph, side: Side, n: Id, e: Id)
    requires GraphOk(g) && Readable(g, n)
    ensures n in g.nodes.records ==>
      (e in Adjacent(g, side, n) <==> e in g.edges.used && NearOf(g, side, e) == n && n in g.nodes.used)
    ensures n !in g.nodes.records ==> Adjacent(g, side, n) != [] && Adjacent(g, side, n)[0] == 0
  {
    hide NearOf, ListOf, NextOf, Stamp, Stale;
    if n in g.nodes.records {
      assert SideOk(g, side, {}) && Linked(g, side, n);
      ListsRecords(g, side, n, 0);
      ChainIsList(g, side, n, 0);
      var l := ListOf(g, side, n);
      assert Adjacent(g, side, n) == l;
      if e in l {
        var i :| 0 <= i < |l| && l[i] == e;
        assert LinkedAt(g, side, n, i);
      }
      assert e in g.edges.used ==> Listed(g, side, e);
    }
  }

  lemma {:induction false} ChainOfRecords(g: Graph, side: Side, first: Option<Id>)
    requires GraphOk(g) && (first.Some? ==> first.value in g.edges.records)
    ensures forall e :: e in Chain(g, side, first) ==> e in g.edges.records
    decreases |Chain(g, side, first)|
  {
    if first.Some? {
      NextIsNearer(g, side, first.value);
      hide GraphOk, NextOf;
      ChainOfRecords(g, side, NextOf(g, side, first.value));
    }
  }

  // ---- The store ----

  datatype Ends = Ends(typeId: U16, fromNode: Id, toNode: Id)

  /** The edges in use, without their links. */
  function EdgesOf(edges: Slots<EdgeLinks>): map<Id, Ends> {
    map e | e in edges.used && e in edges.records :: Ends(edges.records[e].typeId, edges.records[e].fromNode, edges.records[e].toNode)
  }

  // ---- The steps of the store ----

  lemma NodeAllocated(g: Graph, nodes: Slots<NodeLinks>, n: Id)
    requires GraphOk(g) && nodes.Valid() && n !in g.nodes.used
    requires nodes.records == g.nodes.records[n := NodeLinks(None, None)] && nodes.used == g.nodes.used + {n}
    ensures GraphOk(Graph(nodes, g.edges, g.outs[n := []], g.ins[n := []], g.stamp, g.clock))
  {
    hide Linked, Listed, Stale, SideOk, NodeChanged;
    var h := Graph(nodes, g.edges, g.outs[n := []], g.ins[n := []], g.stamp, g.clock);
    IsNodeAllocated(g, nodes, n, Out);
    IsNodeAllocated(g, nodes, n, In);
    NodeChangedSide(g, h, Out, n);
    NodeChangedSide(g, h, In, n);
  }

  lemma IsNodeAllocated(g: Graph, nodes: Slots<NodeLinks>, n: Id, side: Side)
    requires GraphOk(g) && n !in g.nodes.used
    requires nodes.records == g.nodes.records[n := NodeLinks(None, None)] && nodes.used == g.nodes.used + {n}
    ensures NodeChanged(g, Graph(nodes, g.edges, g.outs[n := []], g.ins[n := []], g.stamp, g.clock), side, n)
  {
    hide Linked, Listed, Stale, FirstOf, NextOf, NearOf;
    assert SideOk(g, side, {}) && ListOf(g, side, n) == [];
    FirstsAndNexts(g, nodes, n, side);
  }

  lemma FirstsAndNexts(g: Graph, nodes: Slots<NodeLinks>, n: Id, side: Side)
    requires nodes.records == g.nodes.records[n := NodeLinks(None, None)]
    ensures var h := Graph(nodes, g.edges, g.outs[n := []], g.ins[n := []], g.stamp, g.clock);
      && FirstOf(h, side, n) == None && (forall m :: m != n ==> FirstOf(h, side, m) == FirstOf(g, side, m))
      && forall x :: NextOf(h, side, x) == NextOf(g, side, x) && NearOf(h, side, x) == NearOf(g, side, x)
  {
  }

  lemma NodeFreed(g: Graph, n: Id)
    requires GraphOk(g) && n in g.nodes.used
    requires forall e :: e in g.edges.used ==> NearOf(g, Out, e) != n && NearOf(g, In, e) != n
    ensures GraphOk(g.(nodes := g.nodes.(used := g.nodes.used - {n})))
  {
    hide Linked, Listed, Stale, SideOk;
    var h := g.(nodes := g.nodes.(used := g.nodes.used - {n}));
    NoEdgesNoLists(g, Out, n);
    NoEdgesNoLists(g, In, n);
    NodeChangedSide(g, h, Out, n);
    NodeChangedSide(g, h, In, n);
  }

  ghost predicate GraphBut(g: Graph, missingOut: set<Id>, missingIn: set<Id>) {
    Shaped(g) && SideOk(g, Out, missingOut) && SideOk(g, In, missingIn)
  }

  ghost predicate IsYoungest(g: Graph, e: Id) {
    forall x :: x in g.edges.used && x != e ==> Stamp(g, x) < Stamp(g, e)
  }

  lemma IsEdgeAllocated(g: Graph, edges: Slots<EdgeLinks>, e: Id, edge: EdgeLinks, side: Side)
    requires e !in g.edges.used && Next(side, edge) == None
    requires edges.records == g.edges.records[e := edge] && edges.used == g.edges.used + {e}
    ensures EdgeAdded(g, Graph(g.nodes, edges, g.outs, g.ins, g.stamp[e := g.clock], g.clock + 1), side, e, Near(side, edge))
  {
  }

  lemma EdgeAllocated(g: Graph, edges: Slots<EdgeLinks>, e: Id, edge: EdgeLinks)
    requires GraphOk(g) && edges.Valid() && e !in g.edges.used && edge.nextOut == None && edge.nextIn == None
    requires edges.records == g.edges.records[e := edge] && edges.used == g.edges.used + {e}
    requires edge.fromNode in g.nodes.used && edge.toNode in g.nodes.used
    ensures var h := Graph(g.nodes, edges, g.outs, g.ins, g.stamp[e := g.clock], g.clock + 1);
      GraphBut(h, {e}, {e}) && IsYoungest(h, e)
  {
    hide Linked, Listed, Stale, SideOk, EdgeAdded;
    var h := Graph(g.nodes, edges, g.outs, g.ins, g.stamp[e := g.clock], g.clock + 1);
    IsEdgeAllocated(g, edges, e, edge, Out);
    IsEdgeAllocated(g, edges, e, edge, In);
    EdgeAddedSide(g, h, Out, e, edge.fromNode);
    EdgeAddedSide(g, h, In, e, edge.toNode);
  }

  function WithList(g: Graph, side: Side, n: Id, l: seq<Id>): Graph {
    if side.Out? then g.(outs := g.outs[n := l]) else g.(ins := g.ins[n := l])
  }

  function Other(side: Side): Side {
    if side.Out? then In else Out
  }

  /** The records and the list after an edge has been put in front. */
  function Appended(g: Graph, side: Side, e: Id): Graph {
    var n := NearOf(g, side, e);
    var node, edge := g.nodes.Read(n, ZERO_NODE), EdgeAt(g, e);
    WithList(g.(nodes := g.nodes.(records := g.nodes.records[n := WithFirst(side, node, Some(e))]),
                edges := g.edges.(records := g.edges.records[e := WithNext(side, edge, FirstOf(g, side, n))])),
             side, n, [e] + ListOf(g, side, n))
  }

  lemma IsPrepended(g: Graph, side: Side, e: Id)
    requires e in g.edges.records && NearOf(g, side, e) in g.nodes.records
    ensures Prepended(g, Appended(g, side, e), side, e)
  {
    var h := Appended(g, side, e);
    assert h.nodes.records.Keys == g.nodes.records.Keys && h.edges.records.Keys == g.edges.records.Keys;
  }

  lemma OtherSideStays(g: Graph, side: Side, e: Id)
    requires e in g.edges.records && NearOf(g, side, e) in g.nodes.records
    ensures SameSide(g, Appended(g, side, e), Other(side))
  {
    var h := Appended(g, side, e);
    assert h.nodes.records.Keys == g.nodes.records.Keys && h.edges.records.Keys == g.edges.records.Keys;
  }

  lemma EdgeAppended(g: Graph, side: Side, e: Id, missing: set<Id>, missing2: set<Id>)
    requires Shaped(g) && SideOk(g, side, missing) && SideOk(g, Other(side), missing2) && IsYoungest(g, e)
    requires e in g.edges.used && e in missing && e in g.edges.records && NearOf(g, side, e) in g.nodes.records
    ensures var h := Appended(g, side, e);
      Shaped(h) && SideOk(h, side, missing - {e}) && SideOk(h, Other(side), missing2) && IsYoungest(h, e)
  {
    var h := Appended(g, side, e);
    IsPrepended(g, side, e);
    OtherSideStays(g, side, e);
    hide Linked, Listed, Stale, SideOk, FirstOf, NextOf, NearOf, ListOf, Appended, Prepended, SameSide;
    PrependedSide(g, h, side, e, missing);
    SameSideOk(g, h, Other(side), missing2);
    AppendedShape(g, side, e);
  }

  lemma AppendedShape(g: Graph, side: Side, e: Id)
    requires Shaped(g) && IsYoungest(g, e) && e in g.edges.records && NearOf(g, side, e) in g.nodes.records
    ensures Shaped(Appended(g, side, e)) && IsYoungest(Appended(g, side, e), e)
  {
  }

  /** The records and the list after the edge at place `i` has been taken out. */
  function Removed(g: Graph, side: Side, e: Id, i: nat): Graph {
    var n := NearOf(g, side, e);
    var l, next := ListOf(g, side, n), NextOf(g, side, e);
    if i >= |l| then g
    else
      WithList(if i == 0
               then g.(nodes := g.nodes.(records := g.nodes.records[n := WithFirst(side, g.nodes.Read(n, ZERO_NODE), next)]))
               else g.(edges := g.edges.(records := g.edges.records[l[i-1] := WithNext(side, EdgeAt(g, l[i-1]), next)])),
               side, n, l[..i] + l[i+1..])
  }

  lemma RemovedIs(g: Graph, side: Side, n: Id, e: Id, i: nat)
    requires e in g.edges.records && n == Near(side, g.edges.records[e]) && n in g.nodes.records
    requires var l := ListOf(g, side, n); i < |l| && (i > 0 ==> l[i-1] in g.edges.records)
    ensures var l, next := ListOf(g, side, n), Next(side, g.edges.records[e]);
      Removed(g, side, e, i)
      == WithList(if i == 0 then g.(nodes := g.nodes.(records := g.nodes.records[n := WithFirst(side, g.nodes.records[n], next)]))
                  else g.(edges := g.edges.(records := g.edges.records[l[i-1] := WithNext(side, g.edges.records[l[i-1]], next)])),
                  side, n, l[..i] + l[i+1..])
    ensures NextOf(g, side, e) == Next(side, g.edges.records[e])
    ensures i > 0 ==> var p := ListOf(g, side, n)[i-1];
      EdgesOf(g.edges.(records := g.edges.records[p := WithNext(side, g.edges.records[p], Next(side, g.edges.records[e]))])) == EdgesOf(g.edges)
  {
  }

  lemma IsUnlinked(g: Graph, side: Side, e: Id, i: nat)
    requires e in g.edges.records && NearOf(g, side, e) in g.nodes.records
    requires var l := ListOf(g, side, NearOf(g, side, e)); i < |l| && l[i] == e && (i > 0 ==> l[i-1] in g.edges.records)
    ensures Unlinked(g, Removed(g, side, e, i), side, e, i)
  {
    var h := Removed(g, side, e, i);
    assert h.nodes.records.Keys == g.nodes.records.Keys && h.edges.records.Keys == g.edges.records.Keys;
  }

  lemma OtherSideKept(g: Graph, side: Side, e: Id, i: nat)
    requires e in g.edges.records && NearOf(g, side, e) in g.nodes.records
    requires var l := ListOf(g, side, NearOf(g, side, e)); i < |l| && l[i] == e && (i > 0 ==> l[i-1] in g.edges.records)
    ensures SameSide(g, Removed(g, side, e, i), Other(side))
  {
    var h := Removed(g, side, e, i);
    assert h.nodes.records.Keys == g.nodes.records.Keys && h.edges.records.Keys == g.edges.records.Keys;
  }

  lemma RemovedShape(g: Graph, side: Side, e: Id, i: nat)
    requires Shaped(g) && e in g.edges.records && NearOf(g, side, e) in g.nodes.records
    requires var l := ListOf(g, side, NearOf(g, side, e)); i < |l| && (i > 0 ==> l[i-1] in g.edges.records)
    ensures Shaped(Removed(g, side, e, i))
  {
  }

  lemma EdgeRemoved(g: Graph, side: Side, e: Id, i: nat, missing: set<Id>, missing2: set<Id>)
    requires Shaped(g) && SideOk(g, side, missing) && SideOk(g, Other(side), missing2)
    requires e in g.edges.used && e in g.edges.records && NearOf(g, side, e) in g.nodes.records
    requires var l := ListOf(g, side, NearOf(g, side, e)); i < |l| && l[i] == e && (i > 0 ==> l[i-1] in g.edges.records)
    ensures var h := Removed(g, side, e, i);
      && Shaped(h) && SideOk(h, side, missing + {e}) && SideOk(h, Other(side), missing2)
      && NextOf(h, side, e) == NextOf(g, side, e) && NextOf(h, Other(side), e) == NextOf(g, Other(side), e)
      && (NextOf(g, side, e).Some? ==> NextOf(g, side, e).value in g.edges.used - {e})
  {
    var h := Removed(g, side, e, i);
    IsUnlinked(g, side, e, i);
    OtherSideKept(g, side, e, i);
    RemovedShape(g, side, e, i);
    hide Linked, Listed, Stale, SideOk, FirstOf, NextOf, NearOf, ListOf, Removed, Unlinked;
    UnlinkedSide(g, h, side, e, i, missing);
    SameSideOk(g, h, Other(side), missing2);
  }

  /** The place of a listed edge in the list of its node, which the records link together. */
  lemma PlaceOf(g: Graph, side: Side, n: Id, e: Id, missing: set<Id>) returns (i: nat)
    requires Shaped(g) && SideOk(g, side, missing) && e in g.edges.used && e !in missing
    requires e in g.edges.records && n == Near(side, g.edges.records[e])
    ensures n in g.nodes.records && n == NearOf(g, side, e)
    ensures var l := ListOf(g, side, n);
      && i < |l| && l[i] == e && First(side, g.nodes.records[n]) == At(l, 0)
      && forall k :: 0 <= k < |l| ==>
           l[k] in g.edges.records && Next(side, g.edges.records[l[k]]) == At(l, k + 1) && (l[k] == e ==> k == i)
  {
    hide ListOf, Stamp;
    assert n == NearOf(g, side, e);
    var l := ListOf(g, side, n);
    assert Listed(g, side, e);
    i :| 0 <= i < |l| && l[i] == e;
    assert Linked(g, side, n);
    NoRepetition(g, side, n);
    forall k | 0 <= k < |l| ensures l[k] in g.edges.records && Next(side, g.edges.records[l[k]]) == At(l, k + 1) {
      assert LinkedAt(g, side, n, k);
    }
  }

  lemma EdgesWithout(edges: Slots<EdgeLinks>, e: Id)
    ensures EdgesOf(edges.(used := edges.used - {e})) == EdgesOf(edges) - {e}
  {
  }

  lemma GiveUpEdge(g: Graph, e: Id)
    requires Shaped(g) && SideOk(g, Out, {e}) && SideOk(g, In, {e}) && e in g.edges.used
    requires NextOf(g, Out, e).Some? ==> NextOf(g, Out, e).value in g.edges.used - {e}
    requires NextOf(g, In, e).Some? ==> NextOf(g, In, e).value in g.edges.used - {e}
    ensures GraphOk(g.(edges := g.edges.(used := g.edges.used - {e}), stamp := g.stamp[e := g.clock], clock := g.clock + 1))
  {
    hide Linked, Listed, Stale, SideOk;
    var h := g.(edges := g.edges.(used := g.edges.used - {e}), stamp := g.stamp[e := g.clock], clock := g.clock + 1);
    EdgeFreedSide(g, h, Out, e);
    EdgeFreedSide(g, h, In, e);
  }

  class TopologyStore {
    var nodes: Slots<NodeLinks>
    var edges: Slots<EdgeLinks>
    ghost var outs: map<Id, seq<Id>>
    ghost var ins: map<Id, seq<Id>>
    ghost var stamp: map<Id, nat>
    ghost var clock: nat

    ghost function View(): Graph
      reads this
    {
      Graph(nodes, edges, outs, ins, stamp, clock)
    }

    ghost predicate Valid()
      reads this
    {
      GraphOk(View())
    }

    constructor ()
      ensures Valid() && nodes.used == {} && edges.used == {}
    {
      nodes, edges := Slots(0, map[], {}), Slots(0, map[], {});
      outs, ins, stamp, clock := map[], map[], map[], 0;
    }

    method AllocNode() returns (n: Id)
      requires Valid()
      modifies this
      ensures Valid() && n !in old(nodes.used) && nodes.used == old(nodes.used) + {n} && edges == old(edges)
    {
      hide GraphOk;
      ghost var g := View();
      GraphSlots(g);
      nodes, n := AllocSlot(nodes, NodeLinks(None, None));
      outs, ins := outs[n := []], ins[n := []];
      NodeAllocated(g, nodes, n);
    }

    /** Gives up the slot of a node without edges; the record stays. */
    method FreeNode(n: Id)
      requires Valid() && n in nodes.used
      requires forall e :: e in EdgesOf(edges) ==> EdgesOf(edges)[e].fromNode != n && EdgesOf(edges)[e].toNode != n
      modifies this
      ensures Valid() && nodes == old(nodes).(used := old(nodes.used) - {n}) && edges == old(edges)
    {
      hide GraphOk;
      ghost var g := View();
      GraphSlots(g);
      nodes := nodes.(used := nodes.used - {n});
      assert forall e :: e in g.edges.used ==> e in EdgesOf(edges);
      NodeFreed(g, n);
    }

    /** An edge joins between two nodes, in front of their lists. */
    method InsertEdge(typeId: U16, fromNode: Id, toNode: Id) returns (r: Result<Id>)
      requires Valid()
      modifies this
      ensures Valid() && nodes.used == old(nodes.used)
      ensures r.Ok? <==> fromNode in nodes.used && toNode in nodes.used
      ensures r.Ok? ==> r.value !in old(edges.used) && EdgesOf(edges) == old(EdgesOf(edges))[r.value := Ends(typeId, fromNode, toNode)]
      ensures r.Err? ==> r == Err(NodeNotFound) && View() == old(View())
    {
      hide GraphOk, SideOk, Shaped, IsYoungest;
      if fromNode !in nodes.used || toNode !in nodes.used {
        return Err(NodeNotFound);
      }
      GraphSlots(View());
      ghost var ends := EdgesOf(edges);
      var e := AllocEdge(typeId, fromNode, toNode);
      assert EdgesOf(edges) == ends[e := Ends(typeId, fromNode, toNode)];
      AppendEdge(Out, fromNode, e, {e}, {e});
      assert {e} - {e} == {};
      AppendEdge(In, toNode, e, {e}, {});
      IsGraph(View());
      r := Ok(e);
    }

    method AllocEdge(typeId: U16, fromNode: Id, toNode: Id) returns (e: Id)
      requires Valid() && fromNode in nodes.used && toNode in nodes.used
      modifies this
      ensures GraphBut(View(), {e}, {e}) && IsYoungest(View(), e) && nodes == old(nodes)
      ensures e !in old(edges.used) && edges.used == old(edges.used) + {e}
      ensures edges.records == old(edges.records)[e := EdgeLinks(typeId, fromNode, toNode, None, None)]
    {
      hide GraphOk, GraphBut, IsYoungest;
      ghost var g := View();
      GraphSlots(g);
      var edge := EdgeLinks(typeId, fromNode, toNode, None, None);
      edges, e := AllocSlot(edges, edge);
      stamp, clock := stamp[e := clock], clock + 1;
      EdgeAllocated(g, edges, e, edge);
    }

    /** Puts an edge in front of the list of its node on the side. */
    method AppendEdge(side: Side, n: Id, e: Id, ghost missing: set<Id>, ghost missing2: set<Id>)
      requires Shaped(View()) && SideOk(View(), side, missing) && SideOk(View(), Other(side), missing2) && IsYoungest(View(), e)
      requires e in missing && e in edges.used && e in edges.records && n == Near(side, edges.records[e]) && n in nodes.records
      modifies this
      ensures Shaped(View()) && SideOk(View(), side, missing - {e}) && SideOk(View(), Other(side), missing2) && IsYoungest(View(), e)
      ensures EdgesOf(edges) == old(EdgesOf(edges)) && nodes.used == old(nodes.used) && edges.used == old(edges.used)
      ensures edges.records.Keys == old(edges.records.Keys) && nodes.records.Keys == old(nodes.records.Keys)
      ensures Near(Other(side), edges.records[e]) == old(Near(Other(side), edges.records[e]))
    {
      hide SideOk, Shaped, IsYoungest;
      ghost var g := View();
      var node, edge := nodes.records[n], edges.records[e];
      edges := edges.(records := edges.records[e := WithNext(side, edge, First(side, node))]);
      nodes := nodes.(records := nodes.records[n := WithFirst(side, node, Some(e))]);
      if side.Out? {
        outs := outs[n := [e] + ListOf(g, Out, n)];
      } else {
        ins := ins[n := [e] + ListOf(g, In, n)];
      }
      EdgeAppended(g, side, e, missing, missing2);
    }

    /** Takes an edge out of the list of its node on the side: the link to it takes over its own. */
    method RemoveFromList(side: Side, n: Id, e: Id, ghost missing: set<Id>, ghost missing2: set<Id>)
      requires Shaped(View()) && SideOk(View(), side, missing) && SideOk(View(), Other(side), missing2)
      requires e in edges.used && e !in missing && e in edges.records && n == Near(side, edges.records[e])
      modifies this
      ensures Shaped(View()) && SideOk(View(), side, missing + {e}) && SideOk(View(), Other(side), missing2)
      ensures EdgesOf(edges) == old(EdgesOf(edges)) && nodes.used == old(nodes.used) && edges.used == old(edges.used)
      ensures edges.records.Keys == old(edges.records.Keys) && edges.records[e] == old(edges.records[e])
      ensures var next := Next(side, edges.records[e]); next.Some? ==> next.value in edges.used - {e}
    {
      hide SideOk, Shaped, NearOf, NextOf, FirstOf, ListOf, Removed;
      ghost var g := View();
      ghost var i := PlaceOf(g, side, n, e, missing);
      ghost var l := ListOf(g, side, n);
      assert i > 0 ==> l[i-1] != e;
      EdgeRemoved(g, side, e, i, missing, missing2);
      RemovedIs(g, side, n, e, i);
      var previous := FindPrevious(side, n, e, l, i);
      var next := Next(side, edges.records[e]);
      if previous.None? {
        nodes := nodes.(records := nodes.records[n := WithFirst(side, nodes.records[n], next)]);
      } else {
        edges := edges.(records := edges.records[previous.value := WithNext(side, edges.records[previous.value], next)]);
      }
      if side.Out? {
        outs := outs[n := l[..i] + l[i+1..]];
      } else {
        ins := ins[n := l[..i] + l[i+1..]];
      }
    }

    /** The edge in front of `e` in the list of its node, if there is one. */
    method FindPrevious(side: Side, n: Id, e: Id, ghost l: seq<Id>, ghost i: nat) returns (previous: Option<Id>)
      requires n in nodes.records && First(side, nodes.records[n]) == At(l, 0) && i < |l| && l[i] == e
      requires forall k :: 0 <= k < |l| ==> l[k] in edges.records && Next(side, edges.records[l[k]]) == At(l, k + 1) && (l[k] == e ==> k == i)
      ensures previous == if i == 0 then None else Some(l[i-1])
    {
      if First(side, nodes.records[n]) == Some(e) {
        return None;
      }
      previous := First(side, nodes.records[n]);
      ghost var k := 0;
      while previous.Some? && Next(side, edges.records[previous.value]) != Some(e)
        invariant k < i && previous == Some(l[k])
        decreases i - k
      {
        previous, k := Next(side, edges.records[previous.value]), k + 1;
      }
    }

    /** Takes an edge out of both lists and gives up its slot; the record stays, links and all. */
    method DeleteEdge(e: Id)
      requires Valid() && e in edges.used
      modifies this
      ensures Valid() && nodes.used == old(nodes.used) && edges.used == old(edges.used) - {e}
      ensures EdgesOf(edges) == old(EdgesOf(edges)) - {e}
    {
      hide GraphOk, SideOk, Shaped, EdgesOf, NextOf;
      IsGraphBut(View());
      GraphSlots(View());
      var edge := edges.records[e];
      RemoveFromList(Out, edge.fromNode, e, {}, {});
      assert {} + {e} == {e};
      RemoveFromList(In, edge.toNode, e, {}, {e});
      NextIs(View(), Out, e);
      NextIs(View(), In, e);
      GiveUpEdge(View(), e);
      EdgesWithout(edges, e);
      edges := edges.(used := edges.used - {e});
      stamp, clock := stamp[e := clock], clock + 1;
    }

    /** Follows the links of a node's list to their end. */
    method CollectEdgeChain(side: Side, n: Id) returns (r: Result<seq<Id>>)
      requires Valid()
      ensures if Readable(View(), n) then r == Ok(Adjacent(View(), side, n)) else r.Err?
    {
      hide GraphOk, NextOf, Adjacent, Chain;
      ghost var g := View();
      if !nodes.Mapped(n) {
        return Err(StorageCorrupted(PageOf(n)));
      }
      var next := First(side, nodes.Read(n, ZERO_NODE));
      GraphSlots(g);
      ghost var readable := Readable(g, n);
      if readable {
        FirstIsRecord(g, side, n);
        AdjacentIs(g, side, n);
      }
      var out: seq<Id> := [];
      while next.Some?
        invariant if readable then (next.Some? ==> next.value in edges.records) && out + Chain(g, side, next) == Adjacent(g, side, n)
                  else next == Some(0) && edges.pages == 0
        decreases if readable then |Chain(g, side, next)| else 0
      {
        if !edges.Mapped(next.value) {
          return Err(StorageCorrupted(PageOf(next.value)));
        }
        var edge := edges.Read(next.value, ZERO_EDGE);
        ChainStep(g, side, next.value, out);
        out := out + [next.value];
        next := Next(side, edge);
      }
      if readable {
        ChainEnds(g, side);
        assert out + [] == out;
      }
      r := Ok(out);
    }
  }

  lemma AdjacentIs(g: Graph, side: Side, n: Id)
    requires GraphOk(g) && Readable(g, n)
    requires FirstOf(g, side, n).Some? ==> FirstOf(g, side, n).value in g.edges.records
    ensures Adjacent(g, side, n) == Chain(g, side, FirstOf(g, side, n)) == [] + Chain(g, side, FirstOf(g, side, n))
  {
    hide GraphOk, FirstOf, Chain;
  }

  lemma ChainEnds(g: Graph, side: Side)
    requires GraphOk(g)
    ensures Chain(g, side, None) == []
  {
    hide GraphOk;
  }

  lemma ChainStep(g: Graph, side: Side, e: Id, out: seq<Id>)
    requires GraphOk(g) && e in g.edges.records
    ensures var next := Next(side, g.edges.records[e]);
      && (next.Some? ==> next.value in g.edges.records)
      && out + Chain(g, side, Some(e)) == out + [e] + Chain(g, side, next)
      && |Chain(g, side, next)| < |Chain(g, side, Some(e))|
  {
    hide GraphOk, NextOf, Stamp;
    NextIsNearer(g, side, e);
    NextIs(g, side, e);
    assert out + ([e] + Chain(g, side, Next(side, g.edges.records[e]))) == out + [e] + Chain(g, side, Next(side, g.edges.records[e]));
  }

  lemma NextIs(g: Graph, side: Side, e: Id)
    requires e in g.edges.records
    ensures NextOf(g, side, e) == Next(side, g.edges.records[e])
  {
  }

  lemma GraphSlots(g: Graph)
    requires GraphOk(g)
    ensures g.nodes.Valid() && g.edges.Valid()
  {
  }

  lemma IsGraphBut(g: Graph)
    requires GraphOk(g)
    ensures Shaped(g) && SideOk(g, Out, {}) && SideOk(g, In, {})
  {
  }

  lemma IsGraph(g: Graph)
    requires Shaped(g) && SideOk(g, Out, {}) && SideOk(g, In, {})
    ensures GraphOk(g)
  {
  }

  lemma NoEdgesNoLists(g: Graph, side: Side, n: Id)
    requires GraphOk(g) && n in g.nodes.used && forall e :: e in g.edges.used ==> NearOf(g, side, e) != n
    ensures ListOf(g, side, n) == [] && FirstOf(g, side, n) == None
  {
    assert SideOk(g, side, {}) && Linked(g, side, n);
    hide NearOf, ListOf, NextOf, Stamp, FirstOf;
    assert LinkedAt(g, side, n, 0);
  }
}
