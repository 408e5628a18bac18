/**
 * The bounded LRU page cache (chiffondb-core/src/storage/buffer.rs): frames live in a slab,
 * vacated frames in a free stack, and the recency order in `prev`/`next` links between frames.
 */
module PageCache {
  import opened Types
  import opened Lru

  /** No neighbour. `usize::MAX` in the source; any value that is not a slab index serves. */
  const NIL: int := -1

  datatype Frame<D(!new)> = Frame(page: U32, data: D, dirty: bool, prev: int, next: int)

  function EntryOf<D(!new)>(f: Frame<D>): Entry<D> {
    Entry(f.page, f.data, f.dirty)
  }

  function Prev(order: seq<nat>, i: nat): int
    requires i < |order|
  {
    if i == 0 then NIL else order[i-1]
  }

  function Next(order: seq<nat>, i: nat): int
    requires i < |order|
  {
    if i == |order| - 1 then NIL else order[i+1]
  }

  function First(order: seq<nat>): int {
    if order == [] then NIL else order[0]
  }

  function Last(order: seq<nat>): int {
    if order == [] then NIL else order[|order|-1]
  }

  /** `rank` is the inverse of `order`: the position of a linked slot, and negative elsewhere. */
  ghost predicate Ranked(n: nat, order: seq<nat>, rank: seq<int>) {
    && |rank| == n
    && (forall i :: 0 <= i < |order| ==> order[i] < n && rank[order[i]] == i)
    && (forall s :: 0 <= s < n ==> rank[s] < |order|)
    && (forall s {:trigger order[rank[s]]} :: 0 <= s < n && 0 <= rank[s] ==> order[rank[s]] == s)
  }

  /** The frames at `order`, from the least to the most recently used, are doubly linked. */
  ghost predicate Linked<D(!new)>(slab: seq<Frame<D>>, order: seq<nat>, rank: seq<int>) {
    && Ranked(|slab|, order, rank)
    && forall i {:trigger slab[order[i]]} :: 0 <= i < |order| ==>
         slab[order[i]].prev == Prev(order, i) && slab[order[i]].next == Next(order, i)
  }

  /** The slots of the free stack are not linked: slot `j` from the bottom has rank `-1-j`. */
  ghost predicate FreeStack(free: seq<nat>, rank: seq<int>) {
    forall j :: 0 <= j < |free| ==> free[j] < |rank| && rank[free[j]] == -1 - j
  }

  /** `index` is a bijection from the cached pages onto the linked slots. */
  ghost predicate Indexed<D(!new)>(slab: seq<Frame<D>>, rank: seq<int>, index: map<U32, nat>) {
    && |rank| == |slab|
    && (forall s {:trigger slab[s]} :: 0 <= s < |slab| && 0 <= rank[s] ==> slab[s].page in index && index[slab[s].page] == s)
    && (forall p :: p in index ==> index[p] < |slab| && 0 <= rank[index[p]] && slab[index[p]].page == p)
  }

  ghost predicate SameContents<D(!new)>(a: seq<Frame<D>>, b: seq<Frame<D>>) {
    && |a| == |b|
    && forall s :: 0 <= s < |a| ==> EntryOf(a[s]) == EntryOf(b[s])
  }

  /** The ranks after the slot at position `k` leaves the list for rank `there`. */
  ghost function RanksWithout(rank: seq<int>, slot: nat, k: nat, there: int): (r: seq<int>)
    requires slot < |rank|
    ensures |r| == |rank|
    ensures forall s {:trigger r[s]} :: 0 <= s < |r| ==>
      r[s] == if s == slot then there else if rank[s] > k then rank[s] - 1 else rank[s]
  {
    seq(|rank|, s requires 0 <= s < |rank| =>
      if s == slot then there else if rank[s] > k then rank[s] - 1 else rank[s])
  }

  /** The recency list held by the frames at `order`. */
  ghost function EntriesOf<D(!new)>(slab: seq<Frame<D>>, order: seq<nat>, rank: seq<int>): (es: seq<Entry<D>>)
    requires Linked(slab, order, rank)
    ensures |es| == |order|
    ensures forall i {:trigger es[i]} :: 0 <= i < |order| ==> es[i] == EntryOf(slab[order[i]])
  {
    seq(|order|, i requires 0 <= i < |order| && order[i] < |slab| => EntryOf(slab[order[i]]))
  }

  lemma EntriesMoved<D(!new)>(a: seq<Frame<D>>, order: seq<nat>, rank: seq<int>, i: nat,
                              b: seq<Frame<D>>, order2: seq<nat>, rank2: seq<int>)
    requires Linked(a, order, rank) && Linked(b, order2, rank2) && SameContents(b, a) && i < |order|
    ensures order2 == RemoveAt(order, i) ==> EntriesOf(b, order2, rank2) == RemoveAt(EntriesOf(a, order, rank), i)
    ensures order2 == RemoveAt(order, i) + [order[i]] ==>
      EntriesOf(b, order2, rank2) == RemoveAt(EntriesOf(a, order, rank), i) + [EntriesOf(a, order, rank)[i]]
  {
  }

  lemma EntriesPushed<D(!new)>(a: seq<Frame<D>>, order: seq<nat>, rank: seq<int>, b: seq<Frame<D>>, slot: nat)
    requires Linked(a, order, rank) && slot < |a| && SameContents(b, a)
    requires Linked(b, order + [slot], rank[slot := |order|])
    ensures EntriesOf(b, order + [slot], rank[slot := |order|]) == EntriesOf(a, order, rank) + [EntryOf(a[slot])]
  {
  }

  lemma UpdateAt<T>(es: seq<T>, i: nat, e: T)
    requires i < |es|
    ensures RemoveAt(es[i := e], i) == RemoveAt(es, i)
  {
  }

  lemma VacatedFrame<D(!new)>(a: seq<Frame<D>>, order: seq<nat>, rank: seq<int>, i: nat)
    requires Linked(a, order, rank) && i < |order|
    ensures order[i] < |a| == |rank| && rank[order[i]] == i && EntriesOf(a, order, rank)[i] == EntryOf(a[order[i]])
  {
  }

  // ---- Relinking ----

  /** `b` is `a` after the neighbours of the slot `cut` have been linked to each other. */
  ghost predicate Spliced<D(!new)>(a: seq<Frame<D>>, b: seq<Frame<D>>, cut: nat, prev: int, next: int) {
    && |a| == |b|
    && forall s {:trigger b[s]} :: 0 <= s < |b| && s != cut ==>
         && b[s].prev == (if s == next then prev else a[s].prev)
         && b[s].next == (if s == prev then next else a[s].next)
  }

  lemma Neighbours<D(!new)>(a: seq<Frame<D>>, order: seq<nat>, rank: seq<int>, i: nat)
    requires Linked(a, order, rank) && i < |order|
    ensures a[order[i]].prev == Prev(order, i) && a[order[i]].next == Next(order, i)
    ensures var prev, next := Prev(order, i), Next(order, i);
      NIL <= prev < |a| && NIL <= next < |a| && prev != order[i] && next != order[i] && (prev == next ==> prev == NIL)
  {
  }

  lemma Ends(order: seq<nat>, i: nat)
    requires i < |order|
    ensures First(RemoveAt(order, i)) == if i == 0 then Next(order, i) else First(order)
    ensures Last(RemoveAt(order, i)) == if i == |order| - 1 then Prev(order, i) else Last(order)
  {
  }

  lemma UnlinkedAt<D(!new)>(a: seq<Frame<D>>, order: seq<nat>, rank: seq<int>, i: nat, b: seq<Frame<D>>, j: nat)
    requires Linked(a, order, rank) && i < |order|
    requires Spliced(a, b, order[i], Prev(order, i), Next(order, i))
    requires j < |order| - 1
    ensures var order2 := RemoveAt(order, i);
      order2[j] < |b| && b[order2[j]].prev == Prev(order2, j) && b[order2[j]].next == Next(order2, j)
  {
  }

  /** Links the neighbours of the slot `cut` to each other. */
  function Bypass<D(!new)>(a: seq<Frame<D>>, cut: nat, prev: int, next: int): seq<Frame<D>>
    requires cut < |a| && NIL <= prev < |a| && NIL <= next < |a|
  {
    var b := if prev == NIL then a else a[prev := a[prev].(next := next)];
    var c := if next == NIL then b else b[next := b[next].(prev := prev)];
    c[cut := c[cut].(prev := NIL, next := NIL)]
  }

  lemma BypassSplices<D(!new)>(a: seq<Frame<D>>, cut: nat, prev: int, next: int)
    requires cut < |a| && NIL <= prev < |a| && NIL <= next < |a|
    requires prev != cut && next != cut && (prev == next ==> prev == NIL)
    ensures Spliced(a, Bypass(a, cut, prev, next), cut, prev, next)
    ensures SameContents(Bypass(a, cut, prev, next), a)
  {
  }

  lemma Unlinked<D(!new)>(a: seq<Frame<D>>, order: seq<nat>, rank: seq<int>, i: nat, b: seq<Frame<D>>, there: int)
    requires Linked(a, order, rank) && i < |order| && there < 0
    requires Spliced(a, b, order[i], Prev(order, i), Next(order, i))
    ensures Linked(b, RemoveAt(order, i), RanksWithout(rank, order[i], i, there))
  {
    var order2, rank2 := RemoveAt(order, i), RanksWithout(rank, order[i], i, there);
    assert rank[order[i]] == i;
    forall j | 0 <= j < |order2| ensures order2[j] < |b| && rank2[order2[j]] == j {
      assert order2[j] == order[if j < i then j else j + 1];
    }
    forall s | 0 <= s < |b| ensures rank2[s] < |order2| && (0 <= rank2[s] ==> order2[rank2[s]] == s) {
      if 0 <= rank[s] {
        assert order[rank[s]] == s;
      }
    }
    forall j {:trigger b[order2[j]]} | 0 <= j < |order2|
      ensures b[order2[j]].prev == Prev(order2, j) && b[order2[j]].next == Next(order2, j)
    {
      UnlinkedAt(a, order, rank, i, b, j);
    }
  }

  lemma Pushed<D(!new)>(a: seq<Frame<D>>, order: seq<nat>, rank: seq<int>, slot: nat, b: seq<Frame<D>>)
    requires Linked(a, order, rank) && slot < |a| == |b| && rank[slot] < 0
    requires b[slot].prev == Last(order) && b[slot].next == NIL
    requires forall s {:trigger b[s]} :: 0 <= s < |b| && s != slot ==>
      b[s].prev == a[s].prev && b[s].next == if s == Last(order) then slot else a[s].next
    ensures Linked(b, order + [slot], rank[slot := |order|])
  {
  }

  lemma AtEnd(order: seq<nat>, rank: seq<int>, i: nat)
    requires Ranked(|rank|, order, rank) && i < |order| && order[i] == Last(order)
    ensures RemoveAt(order, i) + [order[i]] == order
  {
    assert rank[order[i]] == i && rank[order[|order|-1]] == |order| - 1;
  }

  lemma EmptyState<D(!new)>(slab: seq<Frame<D>>, order: seq<nat>, rank: seq<int>, free: seq<nat>, index: map<U32, nat>)
    requires |slab| == |order| == |rank| == |free| == |index| == 0
    ensures Linked(slab, order, rank) && FreeStack(free, rank) && Indexed(slab, rank, index)
    ensures EntriesOf(slab, order, rank) == []
  {
  }

  /** Reordering the linked slots changes neither the free stack nor the index. */
  lemma Reordered<D(!new)>(a: seq<Frame<D>>, b: seq<Frame<D>>, free: seq<nat>, rank: seq<int>, rank2: seq<int>, index: map<U32, nat>)
    requires FreeStack(free, rank) && Indexed(a, rank, index) && SameContents(b, a)
    requires |rank2| == |rank|
    requires forall s {:trigger rank2[s]} :: 0 <= s < |rank| ==> if rank[s] < 0 then rank2[s] == rank[s] else 0 <= rank2[s]
    ensures FreeStack(free, rank2) && Indexed(b, rank2, index)
  {
  }

  lemma KeyRemoved(m: map<U32, nat>, p: U32)
    requires p in m
    ensures |m - {p}| == |m| - 1
  {
    assert m.Keys == (m - {p}).Keys + {p};
  }

  /** The slot at position `i` moves to the free stack, and its page leaves the index. */
  lemma Vacated<D(!new)>(a: seq<Frame<D>>, b: seq<Frame<D>>, order: seq<nat>, free: seq<nat>, rank: seq<int>,
                         index: map<U32, nat>, i: nat)
    requires Linked(a, order, rank) && i < |order| && SameContents(b, a)
    requires FreeStack(free, rank) && Indexed(a, rank, index) && |index| == |order|
    ensures var slot := order[i]; var rank2 := RanksWithout(rank, slot, i, -1 - |free|);
            && FreeStack(free + [slot], rank2)
            && Indexed(b, rank2, index - {a[slot].page})
            && |index - {a[slot].page}| == |order| - 1
  {
    var slot := order[i];
    var rank2, index2 := RanksWithout(rank, slot, i, -1 - |free|), index - {a[slot].page};
    assert rank[slot] == i;
    KeyRemoved(index, a[slot].page);
    forall s | 0 <= s < |b| && 0 <= rank2[s] ensures b[s].page in index2 && index2[b[s].page] == s {
      assert EntryOf(b[s]) == EntryOf(a[s]);
      assert rank2[s] == if rank[s] > i then rank[s] - 1 else rank[s];
      assert 0 <= rank[s];
    }
    forall p | p in index2 ensures 0 <= rank2[index2[p]] && b[index2[p]].page == p {
      assert EntryOf(b[index[p]]) == EntryOf(a[index[p]]);
      assert order[rank[index[p]]] == index[p];
    }
  }

  /** A slot taken from the top of the free stack holds a new page. */
  lemma Occupied<D(!new)>(a: seq<Frame<D>>, b: seq<Frame<D>>, free: seq<nat>, rank: seq<int>, index: map<U32, nat>,
                          slot: nat, at: nat, p: U32)
    requires slot < |a| == |b| && b[slot].page == p && p !in index
    requires forall s :: 0 <= s < |a| && s != slot ==> EntryOf(b[s]) == EntryOf(a[s])
    requires FreeStack(free + [slot], rank) && Indexed(a, rank, index)
    ensures FreeStack(free, rank[slot := at])
    ensures Indexed(b, rank[slot := at], index[p := slot])
    ensures |index[p := slot]| == |index| + 1
  {
    var rank2, index2 := rank[slot := at], index[p := slot];
    assert (free + [slot])[|free|] == slot;
    assert rank[slot] == -1 - |free|;
    assert index2.Keys == index.Keys + {p};
    forall j | 0 <= j < |free| ensures free[j] < |b| && rank2[free[j]] == -1 - j {
      assert free[j] == (free + [slot])[j];
    }
    forall s | 0 <= s < |b| && 0 <= rank2[s] ensures b[s].page in index2 && index2[b[s].page] == s {
      if s != slot {
        assert EntryOf(b[s]) == EntryOf(a[s]);
      }
    }
    forall q | q in index2 ensures 0 <= rank2[index2[q]] && b[index2[q]].page == q {
      if q != p {
        assert EntryOf(b[index[q]]) == EntryOf(a[index[q]]);
      }
    }
  }

  /** A frame appended to the slab behaves like a slot on the free stack. */
  lemma Grown<D(!new)>(a: seq<Frame<D>>, f: Frame<D>, order: seq<nat>, rank: seq<int>, index: map<U32, nat>)
    requires Linked(a, order, rank) && FreeStack([], rank) && Indexed(a, rank, index)
    ensures Linked(a + [f], order, rank + [-1])
    ensures FreeStack([|a|], rank + [-1])
    ensures Indexed(a + [f], rank + [-1], index)
    ensures EntriesOf(a + [f], order, rank + [-1]) == EntriesOf(a, order, rank)
  {
  }

  /** A page outside the index is not in the recency list. */
  lemma Missing<D(!new)>(slab: seq<Frame<D>>, order: seq<nat>, rank: seq<int>, index: map<U32, nat>, p: U32)
    requires Linked(slab, order, rank) && Indexed(slab, rank, index) && p !in index
    ensures Lookup(EntriesOf(slab, order, rank), p) == None && Without(EntriesOf(slab, order, rank), p) == EntriesOf(slab, order, rank)
  {
    forall i | 0 <= i < |order| ensures EntriesOf(slab, order, rank)[i].page != p {
      assert rank[order[i]] == i;
      assert slab[order[i]].page in index;
    }
    AbsentPage(EntriesOf(slab, order, rank), p);
  }

  /** An indexed page has exactly one entry, at the rank of its slot. */
  lemma Cached<D(!new)>(slab: seq<Frame<D>>, order: seq<nat>, rank: seq<int>, index: map<U32, nat>, p: U32)
    requires Linked(slab, order, rank) && Indexed(slab, rank, index) && p in index
    ensures index[p] < |slab| == |rank| && 0 <= rank[index[p]] < |order| && order[rank[index[p]]] == index[p]
    ensures var es := EntriesOf(slab, order, rank); var i := rank[index[p]];
      Lookup(es, p) == Some(es[i]) && es[i] == EntryOf(slab[index[p]]) && es[i].page == p && Without(es, p) == RemoveAt(es, i)
  {
    var es, i := EntriesOf(slab, order, rank), rank[index[p]];
    assert order[rank[index[p]]] == index[p];
    forall k | 0 <= k < |order| && k != i ensures es[k].page != p {
      assert rank[order[k]] == k;
      assert slab[order[k]].page in index && index[slab[order[k]].page] == order[k];
    }
    AtPosition(es, i);
  }

  /** A linked frame whose page stays the same is overwritten in place. */
  lemma Overwritten<D(!new)>(a: seq<Frame<D>>, order: seq<nat>, rank: seq<int>, index: map<U32, nat>, slot: nat, f: Frame<D>)
    requires Linked(a, order, rank) && Indexed(a, rank, index)
    requires slot < |a| && 0 <= rank[slot] < |order| && order[rank[slot]] == slot
    requires f.page == a[slot].page && f.prev == a[slot].prev && f.next == a[slot].next
    ensures Linked(a[slot := f], order, rank) && Indexed(a[slot := f], rank, index)
    ensures EntriesOf(a[slot := f], order, rank) == EntriesOf(a, order, rank)[rank[slot] := EntryOf(f)]
  {
  }

  /** Filling an unlinked frame disturbs no linked one. */
  lemma FrameFilled<D(!new)>(a: seq<Frame<D>>, order: seq<nat>, rank: seq<int>, slot: nat, f: Frame<D>)
    requires Linked(a, order, rank) && slot < |a| && rank[slot] < 0
    ensures Linked(a[slot := f], order, rank)
    ensures EntriesOf(a[slot := f], order, rank) == EntriesOf(a, order, rank)
  {
  }

  class PageCache<D(!new)> {
    const capacity: nat
    var slab: seq<Frame<D>>
    var free: seq<nat>
    var index: map<U32, nat>
    var lruHead: int
    var mruTail: int

    /** Slab indices from the least to the most recently used frame, and their inverse. */
    ghost var order: seq<nat>
    ghost var rank: seq<int>

    ghost predicate IsList()
      reads this
    {
      Linked(slab, order, rank) && lruHead == First(order) && mruTail == Last(order)
    }

    ghost predicate Valid()
      reads this
    {
      && 1 <= capacity
      && |slab| <= capacity
      && IsList()
      && FreeStack(free, rank)
      && Indexed(slab, rank, index)
      && |index| == |order| == |slab| - |free|
    }

    /** The recency list that the cache stands for. */
    ghost function Entries(): seq<Entry<D>>
      requires Valid()
      reads this
    {
      EntriesOf(slab, order, rank)
    }

    constructor (cap: nat)
      ensures Valid() && Entries() == []
      ensures capacity == if cap == 0 then 1 else cap
    {
      capacity := if cap == 0 then 1 else cap;
      slab, free, index := [], [], map[];
      lruHead, mruTail := NIL, NIL;
      order, rank := [], [];
    }

    method Unlink(slot: nat, ghost i: nat, ghost there: int)
      requires IsList() && i < |order| && order[i] == slot && there < 0
      modifies `slab, `lruHead, `mruTail, `order, `rank
      ensures IsList()
      ensures order == RemoveAt(old(order), i)
      ensures rank == RanksWithout(old(rank), slot, i, there)
      ensures SameContents(slab, old(slab))
    {
      var prev, next := slab[slot].prev, slab[slot].next;
      Neighbours(slab, order, rank, i);
      if prev == NIL {
        lruHead := next;
      } else {
        slab := slab[prev := slab[prev].(next := next)];
      }
      if next == NIL {
        mruTail := prev;
      } else {
        slab := slab[next := slab[next].(prev := prev)];
      }
      slab := slab[slot := slab[slot].(prev := NIL, next := NIL)];
      BypassSplices(old(slab), slot, prev, next);
      Unlinked(old(slab), order, rank, i, Bypass(old(slab), slot, prev, next), there);
      Ends(order, i);
      order, rank := RemoveAt(order, i), RanksWithout(rank, slot, i, there);
    }

    method PushMru(slot: nat)
      requires IsList() && slot < |slab| && rank[slot] < 0
      modifies `slab, `lruHead, `mruTail, `order, `rank
      ensures IsList()
      ensures order == old(order) + [slot]
      ensures rank == old(rank)[slot := |old(order)|]
      ensures SameContents(slab, old(slab))
    {
      slab := slab[slot := slab[slot].(prev := mruTail, next := NIL)];
      if mruTail == NIL {
        lruHead := slot;
      } else {
        var tail := mruTail;
        slab := slab[tail := slab[tail].(next := slot)];
      }
      Pushed(old(slab), order, rank, slot, slab);
      mruTail := slot;
      order, rank := order + [slot], rank[slot := |order|];
    }

    /** A hit makes its frame the last of the list. */
    method TouchSlot(slot: nat, ghost i: nat)
      requires Valid() && i < |order| && order[i] == slot
      modifies `slab, `lruHead, `mruTail, `order, `rank
      ensures Valid()
      ensures slot < |slab| && EntryOf(slab[slot]) == old(Entries()[i])
      ensures Entries() == old(RemoveAt(Entries(), i) + [Entries()[i]])
    {
      assert rank[slot] == i;
      if mruTail == slot {
        AtEnd(order, rank, i);
        EntriesMoved(slab, order, rank, i, slab, order, rank);
        return;
      }
      Unlink(slot, i, -1);
      PushMru(slot);
      Reordered(old(slab), slab, free, old(rank), rank, index);
      EntriesMoved(old(slab), old(order), old(rank), i, slab, order, rank);
    }

    /** Looks a page up; what is found counts as used. */
    method Get(p: U32) returns (r: Option<D>)
      requires Valid()
      modifies this
      ensures Valid() && Entries() == Touch(old(Entries()), p)
      ensures r == match Lookup(old(Entries()), p) case None => None case Some(e) => Some(e.data)
    {
      hide Linked, Indexed, FreeStack, Ranked, EntriesOf;
      if p !in index {
        Missing(slab, order, rank, index, p);
        return None;
      }
      Cached(slab, order, rank, index, p);
      var slot := index[p];
      TouchSlot(slot, rank[slot]);
      r := Some(slab[slot].data);
    }

    /** Unlinks a frame and pushes its slot on the free stack. */
    method Vacate(slot: nat, ghost i: nat)
      requires Valid() && i < |order| && order[i] == slot
      modifies this
      ensures Valid() && |order| == |old(order)| - 1
      ensures index == old(index) - {old(Entries()[i].page)}
      ensures slot < |slab| && EntryOf(slab[slot]) == old(Entries()[i])
      ensures Entries() == RemoveAt(old(Entries()), i)
    {
      hide Linked, Indexed, FreeStack, Ranked, EntriesOf, RanksWithout;
      VacatedFrame(slab, order, rank, i);
      ghost var a, order0, rank0, free0 := slab, order, rank, free;
      index := index - {slab[slot].page};
      Unlink(slot, i, -1 - |free|);
      free := free + [slot];
      Vacated(a, slab, order0, free0, rank0, old(index), i);
      EntriesMoved(a, order0, rank0, i, slab, order, rank);
      assert EntryOf(slab[slot]) == EntryOf(a[slot]);
    }

    /** Evicts the least recently used page, returned when it is dirty. */
    method EvictLru() returns (victim: Option<DirtyVictim<D>>)
      requires Valid()
      modifies this
      ensures Valid() && index.Keys <= old(index.Keys)
      ensures Entries() == if old(Entries()) == [] then [] else old(Entries())[1..]
      ensures victim == if old(Entries()) != [] && old(Entries())[0].dirty
                        then Some(DirtyVictim(old(Entries())[0].page, old(Entries())[0].data)) else None
    {
      hide Linked, Indexed, FreeStack, Ranked;
      var slot := lruHead;
      if slot == NIL {
        return None;
      }
      Vacate(slot, 0);
      var frame := slab[slot];
      assert RemoveAt(old(Entries()), 0) == old(Entries())[1..];
      if frame.dirty {
        return Some(DirtyVictim(frame.page, frame.data));
      }
      return None;
    }

    /** Drops the frame of a page; the caller knows that the page is durable. */
    method Remove(p: U32)
      requires Valid()
      modifies this
      ensures Valid() && Entries() == Without(old(Entries()), p)
    {
      hide Linked, Indexed, FreeStack, Ranked, EntriesOf;
      if p !in index {
        Missing(slab, order, rank, index, p);
        return;
      }
      Cached(slab, order, rank, index, p);
      var slot := index[p];
      Vacate(slot, rank[slot]);
    }

    /** Drops every frame. */
    method Clear()
      requires 1 <= capacity
      modifies this
      ensures Valid() && Entries() == []
    {
      hide Linked, Indexed, FreeStack, EntriesOf;
      slab, free, index := [], [], map[];
      lruHead, mruTail := NIL, NIL;
      order, rank := [], [];
      EmptyState(slab, order, rank, free, index);
    }

    /** Takes a slot from the free stack, growing the slab by one frame when the stack is empty. */
    method TakeSlot(frame: Frame<D>) returns (slot: nat)
      requires Valid() && |order| < capacity
      modifies `slab, `free, `rank
      ensures IsList() && |slab| <= capacity && slot < |slab| == |rank| && rank[slot] < 0
      ensures FreeStack(free + [slot], rank) && Indexed(slab, rank, index)
      ensures |order| == |slab| - |free| - 1
      ensures EntriesOf(slab, order, rank) == old(Entries())
    {
      if |free| > 0 {
        slot := free[|free|-1];
        assert free == free[..|free|-1] + [slot];
        assert rank[slot] < 0;
        free := free[..|free|-1];
      } else {
        slot := |slab|;
        Grown(slab, frame, order, rank, index);
        slab, rank := slab + [frame], rank + [-1];
      }
    }

    /** Links a frame for a page that is not cached. */
    method Insert(p: U32, data: D, dirty: bool)
      requires Valid() && p !in index && |order| < capacity
      modifies this
      ensures Valid() && Entries() == old(Entries()) + [Entry(p, data, dirty)]
    {
      hide Linked, Indexed, FreeStack, Ranked, EntriesOf;
      var frame := Frame(p, data, dirty, NIL, NIL);
      var slot := TakeSlot(frame);
      ghost var a, rank0, order0 := slab, rank, order;
      slab := slab[slot := frame];
      FrameFilled(a, order, rank, slot, frame);
      PushMru(slot);
      EntriesPushed(a[slot := frame], order0, rank0, slab, slot);
      Occupied(a, slab, free, rank0, index, slot, |order0|, p);
      index := index[p := slot];
    }

    /** Overwrites a cached page, which becomes the most recently used; a dirty page stays dirty. */
    method Update(p: U32, data: D, dirty: bool)
      requires Valid() && p in index
      modifies `slab, `lruHead, `mruTail, `order, `rank
      ensures Valid() && Entries() == Put(old(Entries()), capacity, p, data, dirty)
    {
      hide Linked, Indexed, FreeStack, Ranked, SameContents, EntriesOf;
      Cached(slab, order, rank, index, p);
      var slot := index[p];
      ghost var i := rank[slot];
      var frame := slab[slot].(data := data, dirty := slab[slot].dirty || dirty);
      Overwritten(slab, order, rank, index, slot, frame);
      slab := slab[slot := frame];
      UpdateAt(old(Entries()), i, EntryOf(frame));
      TouchSlot(slot, i);
    }

    /** Inserts or updates a page, evicting the least recently used one when the cache is full. */
    method PutPage(p: U32, data: D, dirty: bool) returns (victim: Option<DirtyVictim<D>>)
      requires Valid()
      modifies this
      ensures Valid() && Entries() == Put(old(Entries()), capacity, p, data, dirty)
      ensures victim == Evicted(old(Entries()), capacity, p)
    {
      hide Linked, Indexed, FreeStack, Ranked;
      victim := None;
      if p in index {
        Cached(slab, order, rank, index, p);
        Update(p, data, dirty);
        return;
      }
      Missing(slab, order, rank, index, p);
      if |index| >= capacity {
        victim := EvictLru();
      }
      Insert(p, data, dirty);
    }
  }
  // ---- The slab splits into the linked list and the free stack ----

  /** Every slot of the slab is either linked or free, and never both, and neither list repeats a slot. */
  lemma SlabIsSplit(n: nat, order: seq<nat>, free: seq<nat>, rank: seq<int>)
    requires Ranked(n, order, rank) && FreeStack(free, rank) && |order| + |free| == n
    ensures forall s :: 0 <= s < n ==> (s in order <==> s !in free)
    ensures forall i, j :: 0 <= i < j < |order| ==> order[i] != order[j]
    ensures forall i, j :: 0 <= i < j < |free| ==> free[i] != free[j]
  {
    var all := order + free;
    forall i, j | 0 <= i < j < n ensures all[i] != all[j] {
      assert rank[all[i]] == if i < |order| then i else -1 - (i - |order|);
      assert rank[all[j]] == if j < |order| then j else -1 - (j - |order|);
    }
    forall i, j | 0 <= i < j < |order| ensures order[i] != order[j] {
      assert all[i] == order[i] && all[j] == order[j];
    }
    forall i, j | 0 <= i < j < |free| ensures free[i] != free[j] {
      assert all[|order| + i] == free[i] && all[|order| + j] == free[j];
    }
    forall s | 0 <= s < n ensures s in order <==> s !in free {
      Pigeonhole(all, n, s);
      if s in free {
        var j :| 0 <= j < |free| && free[j] == s;
        assert forall i :: 0 <= i < |order| ==> rank[order[i]] != rank[free[j]];
      }
    }
  }

  /** `n` distinct numbers below `n` are all of them. */
  lemma {:induction false} Pigeonhole(all: seq<nat>, n: nat, s: nat)
    requires |all| == n && s < n
    requires forall i :: 0 <= i < n ==> all[i] < n
    requires forall i, j :: 0 <= i < j < n ==> all[i] != all[j]
    ensures s in all
  {
    if s !in all {
      var seen := Elements(all);
      DistinctSize(all);
      var room := UpTo(n);
      assert s in room;
      assert seen <= room - {s};
      SubsetSize(seen, room - {s});
    }
  }

  lemma {:induction false} DistinctSize(all: seq<nat>)
    requires forall i, j :: 0 <= i < j < |all| ==> all[i] != all[j]
    ensures |Elements(all)| == |all|
  {
    if all == [] {
      assert Elements(all) == {};
    } else {
      var k := |all| - 1;
      DistinctSize(all[..k]);
      assert Elements(all) == Elements(all[..k]) + {all[k]};
    }
  }

  ghost function UpTo(n: nat): (r: set<nat>)
    ensures |r| == n && forall x: nat :: x in r <==> x < n
  {
    if n == 0 then {} else UpTo(n - 1) + {n - 1}
  }

  lemma SubsetSize<T>(a: set<T>, b: set<T>)
    requires a <= b
    ensures |a| <= |b|
  {
    assert b == a + (b - a);
  }
}
