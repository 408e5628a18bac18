/**
 * The specification of the page cache: a list of pages ordered by recency, the least
 * recently used one first. `PageCache` implements these functions with a slab, a free
 * stack and an intrusive doubly linked list.
 */
module Lru {
  import opened Types

  datatype Entry<D(!new)> = Entry(page: U32, data: D, dirty: bool)

  /** A dirty page that left the cache and must be persisted by the caller. */
  datatype DirtyVictim<D(!new)> = DirtyVictim(page: U32, data: D)

  ghost predicate Distinct<D(!new)>(es: seq<Entry<D>>) {
    forall i, j :: 0 <= i < j < |es| ==> es[i].page != es[j].page
  }

  ghost predicate Absent<D(!new)>(es: seq<Entry<D>>, p: U32) {
    forall i :: 0 <= i < |es| ==> es[i].page != p
  }

  function Lookup<D(!new)>(es: seq<Entry<D>>, p: U32): Option<Entry<D>> {
    if es == [] then None
    else if es[0].page == p then Some(es[0])
    else Lookup(es[1..], p)
  }

  function Without<D(!new)>(es: seq<Entry<D>>, p: U32): seq<Entry<D>> {
    if es == [] then []
    else if es[0].page == p then Without(es[1..], p)
    else [es[0]] + Without(es[1..], p)
  }

  /** A cache hit moves the page to the most recently used end. */
  function Touch<D(!new)>(es: seq<Entry<D>>, p: U32): seq<Entry<D>> {
    match Lookup(es, p)
    case None => es
    case Some(e) => Without(es, p) + [e]
  }

  /** The list after an insertion or update of page `p`. */
  function Put<D(!new)>(es: seq<Entry<D>>, capacity: nat, p: U32, data: D, dirty: bool): seq<Entry<D>> {
    match Lookup(es, p)
    case Some(e) => Without(es, p) + [Entry(p, data, e.dirty || dirty)]
    case None => (if 0 < |es| && capacity <= |es| then es[1..] else es) + [Entry(p, data, dirty)]
  }

  /** The dirty page that the insertion of page `p` pushes out, if any. */
  function Evicted<D(!new)>(es: seq<Entry<D>>, capacity: nat, p: U32): Option<DirtyVictim<D>> {
    if Lookup(es, p).None? && 0 < |es| && capacity <= |es| && es[0].dirty
    then Some(DirtyVictim(es[0].page, es[0].data))
    else None
  }

  function RemoveAt<T>(s: seq<T>, k: nat): (r: seq<T>)
    requires k < |s|
    ensures |r| == |s| - 1
    ensures forall j :: 0 <= j < |r| ==> r[j] == s[if j < k then j else j + 1]
  {
    seq(|s| - 1, j requires 0 <= j < |s| - 1 => s[if j < k then j else j + 1])
  }

  // ---- Positions ----

  lemma {:induction false} AbsentPage<D(!new)>(es: seq<Entry<D>>, p: U32)
    requires Absent(es, p)
    ensures Without(es, p) == es && Lookup(es, p) == None
  {
    if es != [] {
      assert es[0].page != p;
      AbsentPage(es[1..], p);
    }
  }

  /** In a list of distinct pages, the operations on a page act on its position only. */
  lemma {:induction false} AtPosition<D(!new)>(es: seq<Entry<D>>, i: nat)
    requires i < |es|
    requires forall k :: 0 <= k < |es| && k != i ==> es[k].page != es[i].page
    ensures Lookup(es, es[i].page) == Some(es[i])
    ensures Without(es, es[i].page) == RemoveAt(es, i)
  {
    if i == 0 {
      AbsentPage(es[1..], es[0].page);
    } else {
      AtPosition(es[1..], i - 1);
      assert RemoveAt(es, i) == [es[0]] + RemoveAt(es[1..], i - 1);
    }
  }

  lemma {:induction false} LookupPosition<D(!new)>(es: seq<Entry<D>>, p: U32) returns (i: nat)
    ensures Lookup(es, p).Some? ==> i < |es| && es[i] == Lookup(es, p).value && es[i].page == p
    ensures Lookup(es, p).None? ==> Absent(es, p)
  {
    i := 0;
    if es != [] && es[0].page != p {
      i := LookupPosition(es[1..], p);
      assert Lookup(es, p) == Lookup(es[1..], p);
      i := i + 1;
    }
  }

  lemma WithoutDistinct<D(!new)>(es: seq<Entry<D>>, p: U32)
    requires Distinct(es)
    ensures Distinct(Without(es, p)) && Absent(Without(es, p), p) && |Without(es, p)| <= |es|
  {
    var i := LookupPosition(es, p);
    if Lookup(es, p).None? {
      AbsentPage(es, p);
    } else {
      AtPosition(es, i);
    }
  }

  lemma PutDistinct<D(!new)>(es: seq<Entry<D>>, capacity: nat, p: U32, data: D, dirty: bool)
    requires Distinct(es)
    ensures Distinct(Put(es, capacity, p, data, dirty)) && Distinct(Touch(es, p))
  {
    WithoutDistinct(es, p);
    var i := LookupPosition(es, p);
    hide Without, Lookup, Distinct, Absent;
    match Lookup(es, p)
    case Some(e) =>
      MoreDistinct(Without(es, p), Entry(p, data, e.dirty || dirty));
      MoreDistinct(Without(es, p), e);
    case None =>
      TailDistinct(es, p);
      MoreDistinct(if 0 < |es| && capacity <= |es| then es[1..] else es, Entry(p, data, dirty));
  }

  lemma MoreDistinct<D(!new)>(es: seq<Entry<D>>, e: Entry<D>)
    requires Distinct(es) && Absent(es, e.page)
    ensures Distinct(es + [e])
  {
  }

  lemma TailDistinct<D(!new)>(es: seq<Entry<D>>, p: U32)
    requires Distinct(es) && Absent(es, p)
    ensures es != [] ==> Distinct(es[1..]) && Absent(es[1..], p)
  {
  }

  // ---- What a list of recently used pages means ----

  ghost function Pages<D(!new)>(es: seq<Entry<D>>): (ps: seq<U32>)
    ensures |ps| == |es| && forall i {:trigger ps[i]} :: 0 <= i < |es| ==> ps[i] == es[i].page
  {
    seq(|es|, i requires 0 <= i < |es| => es[i].page)
  }

  /** The pages of a trace in the order of their last occurrences. */
  ghost function Recency(trace: seq<U32>): seq<U32> {
    if trace == [] then []
    else if trace[0] in trace[1..] then Recency(trace[1..])
    else [trace[0]] + Recency(trace[1..])
  }

  ghost function Elements<T(!new)>(s: seq<T>): set<T> {
    set x | x in s
  }

  ghost function LastN<T>(s: seq<T>, n: nat): seq<T> {
    if |s| <= n then s else s[|s|-n..]
  }

  ghost function Dropped(ps: seq<U32>, p: U32): seq<U32> {
    if ps == [] then []
    else if ps[0] == p then Dropped(ps[1..], p)
    else [ps[0]] + Dropped(ps[1..], p)
  }

  /** A use of a page by the storage layer: a read loads the page when it is not cached. */
  datatype Use<D(!new)> = Use(page: U32, data: D, write: bool)

  ghost function AfterUse<D(!new)>(es: seq<Entry<D>>, capacity: nat, u: Use<D>): seq<Entry<D>> {
    if !u.write && Lookup(es, u.page).Some? then Touch(es, u.page)
    else Put(es, capacity, u.page, u.data, false)
  }

  ghost function AfterUses<D(!new)>(capacity: nat, us: seq<Use<D>>): seq<Entry<D>> {
    if us == [] then []
    else AfterUse(AfterUses(capacity, us[..|us|-1]), capacity, us[|us|-1])
  }

  ghost function UsedPages<D(!new)>(us: seq<Use<D>>): (ps: seq<U32>)
    ensures |ps| == |us| && forall i {:trigger ps[i]} :: 0 <= i < |us| ==> ps[i] == us[i].page
  {
    seq(|us|, i requires 0 <= i < |us| => us[i].page)
  }

  lemma {:induction false} DroppedAbsent(ps: seq<U32>, p: U32)
    requires p !in ps
    ensures Dropped(ps, p) == ps
  {
    if ps != [] {
      DroppedAbsent(ps[1..], p);
    }
  }

  lemma {:induction false} DroppedAt(ps: seq<U32>, i: nat)
    requires i < |ps| && ps[i] !in ps[..i] && ps[i] !in ps[i+1..]
    ensures Dropped(ps, ps[i]) == RemoveAt(ps, i)
  {
    if i == 0 {
      DroppedAbsent(ps[1..], ps[0]);
      assert RemoveAt(ps, 0) == ps[1..];
    } else {
      assert ps[1..][..i-1] == ps[..i][1..];
      assert ps[1..][i..] == ps[i+1..];
      assert ps[0] == ps[..i][0];
      DroppedAt(ps[1..], i - 1);
      assert RemoveAt(ps, i) == [ps[0]] + RemoveAt(ps[1..], i - 1);
    }
  }

  /** A page occurs once in the recency order, if it was used at all. */
  lemma {:induction false} RecencyMembers(trace: seq<U32>, p: U32)
    ensures p in Recency(trace) <==> p in trace
    ensures |Recency(trace)| == |Elements(trace)|
  {
    if trace == [] {
      assert Elements(trace) == {};
    } else {
      RecencyMembers(trace[1..], p);
      assert trace == [trace[0]] + trace[1..];
      assert Elements(trace) == Elements(trace[1..]) + {trace[0]};
    }
  }

  lemma {:induction false} RecencyAt(trace: seq<U32>, p: U32) returns (i: nat)
    requires p in trace
    ensures i < |Recency(trace)| && Recency(trace)[i] == p
    ensures p !in Recency(trace)[..i] && p !in Recency(trace)[i+1..]
  {
    var rest := Recency(trace[1..]);
    RecencyMembers(trace[1..], trace[0]);
    if p in trace[1..] {
      i := RecencyAt(trace[1..], p);
      if trace[0] !in trace[1..] {
        assert ([trace[0]] + rest)[..i+1] == [trace[0]] + rest[..i];
        assert ([trace[0]] + rest)[i+2..] == rest[i+1..];
        i := i + 1;
      }
    } else {
      assert p == trace[0];
      assert ([p] + rest)[1..] == rest;
      i := 0;
    }
  }

  lemma {:induction false} RecencyAppend(trace: seq<U32>, p: U32)
    ensures Recency(trace + [p]) == Dropped(Recency(trace), p) + [p]
  {
    if trace == [] {
      assert ([] + [p])[1..] == [];
    } else {
      var t, rest := trace[0], Recency(trace[1..]);
      RecencyAppend(trace[1..], p);
      assert (trace + [p])[0] == t && (trace + [p])[1..] == trace[1..] + [p];
      if t !in trace[1..] {
        assert ([t] + rest)[1..] == rest;
        assert Dropped([t] + rest, p) == if t == p then Dropped(rest, p) else [t] + Dropped(rest, p);
        assert t in trace[1..] + [p] <==> t == p;
      } else {
        assert t in trace[1..] + [p];
      }
    }
  }

  lemma UseMiss<D(!new)>(es: seq<Entry<D>>, capacity: nat, u: Use<D>)
    requires 1 <= capacity && |es| <= capacity && Lookup(es, u.page).None?
    ensures |AfterUse(es, capacity, u)| <= capacity
    ensures Pages(AfterUse(es, capacity, u)) == LastN(Dropped(Pages(es), u.page) + [u.page], capacity)
  {
    var i := LookupPosition(es, u.page);
    var ps, after := Pages(es), AfterUse(es, capacity, u);
    DroppedAbsent(ps, u.page);
    hide Dropped, Without, Lookup;
    if |es| == capacity {
      assert Pages(after) == ps[1..] + [u.page] == (ps + [u.page])[1..];
    } else {
      assert Pages(after) == ps + [u.page];
    }
  }

  lemma UseHit<D(!new)>(es: seq<Entry<D>>, capacity: nat, u: Use<D>)
    requires Distinct(es) && |es| <= capacity && Lookup(es, u.page).Some?
    ensures |AfterUse(es, capacity, u)| <= capacity
    ensures Pages(AfterUse(es, capacity, u)) == LastN(Dropped(Pages(es), u.page) + [u.page], capacity)
  {
    var i := LookupPosition(es, u.page);
    var ps, after := Pages(es), AfterUse(es, capacity, u);
    AtPosition(es, i);
    assert ps[i] !in ps[..i] && ps[i] !in ps[i+1..];
    DroppedAt(ps, i);
    hide Dropped, Without, Lookup;
    assert Pages(after) == RemoveAt(ps, i) + [u.page];
  }

  /** One use of a page drops it from its old place and puts it last, within the capacity. */
  lemma UsePages<D(!new)>(es: seq<Entry<D>>, capacity: nat, u: Use<D>)
    requires Distinct(es) && 1 <= capacity && |es| <= capacity
    ensures Distinct(AfterUse(es, capacity, u)) && |AfterUse(es, capacity, u)| <= capacity
    ensures Pages(AfterUse(es, capacity, u)) == LastN(Dropped(Pages(es), u.page) + [u.page], capacity)
  {
    PutDistinct(es, capacity, u.page, u.data, false);
    if Lookup(es, u.page).None? {
      UseMiss(es, capacity, u);
    } else {
      UseHit(es, capacity, u);
    }
  }

  lemma TailDropped(ps: seq<U32>, d: nat, i: nat)
    requires d <= i < |ps| && ps[i] !in ps[..i] && ps[i] !in ps[i+1..]
    ensures Dropped(ps[d..], ps[i]) == RemoveAt(ps[d..], i - d)
    ensures RemoveAt(ps[d..], i - d) == RemoveAt(ps, i)[d..]
  {
    assert ps[d..][..i-d] == ps[..i][d..] && ps[d..][i-d+1..] == ps[i+1..];
    DroppedAt(ps[d..], i - d);
  }

  lemma UseOutsideTail(ps: seq<U32>, capacity: nat, i: nat)
    requires 1 <= capacity < |ps| && i < |ps| - capacity
    ensures LastN(ps[|ps|-capacity..] + [ps[i]], capacity) == LastN(RemoveAt(ps, i) + [ps[i]], capacity)
  {
    var d := |ps| - capacity;
    assert LastN(ps[d..] + [ps[i]], capacity) == ps[d+1..] + [ps[i]];
    assert RemoveAt(ps, i)[d..] == ps[d+1..];
    assert (RemoveAt(ps, i) + [ps[i]])[|ps|-capacity..] == RemoveAt(ps, i)[d..] + [ps[i]];
  }

  lemma UseInsideTail(ps: seq<U32>, capacity: nat, d: nat, i: nat)
    requires |ps| - d == if |ps| <= capacity then |ps| else capacity
    requires d <= i < |ps| && ps[i] !in ps[..i] && ps[i] !in ps[i+1..]
    ensures LastN(Dropped(ps[d..], ps[i]) + [ps[i]], capacity) == LastN(RemoveAt(ps, i) + [ps[i]], capacity)
  {
    TailDropped(ps, d, i);
    hide Dropped;
    var rest := RemoveAt(ps, i);
    assert (rest + [ps[i]])[d..] == rest[d..] + [ps[i]];
  }

  lemma UseNewPage(ps: seq<U32>, capacity: nat, d: nat, p: U32)
    requires 1 <= capacity && d <= |ps|
    requires |ps| - d == if |ps| <= capacity then |ps| else capacity
    ensures LastN(ps, capacity) == ps[d..]
    ensures LastN(ps[d..] + [p], capacity) == LastN(ps + [p], capacity)
  {
  }

  /** Truncating to the capacity before or after a use is the same. */
  lemma LastNAfterUse(ps: seq<U32>, capacity: nat, p: U32, i: nat)
    requires 1 <= capacity
    requires p in ps ==> i < |ps| && ps[i] == p && p !in ps[..i] && p !in ps[i+1..]
    ensures LastN(Dropped(LastN(ps, capacity), p) + [p], capacity) == LastN(Dropped(ps, p) + [p], capacity)
  {
    hide LastN, Dropped, RemoveAt;
    var d := if |ps| <= capacity then 0 else |ps| - capacity;
    UseNewPage(ps, capacity, d, p);
    if p !in ps {
      DroppedAbsent(ps, p);
      DroppedAbsent(ps[d..], p);
    } else {
      DroppedAt(ps, i);
      if i < d {
        assert ps[d..] == ps[i+1..][d-i-1..];
        DroppedAbsent(ps[d..], p);
        UseOutsideTail(ps, capacity, i);
      } else {
        UseInsideTail(ps, capacity, d, i);
      }
    }
  }

  /** Whatever was read and written, the cache holds the most recently used distinct pages, in order. */
  lemma {:induction false} HoldsMostRecentlyUsed<D(!new)>(capacity: nat, us: seq<Use<D>>)
    requires 1 <= capacity
    ensures Pages(AfterUses(capacity, us)) == LastN(Recency(UsedPages(us)), capacity)
    ensures Distinct(AfterUses(capacity, us)) && |AfterUses(capacity, us)| <= capacity
  {
    if us != [] {
      var n := |us| - 1;
      var p, ps := us[n].page, Recency(UsedPages(us[..n]));
      HoldsMostRecentlyUsed(capacity, us[..n]);
      UsePages(AfterUses(capacity, us[..n]), capacity, us[n]);
      assert UsedPages(us) == UsedPages(us[..n]) + [p];
      RecencyAppend(UsedPages(us[..n]), p);
      RecencyMembers(UsedPages(us[..n]), p);
      var i := 0;
      if p in UsedPages(us[..n]) {
        i := RecencyAt(UsedPages(us[..n]), p);
      }
      LastNAfterUse(ps, capacity, p, i);
    }
  }

  lemma {:induction false} RecencySuffix(before: seq<U32>, p: U32, after: seq<U32>) returns (older: seq<U32>)
    requires p !in after
    ensures Recency(before + [p] + after) == older + [p] + Recency(after)
  {
    var trace := before + [p] + after;
    if before == [] {
      assert trace[1..] == after;
      older := [];
    } else {
      older := RecencySuffix(before[1..], p, after);
      assert trace[1..] == before[1..] + [p] + after;
      if trace[0] !in trace[1..] {
        assert [trace[0]] + (older + [p] + Recency(after)) == [trace[0]] + older + [p] + Recency(after);
        older := [trace[0]] + older;
      }
    }
  }

  /** A page stays cached exactly until `capacity` other pages have been used since its last use. */
  lemma CachedIffRecentlyUsed<D(!new)>(capacity: nat, before: seq<Use<D>>, u: Use<D>, after: seq<Use<D>>)
    requires 1 <= capacity
    requires forall i :: 0 <= i < |after| ==> after[i].page != u.page
    ensures u.page in Pages(AfterUses(capacity, before + [u] + after)) <==>
            |Elements(UsedPages(after))| < capacity
  {
    hide Recency, UsedPages, AfterUses, Elements;
    var us, newer := before + [u] + after, Recency(UsedPages(after));
    HoldsMostRecentlyUsed(capacity, us);
    UsedAround(before, u, after);
    var older := RecencySuffix(UsedPages(before), u.page, UsedPages(after));
    RecencyMembers(UsedPages(after), u.page);
    InLastIff(older, u.page, newer, capacity);
  }

  lemma UsedAround<D(!new)>(before: seq<Use<D>>, u: Use<D>, after: seq<Use<D>>)
    ensures UsedPages(before + [u] + after) == UsedPages(before) + [u.page] + UsedPages(after)
    ensures (forall i :: 0 <= i < |after| ==> after[i].page != u.page) ==> u.page !in UsedPages(after)
  {
  }

  lemma InLastIff(older: seq<U32>, p: U32, newer: seq<U32>, n: nat)
    requires p !in newer
    ensures p in LastN(older + [p] + newer, n) <==> |newer| < n
  {
    var ps := older + [p] + newer;
    var shown := LastN(ps, n);
    if |newer| < n {
      assert shown[|older| - (|ps| - |shown|)] == ps[|older|] == p;
    } else {
      assert shown == newer[|newer|-n..];
    }
  }

  // ---- Dirty pages ----

  datatype CacheOp<D(!new)> =
    | GetOp(page: U32)
    | PutOp(page: U32, data: D, dirty: bool)
    | RemoveOp(page: U32)
    | ClearOp

  ghost function CacheStep<D(!new)>(es: seq<Entry<D>>, capacity: nat, op: CacheOp<D>): seq<Entry<D>> {
    match op
    case GetOp(p) => Touch(es, p)
    case PutOp(p, d, dirty) => Put(es, capacity, p, d, dirty)
    case RemoveOp(p) => Without(es, p)
    case ClearOp => []
  }

  /** The latest bytes of the pages that were put dirty and that the caller has neither taken back
      as a victim nor dropped itself. */
  ghost function OwedStep<D(!new)>(owed: map<U32, D>, op: CacheOp<D>, victim: Option<DirtyVictim<D>>): map<U32, D> {
    match op
    case GetOp(_) => owed
    case PutOp(p, d, dirty) =>
      var kept := if victim.Some? then owed - {victim.value.page} else owed;
      if dirty || p in owed then kept[p := d] else kept
    case RemoveOp(p) => owed - {p}
    case ClearOp => map[]
  }

  /** The dirty entries are exactly the owed pages, with their latest bytes. */
  ghost predicate HoldsOwed<D(!new)>(es: seq<Entry<D>>, owed: map<U32, D>) {
    forall p :: match Lookup(es, p)
                case None => p !in owed
                case Some(e) => if e.dirty then p in owed && owed[p] == e.data else p !in owed
  }

  ghost function VictimOf<D(!new)>(es: seq<Entry<D>>, capacity: nat, op: CacheOp<D>): Option<DirtyVictim<D>> {
    if op.PutOp? then Evicted(es, capacity, op.page) else None
  }

  lemma {:induction false} LookupWithout<D(!new)>(es: seq<Entry<D>>, p: U32, q: U32)
    ensures Lookup(Without(es, p), q) == if p == q then None else Lookup(es, q)
  {
    if es != [] {
      LookupWithout(es[1..], p, q);
      assert es[0].page != p ==> ([es[0]] + Without(es[1..], p))[1..] == Without(es[1..], p);
    }
  }

  lemma {:induction false} LookupAppend<D(!new)>(es: seq<Entry<D>>, e: Entry<D>, q: U32)
    ensures Lookup(es + [e], q) == if Lookup(es, q).Some? then Lookup(es, q) else if e.page == q then Some(e) else None
  {
    if es == [] {
      assert ([] + [e])[1..] == [];
    } else {
      LookupAppend(es[1..], e, q);
      assert (es + [e])[1..] == es[1..] + [e];
    }
  }

  /** The list after an insertion, page by page. */
  lemma LookupPut<D(!new)>(es: seq<Entry<D>>, capacity: nat, p: U32, data: D, dirty: bool, q: U32)
    requires Distinct(es)
    ensures Lookup(Put(es, capacity, p, data, dirty), q) ==
      if q == p then Some(Entry(p, data, dirty || (Lookup(es, p).Some? && Lookup(es, p).value.dirty)))
      else if Lookup(es, p).None? && 0 < |es| && capacity <= |es| && q == es[0].page then None
      else Lookup(es, q)
  {
    match Lookup(es, p)
    case Some(e) =>
      LookupWithout(es, p, q);
      LookupAppend(Without(es, p), Entry(p, data, e.dirty || dirty), q);
    case None =>
      LookupAppend(es, Entry(p, data, dirty), q);
      if 0 < |es| && capacity <= |es| {
        AbsentPage(es[1..], es[0].page);
        LookupAppend(es[1..], Entry(p, data, dirty), q);
      }
  }

  /** No dirty page is lost: each step keeps the dirty entries equal to the owed pages, and a victim
      carries the latest bytes of an owed page. */
  lemma DirtyPagesKept<D(!new)>(es: seq<Entry<D>>, capacity: nat, owed: map<U32, D>, op: CacheOp<D>)
    requires Distinct(es) && HoldsOwed(es, owed)
    ensures var victim := VictimOf(es, capacity, op);
      && HoldsOwed(CacheStep(es, capacity, op), OwedStep(owed, op, victim))
      && (victim.Some? ==> victim.value.page in owed && owed[victim.value.page] == victim.value.data)
  {
    var after, victim := CacheStep(es, capacity, op), VictimOf(es, capacity, op);
    var owed2 := OwedStep(owed, op, victim);
    if victim.Some? {
      assert Lookup(es, es[0].page) == Some(es[0]);
    }
    forall q ensures match Lookup(after, q)
                     case None => q !in owed2
                     case Some(e) => if e.dirty then q in owed2 && owed2[q] == e.data else q !in owed2
    {
      match op
      case PutOp(p, d, dirty) =>
        LookupPut(es, capacity, p, d, dirty, q);
      case GetOp(p) =>
        LookupWithout(es, p, q);
        if Lookup(es, p).Some? {
          LookupAppend(Without(es, p), Lookup(es, p).value, q);
          var i := LookupPosition(es, p);
        }
      case RemoveOp(p) => LookupWithout(es, p, q);
      case ClearOp =>
    }
  }

  // ---- Whole runs ----

  lemma StepKeepsDistinct<D(!new)>(es: seq<Entry<D>>, capacity: nat, op: CacheOp<D>)
    requires Distinct(es)
    ensures Distinct(CacheStep(es, capacity, op))
  {
    match op
    case GetOp(p) =>
      if Lookup(es, p).Some? {
        PutDistinct(es, capacity, p, Lookup(es, p).value.data, false);
      }
    case PutOp(p, d, dirty) => PutDistinct(es, capacity, p, d, dirty);
    case RemoveOp(p) => WithoutDistinct(es, p);
    case ClearOp =>
  }

  /** The list after a run from the empty cache, and what is owed then. */
  ghost function CacheRun<D(!new)>(capacity: nat, ops: seq<CacheOp<D>>): seq<Entry<D>> {
    if ops == [] then [] else CacheStep(CacheRun(capacity, ops[..|ops|-1]), capacity, ops[|ops|-1])
  }

  ghost function OwedRun<D(!new)>(capacity: nat, ops: seq<CacheOp<D>>): map<U32, D> {
    if ops == [] then map[]
    else
      var n := |ops| - 1;
      OwedStep(OwedRun(capacity, ops[..n]), ops[n], VictimOf(CacheRun(capacity, ops[..n]), capacity, ops[n]))
  }

  /** Along any run the dirty entries are the owed pages, with their latest bytes. */
  lemma {:induction false} DirtyPagesAreOwed<D(!new)>(capacity: nat, ops: seq<CacheOp<D>>)
    ensures Distinct(CacheRun(capacity, ops)) && HoldsOwed(CacheRun(capacity, ops), OwedRun(capacity, ops))
  {
    if ops != [] {
      var n := |ops| - 1;
      var before := CacheRun(capacity, ops[..n]);
      DirtyPagesAreOwed(capacity, ops[..n]);
      StepKeepsDistinct(before, capacity, ops[n]);
      DirtyPagesKept(before, capacity, OwedRun(capacity, ops[..n]), ops[n]);
    }
  }

  /** The step writes the page, or drops it at the caller's request. */
  predicate Touches<D(!new)>(op: CacheOp<D>, p: U32) {
    op.ClearOp? || ((op.PutOp? || op.RemoveOp?) && op.page == p)
  }

  /** Step `v` of the run hands the page out as a victim. */
  ghost predicate HandsOut<D(!new)>(capacity: nat, ops: seq<CacheOp<D>>, v: nat, p: U32, data: D) {
    v < |ops| && VictimOf(CacheRun(capacity, ops[..v]), capacity, ops[v]) == Some(DirtyVictim(p, data))
  }

  /** No unsaved write is lost: until the caller writes the page again or drops it, what was put dirty is
      in the cache with its bytes, or was handed out as a victim with them. */
  lemma {:induction false} UnsavedWriteKept<D(!new)>(capacity: nat, ops: seq<CacheOp<D>>, w: nat)
    requires w < |ops| && ops[w].PutOp? && ops[w].dirty
    requires forall i :: w < i < |ops| ==> !Touches(ops[i], ops[w].page)
    ensures Lookup(CacheRun(capacity, ops), ops[w].page) == Some(Entry(ops[w].page, ops[w].data, true))
            || exists v :: w < v < |ops| && HandsOut(capacity, ops, v, ops[w].page, ops[w].data)
  {
    var n := |ops| - 1;
    var p, before := ops[w].page, CacheRun(capacity, ops[..n]);
    DirtyPagesAreOwed(capacity, ops[..n]);
    if w == n {
      LookupPut(before, capacity, p, ops[w].data, true, p);
    } else {
      UnsavedWriteKept(capacity, ops[..n], w);
      if v :| w < v < n && HandsOut(capacity, ops[..n], v, p, ops[w].data) {
        assert ops[..n][..v] == ops[..v];
        assert HandsOut(capacity, ops, v, p, ops[w].data);
      } else {
        StepLeaves(before, capacity, ops[n], p);
        assert Evicts(before, capacity, ops[n], p) ==> HandsOut(capacity, ops, n, p, ops[w].data);
      }
    }
  }

  ghost predicate Evicts<D(!new)>(es: seq<Entry<D>>, capacity: nat, op: CacheOp<D>, p: U32) {
    && Lookup(es, p).Some? && Lookup(es, p).value.dirty
    && VictimOf(es, capacity, op) == Some(DirtyVictim(p, Lookup(es, p).value.data))
  }

  /** A step that does not touch a dirty page leaves its entry, or hands it out. */
  lemma StepLeaves<D(!new)>(es: seq<Entry<D>>, capacity: nat, op: CacheOp<D>, p: U32)
    requires Distinct(es) && !Touches(op, p) && Lookup(es, p).Some? && Lookup(es, p).value.dirty
    ensures Lookup(CacheStep(es, capacity, op), p) == Lookup(es, p) || Evicts(es, capacity, op, p)
  {
    var i := LookupPosition(es, p);
    match op
    case GetOp(q) =>
      LookupWithout(es, q, p);
      var j := LookupPosition(es, q);
      if Lookup(es, q).Some? {
        LookupAppend(Without(es, q), Lookup(es, q).value, p);
      }
    case PutOp(q, d, dirty) => LookupPut(es, capacity, q, d, dirty, p);
    case RemoveOp(q) => LookupWithout(es, q, p);
  }
}
