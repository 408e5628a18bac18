/**
 * Rewriting the records of a type one after another, as the schema changes of
 * chiffondb-core/src/db.rs do: the records already rewritten have their new views and have exchanged some
 * of their index entries, the others are as they were.
 */
module Rewriting {
  import opened Types
  import opened Convert
  import opened Records
  import opened Indexing

  /** What becomes of the records: their new views, and the entries that go and that come. */
  datatype Plan = Plan(target: map<Id, View>, gone: map<Id, set<Entry>>, more: map<Id, set<Entry>>)

  /** Only properties change, and every record has its own entries. */
  ghost predicate IsPlan(plan: Plan, views: map<Id, View>) {
    && plan.target.Keys == plan.gone.Keys == plan.more.Keys == views.Keys
    && (forall n :: n in views ==> plan.target[n].typeId == views[n].typeId && plan.target[n].labels == views[n].labels)
    && forall n :: n in views ==> AllOf(plan.gone[n], n) && AllOf(plan.more[n], n)
  }

  ghost predicate AllOf(entries: set<Entry>, id: Id) {
    forall e :: e in entries ==> e.id == id
  }

  /** The index once the records in `done` have exchanged their entries. */
  ghost predicate Exchanged(plan: Plan, done: set<Id>, index0: set<Entry>, index: set<Entry>) {
    forall e: Entry :: e in index <==>
      if e.id in done && e.id in plan.gone && e.id in plan.more
      then (e in index0 && e !in plan.gone[e.id]) || e in plan.more[e.id]
      else e in index0
  }

  /** The records in `done` are rewritten, the others not. */
  ghost predicate Partly(plan: Plan, views0: map<Id, View>, index0: set<Entry>, done: set<Id>, views: map<Id, View>, index: set<Entry>) {
    && views.Keys == views0.Keys
    && (forall n :: n in views && n in plan.target ==> views[n] == if n in done then plan.target[n] else views0[n])
    && Exchanged(plan, done, index0, index)
  }

  lemma PartlyBegins(plan: Plan, views: map<Id, View>, index: set<Entry>)
    ensures Partly(plan, views, index, {}, views, index)
  {
  }

  /** One record is rewritten; where nothing is to change, nothing does. */
  lemma PartlyNext(plan: Plan, views0: map<Id, View>, index0: set<Entry>, done: set<Id>, views: map<Id, View>, index: set<Entry>, id: Id)
    requires IsPlan(plan, views0) && Partly(plan, views0, index0, done, views, index) && id in views && id !in done
    ensures views[id] == views0[id]
    ensures Partly(plan, views0, index0, done + {id}, views[id := plan.target[id]], index - plan.gone[id] + plan.more[id])
    ensures plan.gone[id] == plan.more[id] == {} && plan.target[id] == views0[id] ==>
      Partly(plan, views0, index0, done + {id}, views, index)
  {
    ExchangedNext(plan, done, index0, index, id);
    hide Exchanged;
    if plan.gone[id] == plan.more[id] == {} && plan.target[id] == views0[id] {
      assert index - plan.gone[id] + plan.more[id] == index && views[id := plan.target[id]] == views;
    }
  }

  lemma ExchangedNext(plan: Plan, done: set<Id>, index0: set<Entry>, index: set<Entry>, id: Id)
    requires id in plan.gone && id in plan.more && id !in done && Exchanged(plan, done, index0, index)
    requires AllOf(plan.gone[id], id) && AllOf(plan.more[id], id)
    ensures Exchanged(plan, done + {id}, index0, index - plan.gone[id] + plan.more[id])
  {
  }

  /** The records left out are those that do not change. */
  lemma PartlyEnds(plan: Plan, views0: map<Id, View>, index0: set<Entry>, done: set<Id>, views: map<Id, View>, index: set<Entry>)
    requires IsPlan(plan, views0) && Partly(plan, views0, index0, done, views, index)
    requires forall n :: n in views0 && n !in done ==> plan.target[n] == views0[n] && plan.gone[n] == plan.more[n] == {}
    ensures views == plan.target && Exchanged(plan, views0.Keys, index0, index)
  {
  }

  lemma PartlyKeeps(plan: Plan, views0: map<Id, View>, index0: set<Entry>, done: set<Id>, views: map<Id, View>, index: set<Entry>)
    requires IsPlan(plan, views0) && Partly(plan, views0, index0, done, views, index)
    ensures views.Keys == views0.Keys
    ensures forall n :: n in views ==> views[n].typeId == views0[n].typeId && (n !in done ==> views[n] == views0[n])
  {
  }

  /** The index is the given sets of entries, one for every id. */
  ghost predicate MadeOf(index: set<Entry>, sets: map<Id, set<Entry>>) {
    forall e: Entry :: e in index <==> e.id in sets && e in sets[e.id]
  }

  lemma SameSets(index: set<Entry>, sets: map<Id, set<Entry>>, sets2: map<Id, set<Entry>>)
    requires sets.Keys == sets2.Keys && MadeOf(index, sets)
    requires forall n :: n in sets ==> AllOf(sets[n], n) && AllOf(sets2[n], n)
    ensures MadeOf(index, sets2) <==> forall n :: n in sets ==> sets2[n] == sets[n]
  {
    if MadeOf(index, sets2) {
      forall n | n in sets ensures sets2[n] == sets[n] {
      }
    }
  }

  function EntrySets(hash: Hash, fields: Fields, views: map<Id, View>): (r: map<Id, set<Entry>>)
    ensures forall n :: n in r ==> AllOf(r[n], n)
  {
    map n | n in views ::
      EntriesHaveId(hash, FieldsOf(fields, views[n].typeId), views[n].typeId, views[n].props, n);
      EntriesOfView(hash, fields, views[n], n)
  }

  function ExchangedSets(sets: map<Id, set<Entry>>, plan: Plan): map<Id, set<Entry>> {
    map n | n in sets && n in plan.gone && n in plan.more :: sets[n] - plan.gone[n] + plan.more[n]
  }

  /** If the index was right for the old fields, it is right for the new ones exactly when every record
      has exchanged the right entries. */
  lemma ExchangeFitsIff(hash: Hash, fields: Fields, fields2: Fields, plan: Plan, views: map<Id, View>, index0: set<Entry>, index: set<Entry>)
    requires IsPlan(plan, views) && Exchanged(plan, views.Keys, index0, index) && IndexOk(hash, fields, views, index0)
    ensures IndexOk(hash, fields2, plan.target, index) <==> forall n :: n in views ==>
      EntriesOfView(hash, fields2, plan.target[n], n) == EntriesOfView(hash, fields, views[n], n) - plan.gone[n] + plan.more[n]
  {
    hide EntriesOfView, IndexOk, MadeOf, Exchanged, AllOf;
    IndexIsMadeOf(hash, fields, views, index0);
    IndexIsMadeOf(hash, fields2, plan.target, index);
    var sets, sets2 := EntrySets(hash, fields, views), EntrySets(hash, fields2, plan.target);
    ExchangeHolds(plan, sets, index0, index);
    SameSets(index, ExchangedSets(sets, plan), sets2);
  }

  lemma IndexIsMadeOf(hash: Hash, fields: Fields, views: map<Id, View>, index: set<Entry>)
    ensures IndexOk(hash, fields, views, index) <==> MadeOf(index, EntrySets(hash, fields, views))
  {
    hide EntriesOfView;
  }

  lemma ExchangeHolds(plan: Plan, sets: map<Id, set<Entry>>, index0: set<Entry>, index: set<Entry>)
    requires plan.gone.Keys == plan.more.Keys == sets.Keys && Exchanged(plan, sets.Keys, index0, index) && MadeOf(index0, sets)
    requires forall n :: n in sets ==> AllOf(sets[n], n) && AllOf(plan.gone[n], n) && AllOf(plan.more[n], n)
    ensures MadeOf(index, ExchangedSets(sets, plan))
    ensures forall n :: n in sets ==> AllOf(ExchangedSets(sets, plan)[n], n)
  {
  }

  /** Types and label lists stay, so the label sets do. */
  lemma LabelsStay(views: map<Id, View>, target: map<Id, View>, labels: multiset<(U16, Id)>)
    requires LabelsOk(views, labels) && target.Keys == views.Keys
    requires forall n :: n in views ==> target[n].typeId == views[n].typeId && target[n].labels == views[n].labels
    ensures LabelsOk(target, labels)
  {
    forall t: U16, n: Id ensures labels[(t, n)] == if n in target && Carries(target[n], t) then 1 else 0 {
    }
  }

  // ---- Entries of changed properties ----

  function Names(fields: seq<Field>): set<string> {
    set f | f in fields :: f.name
  }

  function IndexedNames(fields: seq<Field>): set<string> {
    set f | f in fields && f.HasIndex() :: f.name
  }

  lemma IndexedAreNames(fields: seq<Field>)
    ensures IndexedNames(fields) <= Names(fields)
  {
  }

  /** The part of the properties under the given names. */
  function Only(props: Props, names: set<string>): Props {
    map k | k in props && k in names :: props[k]
  }

  /** The entries of the properties under the given names. */
  function EntriesFor(hash: Hash, names: set<string>, typeId: U16, props: Props, id: Id): set<Entry> {
    set k | k in names && k in props && Indexable(props[k]) :: EntryOf(hash, typeId, k, props[k], id)
  }

  lemma EntriesByName(hash: Hash, fields: seq<Field>, typeId: U16, props: Props, id: Id)
    ensures EntriesOf(hash, fields, typeId, props, id) == EntriesFor(hash, IndexedNames(fields), typeId, props, id)
  {
  }

  /** With different name hashes, dropping the entries of some names leaves those of the others. */
  lemma NamesSplit(hash: Hash, fields: seq<Field>, typeId: U16, props: Props, id: Id, going: set<string>)
    requires PathsDiffer(hash, fields) && going <= IndexedNames(fields)
    ensures EntriesFor(hash, IndexedNames(fields), typeId, props, id) - EntriesFor(hash, going, typeId, props, id)
            == EntriesFor(hash, IndexedNames(fields) - going, typeId, props, id)
  {
    NamesDiffer(hash, fields);
    hide Indexable, PathsDiffer, IndexedNames;
  }

  lemma NamesDiffer(hash: Hash, fields: seq<Field>)
    requires PathsDiffer(hash, fields)
    ensures forall j, k :: j in IndexedNames(fields) && k in IndexedNames(fields) && hash.path(j) == hash.path(k) ==> j == k
  {
  }

  lemma EntriesForHaveId(hash: Hash, names: set<string>, typeId: U16, props: Props, id: Id)
    ensures forall e :: e in EntriesFor(hash, names, typeId, props, id) ==> e.id == id
  {
  }

  // ---- The entry of one field ----

  /** The entry of one name, if the name is indexed and its value a scalar. */
  function EntryAt(hash: Hash, indexed: bool, typeId: U16, name: string, props: Props, id: Id): set<Entry> {
    if indexed && name in props && Indexable(props[name]) then {EntryOf(hash, typeId, name, props[name], id)} else {}
  }

  /** The entries of the other indexed names. */
  function OtherEntries(hash: Hash, fields: seq<Field>, typeId: U16, name: string, props: Props, id: Id): set<Entry> {
    EntriesFor(hash, IndexedNames(fields) - {name}, typeId, props, id)
  }

  lemma EntriesSplit(hash: Hash, fields: seq<Field>, typeId: U16, name: string, props: Props, id: Id)
    ensures EntriesOf(hash, fields, typeId, props, id)
            == OtherEntries(hash, fields, typeId, name, props, id) + EntryAt(hash, name in IndexedNames(fields), typeId, name, props, id)
  {
    EntriesByName(hash, fields, typeId, props, id);
    hide EntriesOf, IndexedNames, EntryOf, Indexable;
  }

  /** Another indexed field of the record has the entry that the field has with value `v`: the names have
      the same hash, and the values. */
  predicate SharesEntry(hash: Hash, fields: seq<Field>, props: Props, name: string, v: Value) {
    exists k :: k in IndexedNames(fields) - {name} && SharedWith(hash, props, name, v, k)
  }

  predicate SharedWith(hash: Hash, props: Props, name: string, v: Value, k: string) {
    && k in props && Indexable(props[k])
    && hash.path(k) == hash.path(name) && hash.value(Encode(props[k])) == hash.value(Encode(v))
  }

  lemma SharesIff(hash: Hash, fields: seq<Field>, typeId: U16, name: string, props: Props, v: Value, id: Id)
    ensures SharesEntry(hash, fields, props, name, v) <==>
      EntryOf(hash, typeId, name, v, id) in OtherEntries(hash, fields, typeId, name, props, id)
    ensures PathsDiffer(hash, fields) && name in IndexedNames(fields) ==> !SharesEntry(hash, fields, props, name, v)
  {
    if PathsDiffer(hash, fields) {
      NamesDiffer(hash, fields);
    }
    hide IndexedNames, Indexable;
    if SharesEntry(hash, fields, props, name, v) {
      var k :| k in IndexedNames(fields) - {name} && SharedWith(hash, props, name, v, k);
      assert EntryOf(hash, typeId, k, props[k], id) == EntryOf(hash, typeId, name, v, id);
    }
    if EntryOf(hash, typeId, name, v, id) in OtherEntries(hash, fields, typeId, name, props, id) {
      var k :| k in IndexedNames(fields) - {name} && k in props && Indexable(props[k])
               && EntryOf(hash, typeId, k, props[k], id) == EntryOf(hash, typeId, name, v, id);
      assert SharedWith(hash, props, name, v, k);
    }
  }

  // ---- Applying a schema ----

  /** The field names of the type differ between the schemas, both of which declare it. */
  predicate Changes(fields: Fields, fields2: Fields, typeId: U16) {
    typeId in fields && typeId in fields2 && Names(fields[typeId]) != Names(fields2[typeId])
  }

  /** The view of a record after a schema has replaced another. */
  function Purged(fields: Fields, fields2: Fields, view: View): View {
    var t := view.typeId;
    if t in fields && t in fields2 && Names(fields[t]) != Names(fields2[t])
    then view.(props := Only(view.props, Names(fields[t]) * Names(fields2[t])))
    else view
  }

  function PurgedNodes(fields: Fields, fields2: Fields, views: map<Id, View>): map<Id, View> {
    map n | n in views :: Purged(fields, fields2, views[n])
  }

  lemma PurgedValue(fields: Fields, fields2: Fields, view: View, k: string)
    ensures k in Purged(fields, fields2, view).props <==>
      k in view.props && (Changes(fields, fields2, view.typeId) ==> k in Names(fields[view.typeId]) * Names(fields2[view.typeId]))
    ensures k in Purged(fields, fields2, view).props ==> Purged(fields, fields2, view).props[k] == view.props[k]
    ensures Purged(fields, fields2, view).typeId == view.typeId && Purged(fields, fields2, view).labels == view.labels
  {
  }
}
