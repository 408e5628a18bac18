/**
 * Applying a schema over stored records (chiffondb-core/src/db.rs): values of fields that are not
 * declared before and after are dropped with their index entries; and when the index and the unique
 * fields are right for the new schema.
 */
module SchemaChanges {
  import opened Types
  import opened Convert
  import opened Records
  import opened Indexing
  import opened Rewriting
  import opened SchemaRuns
  import opened Database

  // ---- Applying a schema ----

  function PurgedEdges(fields: Fields, fields2: Fields, views: map<Id, EdgeView>): map<Id, EdgeView> {
    map e | e in views :: views[e].(view := Purged(fields, fields2, views[e].view))
  }

  /** The entries that purging takes from a record: those of fields that are declared no more. */
  function Dropped(hash: Hash, fields: Fields, fields2: Fields, view: View, id: Id): set<Entry> {
    var t := view.typeId;
    if Changes(fields, fields2, t)
    then EntriesFor(hash, IndexedNames(fields[t]) - Names(fields2[t]), t, view.props, id)
    else {}
  }

  function PurgedIndex(hash: Hash, fields: Fields, fields2: Fields, views: map<Id, View>, index: set<Entry>): set<Entry> {
    set e | e in index && !(e.id in views && e in Dropped(hash, fields, fields2, views[e.id], e.id))
  }

  // ---- The same, name by name ----

  ghost predicate Declares(fields: seq<Field>, k: string) {
    exists f :: f in fields && f.name == k
  }

  /** Both schemas declare the type, with different field names. */
  ghost predicate Redefines(fields: Fields, fields2: Fields, typeId: U16) {
    typeId in fields && typeId in fields2 && exists k :: Declares(fields[typeId], k) != Declares(fields2[typeId], k)
  }

  /** Of a redefined type the values stay that are declared before and after; of others all do. */
  ghost predicate IsPurged(fields: Fields, fields2: Fields, view: View, view2: View) {
    && view2.typeId == view.typeId && view2.labels == view.labels
    && forall k ::
         && (k in view2.props <==> k in view.props && (Redefines(fields, fields2, view.typeId) ==>
               Declares(fields[view.typeId], k) && Declares(fields2[view.typeId], k)))
         && (k in view2.props && k in view.props ==> view2.props[k] == view.props[k])
  }

  /** The entry of an indexed field of a redefined type that is declared no more. */
  ghost predicate IsOutdated(hash: Hash, fields: Fields, fields2: Fields, view: View, e: Entry) {
    && Redefines(fields, fields2, view.typeId)
    && exists f ::
         && f in fields[view.typeId] && (f.indexed || f.unique) && !Declares(fields2[view.typeId], f.name)
         && f.name in view.props && Indexable(view.props[f.name]) && e == EntryOf(hash, view.typeId, f.name, view.props[f.name], e.id)
  }

  /** What a schema change makes of nodes, edges and index. */
  ghost predicate IsApplied(hash: Hash, fields: Fields, fields2: Fields, views: map<Id, View>, views2: map<Id, View>,
                            index: set<Entry>, index2: set<Entry>) {
    && views2.Keys == views.Keys
    && (forall n :: n in views ==> IsPurged(fields, fields2, views[n], views2[n]))
    && forall e :: e in index2 <==> e in index && !(e.id in views && IsOutdated(hash, fields, fields2, views[e.id], e))
  }

  ghost predicate IsAppliedToEdges(fields: Fields, fields2: Fields, edges: map<Id, EdgeView>, edges2: map<Id, EdgeView>) {
    && edges2.Keys == edges.Keys
    && forall e :: e in edges ==>
         && edges2[e].fromNode == edges[e].fromNode && edges2[e].toNode == edges[e].toNode
         && IsPurged(fields, fields2, edges[e].view, edges2[e].view)
  }

  lemma DeclaresNames(fields: seq<Field>, k: string)
    ensures Declares(fields, k) <==> k in Names(fields)
  {
  }

  lemma RedefinesChanges(fields: Fields, fields2: Fields, typeId: U16)
    ensures Redefines(fields, fields2, typeId) <==> Changes(fields, fields2, typeId)
  {
    if typeId in fields && typeId in fields2 {
      forall k ensures (Declares(fields[typeId], k) <==> k in Names(fields[typeId])) && (Declares(fields2[typeId], k) <==> k in Names(fields2[typeId])) {
        DeclaresNames(fields[typeId], k);
        DeclaresNames(fields2[typeId], k);
      }
      hide Declares, Names;
      if Names(fields[typeId]) != Names(fields2[typeId]) {
        var k :| (k in Names(fields[typeId])) != (k in Names(fields2[typeId]));
        assert Declares(fields[typeId], k) != Declares(fields2[typeId], k);
      }
    }
  }

  lemma PurgedIs(fields: Fields, fields2: Fields, view: View)
    ensures IsPurged(fields, fields2, view, Purged(fields, fields2, view))
  {
    hide Names, Declares, Purged, Redefines;
    RedefinesChanges(fields, fields2, view.typeId);
    forall k
      ensures k in Purged(fields, fields2, view).props <==> k in view.props && (Redefines(fields, fields2, view.typeId) ==>
                view.typeId in fields && view.typeId in fields2 && Declares(fields[view.typeId], k) && Declares(fields2[view.typeId], k))
      ensures k in Purged(fields, fields2, view).props ==> Purged(fields, fields2, view).props[k] == view.props[k]
    {
      PurgedValue(fields, fields2, view, k);
      if view.typeId in fields && view.typeId in fields2 {
        DeclaresNames(fields[view.typeId], k);
        DeclaresNames(fields2[view.typeId], k);
      }
    }
    PurgedValue(fields, fields2, view, "");
  }

  lemma OutdatedIs(hash: Hash, fields: Fields, fields2: Fields, view: View, e: Entry)
    ensures IsOutdated(hash, fields, fields2, view, e) <==> e in Dropped(hash, fields, fields2, view, e.id)
  {
    hide Redefines, EntryOf, Indexable;
    RedefinesChanges(fields, fields2, view.typeId);
    if Changes(fields, fields2, view.typeId) {
      forall k ensures Declares(fields2[view.typeId], k) <==> k in Names(fields2[view.typeId]) {
        DeclaresNames(fields2[view.typeId], k);
      }
    }
    hide Changes, Names, Declares;
  }

  lemma AppliedIs(hash: Hash, fields: Fields, fields2: Fields, views: map<Id, View>, index: set<Entry>)
    ensures IsApplied(hash, fields, fields2, views, PurgedNodes(fields, fields2, views), index, PurgedIndex(hash, fields, fields2, views, index))
  {
    hide IsPurged, Purged, IsOutdated, Dropped;
    forall n | n in views ensures IsPurged(fields, fields2, views[n], Purged(fields, fields2, views[n])) {
      PurgedIs(fields, fields2, views[n]);
    }
    forall e: Entry | e.id in views
      ensures IsOutdated(hash, fields, fields2, views[e.id], e) <==> e in Dropped(hash, fields, fields2, views[e.id], e.id)
    {
      OutdatedIs(hash, fields, fields2, views[e.id], e);
    }
  }

  lemma AppliedToEdges(fields: Fields, fields2: Fields, edges: map<Id, EdgeView>)
    ensures IsAppliedToEdges(fields, fields2, edges, PurgedEdges(fields, fields2, edges))
  {
    hide IsPurged, Purged;
    forall e | e in edges ensures IsPurged(fields, fields2, edges[e].view, Purged(fields, fields2, edges[e].view)) {
      PurgedIs(fields, fields2, edges[e].view);
    }
  }

  // ---- When the indexes are right afterwards ----

  /** The names whose index mark a schema change switches: of fields that stay, or of all fields of a
      type that only one of the schemas declares. */
  function SwitchedMarks(fields: Fields, fields2: Fields, typeId: U16): set<string> {
    var before, after := FieldsOf(fields, typeId), FieldsOf(fields2, typeId);
    if typeId in fields && typeId in fields2
    then IndexedNames(before) * Names(after) - IndexedNames(after) + (IndexedNames(after) * Names(before) - IndexedNames(before))
    else IndexedNames(before) + IndexedNames(after)
  }

  /** No live node holds a scalar under such a name. */
  ghost predicate MarksUnused(fields: Fields, fields2: Fields, views: map<Id, View>) {
    forall n, k :: n in views && k in SwitchedMarks(fields, fields2, views[n].typeId) ==> HoldsNoScalar(views[n].props, k)
  }

  predicate HoldsNoScalar(props: Props, k: string) {
    k in props ==> !Indexable(props[k])
  }

  /** A unique field that was not unique before, or whose type was not declared. */
  predicate NewlyUnique(fields: Fields, typeId: U16, name: string) {
    typeId !in fields || (name in Names(fields[typeId]) && forall g :: g in fields[typeId] && g.unique ==> g.name != name)
  }

  /** No two nodes of a type hold the same scalar in a newly unique field. */
  ghost predicate NewlyUniqueDiffer(hash: Hash, fields: Fields, fields2: Fields, views: map<Id, View>) {
    forall a, b, f ::
      && a in views && b in views && a != b && views[a].typeId == views[b].typeId
      && f in FieldsOf(fields2, views[a].typeId) && f.unique && NewlyUnique(fields, views[a].typeId, f.name)
      ==> Differ(hash, views, f.name, a, b)
  }

  /** The indexed names of a type under both schemas hash differently. */
  ghost predicate AllPathsDiffer(hash: Hash, fields: Fields, fields2: Fields) {
    forall t: U16 :: PathsDiffer(hash, FieldsOf(fields, t) + FieldsOf(fields2, t))
  }

  /** Two sets of names, told apart by their hashes, call for the same entries exactly when the record
      holds no scalar under a name of only one of them. */
  lemma SameEntriesIff(hash: Hash, names: set<string>, names2: set<string>, typeId: U16, props: Props, id: Id)
    requires forall j, k :: j in names + names2 && k in names + names2 && hash.path(j) == hash.path(k) ==> j == k
    ensures (EntriesFor(hash, names2, typeId, props, id) == EntriesFor(hash, names, typeId, props, id))
      <==> forall k :: k in names - names2 + (names2 - names) ==> HoldsNoScalar(props, k)
  {
    hide Indexable;
    var e1, e2 := EntriesFor(hash, names, typeId, props, id), EntriesFor(hash, names2, typeId, props, id);
    forall k | k in names - names2 + (names2 - names) && k in props && Indexable(props[k])
      ensures EntryOf(hash, typeId, k, props[k], id) in e1 + e2 && EntryOf(hash, typeId, k, props[k], id) !in e1 * e2
    {
    }
  }

  lemma BothNamesDiffer(hash: Hash, before: seq<Field>, after: seq<Field>)
    requires PathsDiffer(hash, before + after)
    ensures PathsDiffer(hash, before)
    ensures forall j, k ::
      && j in IndexedNames(before) + IndexedNames(after) && k in IndexedNames(before) + IndexedNames(after)
      && hash.path(j) == hash.path(k)
      ==> j == k
  {
    NamesDiffer(hash, before + after);
    assert IndexedNames(before + after) == IndexedNames(before) + IndexedNames(after);
    assert forall f :: f in before ==> f in before + after;
  }

  lemma KeptEntries(hash: Hash, names: set<string>, keep: set<string>, typeId: U16, props: Props, id: Id)
    ensures EntriesFor(hash, names, typeId, Only(props, keep), id) == EntriesFor(hash, names * keep, typeId, props, id)
  {
    hide Indexable, EntryOf;
  }

  /** Of one record: what is left of its entries are the ones it calls for exactly when it holds no
      scalar under a name whose mark is switched. */
  lemma EntriesFitIff(hash: Hash, fields: Fields, fields2: Fields, view: View, id: Id)
    requires PathsDiffer(hash, FieldsOf(fields, view.typeId) + FieldsOf(fields2, view.typeId))
    ensures (EntriesOfView(hash, fields2, Purged(fields, fields2, view), id)
             == EntriesOfView(hash, fields, view, id) - Dropped(hash, fields, fields2, view, id))
      <==> forall k :: k in SwitchedMarks(fields, fields2, view.typeId) ==> HoldsNoScalar(view.props, k)
  {
    hide PathsDiffer, Indexable, EntriesOf, EntriesFor, IndexedNames, Names, HoldsNoScalar;
    var t, props := view.typeId, view.props;
    var before, after := FieldsOf(fields, t), FieldsOf(fields2, t);
    BothNamesDiffer(hash, before, after);
    IndexedAreNames(before);
    IndexedAreNames(after);
    var purged := Purged(fields, fields2, view);
    EntriesByName(hash, before, t, props, id);
    EntriesByName(hash, after, t, purged.props, id);
    var stay, needed := IndexedNames(before), IndexedNames(after);
    if Changes(fields, fields2, t) {
      stay, needed := stay * Names(after), needed * Names(before);
      KeptEntries(hash, IndexedNames(after), Names(before) * Names(after), t, props, id);
      assert IndexedNames(after) * (Names(before) * Names(after)) == needed;
      NamesSplit(hash, before, t, props, id, IndexedNames(before) - Names(after));
      assert IndexedNames(before) - (IndexedNames(before) - Names(after)) == stay;
    }
    SameEntriesIff(hash, stay, needed, t, props, id);
    assert stay - needed + (needed - stay) == SwitchedMarks(fields, fields2, t) by {
      NoFields(fields, fields2, t);
    }
  }

  lemma NoFields(fields: Fields, fields2: Fields, t: U16)
    ensures t !in fields ==> IndexedNames(FieldsOf(fields, t)) == {}
    ensures t !in fields2 ==> IndexedNames(FieldsOf(fields2, t)) == {}
  {
  }

  /** After a schema change the index is right exactly when no live node holds a scalar under a name
      whose index mark was switched: nothing is indexed, or taken out, after the fact. */
  lemma IndexFitsIff(hash: Hash, fields: Fields, fields2: Fields, views: map<Id, View>, index: set<Entry>)
    requires IndexOk(hash, fields, views, index) && AllPathsDiffer(hash, fields, fields2)
    ensures IndexOk(hash, fields2, PurgedNodes(fields, fields2, views), PurgedIndex(hash, fields, fields2, views, index))
      <==> MarksUnused(fields, fields2, views)
  {
    hide EntriesOfView, Dropped, Purged, SwitchedMarks, HoldsNoScalar, PathsDiffer;
    var views2, index2 := PurgedNodes(fields, fields2, views), PurgedIndex(hash, fields, fields2, views, index);
    forall n | n in views
      ensures (EntriesOfView(hash, fields2, views2[n], n)
               == EntriesOfView(hash, fields, views[n], n) - Dropped(hash, fields, fields2, views[n], n))
        <==> forall k :: k in SwitchedMarks(fields, fields2, views[n].typeId) ==> HoldsNoScalar(views[n].props, k)
    {
      EntriesFitIff(hash, fields, fields2, views[n], n);
    }
    forall n | n in views
      ensures forall e :: e in EntriesOfView(hash, fields, views[n], n) || e in EntriesOfView(hash, fields2, views2[n], n) ==> e.id == n
    {
      EntriesOwn(hash, fields, views[n], n);
      EntriesOwn(hash, fields2, views2[n], n);
    }
    if IndexOk(hash, fields2, views2, index2) {
      forall n | n in views
        ensures EntriesOfView(hash, fields2, views2[n], n)
                == EntriesOfView(hash, fields, views[n], n) - Dropped(hash, fields, fields2, views[n], n)
      {
      }
    }
  }

  lemma EntriesOwn(hash: Hash, fields: Fields, view: View, n: Id)
    ensures forall e :: e in EntriesOfView(hash, fields, view, n) ==> e.id == n
  {
    EntriesHaveId(hash, FieldsOf(fields, view.typeId), view.typeId, view.props, n);
  }

  /** After a schema change the unique fields are unique exactly when the newly unique ones are. */
  lemma UniqueFitsIff(hash: Hash, fields: Fields, fields2: Fields, views: map<Id, View>)
    requires UniqueOk(hash, fields, views)
    ensures UniqueOk(hash, fields2, PurgedNodes(fields, fields2, views)) <==> NewlyUniqueDiffer(hash, fields, fields2, views)
  {
    hide UniqueOk, PurgedNodes;
    if NewlyUniqueDiffer(hash, fields, fields2, views) {
      StaysUnique(hash, fields, fields2, views);
    }
    hide NewlyUniqueDiffer;
    if UniqueOk(hash, fields2, PurgedNodes(fields, fields2, views)) {
      WasNewlyUnique(hash, fields, fields2, views);
    }
  }

  lemma StaysUnique(hash: Hash, fields: Fields, fields2: Fields, views: map<Id, View>)
    requires UniqueOk(hash, fields, views) && NewlyUniqueDiffer(hash, fields, fields2, views)
    ensures UniqueOk(hash, fields2, PurgedNodes(fields, fields2, views))
  {
    hide Purged, SameKeyed, Differ, NewlyUnique, UniqueOk;
    var views2 := PurgedNodes(fields, fields2, views);
    forall a | a in views ensures views2[a].typeId == views[a].typeId {
      PurgedValue(fields, fields2, views[a], "");
    }
    hide Names;
    forall a, b, f | a in views2 && b in views2 && a != b && views2[a].typeId == views2[b].typeId
                     && f in FieldsOf(fields2, views2[a].typeId) && f.unique
      ensures Differ(hash, views2, f.name, a, b)
    {
      UniqueFitsOne(hash, fields, fields2, views, a, b, f);
    }
    UniqueIfDiffer(hash, fields2, views2);
  }

  lemma WasNewlyUnique(hash: Hash, fields: Fields, fields2: Fields, views: map<Id, View>)
    requires UniqueOk(hash, fields, views) && UniqueOk(hash, fields2, PurgedNodes(fields, fields2, views))
    ensures NewlyUniqueDiffer(hash, fields, fields2, views)
  {
    hide Purged, SameKeyed, Differ, NewlyUnique;
    var views2 := PurgedNodes(fields, fields2, views);
    forall a | a in views ensures views2[a].typeId == views[a].typeId {
      PurgedValue(fields, fields2, views[a], "");
    }
    hide Names;
    forall a, b, f | a in views && b in views && a != b && views[a].typeId == views[b].typeId
                     && f in FieldsOf(fields2, views[a].typeId) && f.unique && NewlyUnique(fields, views[a].typeId, f.name)
      ensures Differ(hash, views, f.name, a, b)
    {
      UniqueFitsOne(hash, fields, fields2, views, a, b, f);
      assert Differ(hash, views2, f.name, a, b);
    }
  }

  lemma UniqueFitsOne(hash: Hash, fields: Fields, fields2: Fields, views: map<Id, View>, a: Id, b: Id, f: Field)
    requires UniqueOk(hash, fields, views)
    requires a in views && b in views && a != b && views[a].typeId == views[b].typeId
    requires f in FieldsOf(fields2, views[a].typeId) && f.unique
    ensures Differ(hash, PurgedNodes(fields, fields2, views), f.name, a, b)
      <==> (NewlyUnique(fields, views[a].typeId, f.name) ==> Differ(hash, views, f.name, a, b))
  {
    hide Purged, SameKeyed;
    var t := views[a].typeId;
    PurgedValue(fields, fields2, views[a], f.name);
    PurgedValue(fields, fields2, views[b], f.name);
    assert f.name in Names(fields2[t]);
    if t in fields && !NewlyUnique(fields, t, f.name) && f.name in Names(fields[t]) {
      var g :| g in fields[t] && g.unique && g.name == f.name;
      assert Differ(hash, views, g.name, a, b);
    }
  }

  /** What an unmarked field costs: its entry stays when the node is deleted, and when the id is given to
      a node of another type and the field is marked again, a lookup finds that node. */
  lemma UnmarkedFieldMisleads(hash: Hash, t: U16, u: U16, k: string, v: Value, id: Id, remains: Remains)
    requires t != u && Indexable(v)
    ensures var marked, unmarked := Field(k, Scalar(StringType), true, false), Field(k, Scalar(StringType), false, false);
      var with, without: Fields := map[t := [marked], u := []], map[t := [unmarked], u := []];
      var views: map<Id, View> := map[id := View(t, map[k := v], [])];
      var others: map<Id, View> := map[id := View(u, map[k := v], [])];
      var index := {EntryOf(hash, t, k, v, id)};
      && IndexOk(hash, with, views, index)
      && PurgedNodes(with, without, views) == views && PurgedIndex(hash, with, without, views, index) == index
      && index - EntriesOfView(hash, without, views[id], id) == index
      && index + EntriesOfView(hash, without, others[id], id) == index
      && PurgedNodes(without, with, others) == others && PurgedIndex(hash, without, with, others, index) == index
      && Found(hash, others, remains, index, t, k, v, id) && !Scanned(others, t, k, v, id)
  {
    var marked, unmarked := Field(k, Scalar(StringType), true, false), Field(k, Scalar(StringType), false, false);
    assert Names([marked]) == {k} && Names([unmarked]) == {k};
  }

  // ---- Purging ----

  /** Removes the entries of the given names. */
  method RemoveIndexEntries(db: Database, typeId: U16, id: Id, props: Props, names: set<string>)
    modifies db`index
    ensures db.index == old(db.index) - EntriesFor(db.hash, names, typeId, props, id)
  {
    hide EntryOf, Indexable;
    var pending := names;
    while pending != {}
      invariant pending <= names
      invariant db.index == old(db.index) - EntriesFor(db.hash, names - pending, typeId, props, id)
      decreases |pending|
    {
      var k :| k in pending;
      assert names - (pending - {k}) == (names - pending) + {k};
      OneMoreEntry(db.hash, names - pending, k, typeId, props, id);
      pending := pending - {k};
      if k in props && Indexable(props[k]) {
        db.index := db.index - {EntryOf(db.hash, typeId, k, props[k], id)};
      }
    }
    assert names - pending == names;
  }

  lemma OneMoreEntry(hash: Hash, names: set<string>, k: string, typeId: U16, props: Props, id: Id)
    ensures EntriesFor(hash, names + {k}, typeId, props, id)
      == EntriesFor(hash, names, typeId, props, id)
         + if k in props && Indexable(props[k]) then {EntryOf(hash, typeId, k, props[k], id)} else {}
  {
    hide EntryOf, Indexable;
  }

  /** The nodes and the index while types are purged one after another: those in `done` are finished. */
  function PurgedAmong(fields: Fields, fields2: Fields, views: map<Id, View>, done: set<Id>): map<Id, View> {
    map n | n in views :: if n in done then Purged(fields, fields2, views[n]) else views[n]
  }

  function IndexAmong(hash: Hash, fields: Fields, fields2: Fields, views: map<Id, View>, index: set<Entry>, done: set<Id>): set<Entry> {
    set e | e in index && !(e.id in done && e.id in views && e in Dropped(hash, fields, fields2, views[e.id], e.id))
  }

  lemma DroppedOwn(hash: Hash, fields: Fields, fields2: Fields, view: View, id: Id)
    ensures forall e :: e in Dropped(hash, fields, fields2, view, id) ==> e.id == id
    ensures Changes(fields, fields2, view.typeId) && view.props.Keys <= Names(fields[view.typeId]) * Names(fields2[view.typeId]) ==>
      Dropped(hash, fields, fields2, view, id) == {} && Purged(fields, fields2, view) == view
    ensures !Changes(fields, fields2, view.typeId) ==> Dropped(hash, fields, fields2, view, id) == {} && Purged(fields, fields2, view) == view
  {
    hide Names, IndexedNames;
    if Changes(fields, fields2, view.typeId) {
      var keep, dropped := Names(fields[view.typeId]) * Names(fields2[view.typeId]), IndexedNames(fields[view.typeId]) - Names(fields2[view.typeId]);
      EntriesForHaveId(hash, dropped, view.typeId, view.props, id);
      if view.props.Keys <= keep {
        NothingDropped(hash, dropped, keep, view.typeId, view.props, id);
        assert Only(view.props, keep) == view.props;
      }
    }
  }

  lemma NothingDropped(hash: Hash, dropped: set<string>, keep: set<string>, typeId: U16, props: Props, id: Id)
    requires props.Keys <= keep && keep !! dropped
    ensures EntriesFor(hash, dropped, typeId, props, id) == {}
  {
  }

  lemma OneMoreNode(hash: Hash, fields: Fields, fields2: Fields, views: map<Id, View>, index: set<Entry>, done: set<Id>, id: Id)
    requires id in views && id !in done
    ensures PurgedAmong(fields, fields2, views, done)[id] == views[id]
    ensures PurgedAmong(fields, fields2, views, done + {id})
            == PurgedAmong(fields, fields2, views, done)[id := Purged(fields, fields2, views[id])]
    ensures IndexAmong(hash, fields, fields2, views, index, done + {id})
            == IndexAmong(hash, fields, fields2, views, index, done) - Dropped(hash, fields, fields2, views[id], id)
  {
    DroppedOwn(hash, fields, fields2, views[id], id);
    hide Purged, Dropped;
  }

  lemma PurgeStep(hash: Hash, fields: Fields, fields2: Fields, views: map<Id, View>, index: set<Entry>, done: set<Id>, id: Id)
    requires id in views && id !in done && Changes(fields, fields2, views[id].typeId)
    ensures var view, t := views[id], views[id].typeId;
      var keep, dropped := Names(fields[t]) * Names(fields2[t]), IndexedNames(fields[t]) - Names(fields2[t]);
      var nodes, entries := PurgedAmong(fields, fields2, views, done), IndexAmong(hash, fields, fields2, views, index, done);
      var nodes2, entries2 := PurgedAmong(fields, fields2, views, done + {id}), IndexAmong(hash, fields, fields2, views, index, done + {id});
      && nodes[id] == view
      && nodes2 == nodes[id := view.(props := Only(view.props, keep))]
      && entries2 == entries - EntriesFor(hash, dropped, t, view.props, id)
      && (view.props.Keys <= keep ==> nodes2 == nodes && entries2 == entries)
  {
    OneMoreNode(hash, fields, fields2, views, index, done, id);
    DroppedOwn(hash, fields, fields2, views[id], id);
    hide PurgedAmong, IndexAmong, Names, IndexedNames, Only, EntriesFor;
  }

  lemma NoneYet(hash: Hash, fields: Fields, fields2: Fields, views: map<Id, View>, index: set<Entry>)
    ensures PurgedAmong(fields, fields2, views, {}) == views
    ensures IndexAmong(hash, fields, fields2, views, index, {}) == index
  {
  }

  /** The nodes left out are the ones that do not change. */
  lemma AllDone(hash: Hash, fields: Fields, fields2: Fields, views: map<Id, View>, index: set<Entry>, done: set<Id>)
    requires forall n :: n in views && Changes(fields, fields2, views[n].typeId) ==> n in done
    ensures PurgedAmong(fields, fields2, views, done) == PurgedNodes(fields, fields2, views)
    ensures IndexAmong(hash, fields, fields2, views, index, done) == PurgedIndex(hash, fields, fields2, views, index)
  {
    forall n | n in views && n !in done
      ensures Purged(fields, fields2, views[n]) == views[n] && Dropped(hash, fields, fields2, views[n], n) == {}
    {
      DroppedOwn(hash, fields, fields2, views[n], n);
    }
    hide Purged, Dropped, Changes;
  }

  /** Types and labels are never purged. */
  lemma AmongKeeps(fields: Fields, fields2: Fields, views: map<Id, View>, done: set<Id>, labels: multiset<(U16, Id)>)
    ensures var now := PurgedAmong(fields, fields2, views, done);
      && now.Keys == views.Keys
      && (forall n :: n in views ==> now[n].typeId == views[n].typeId && now[n].labels == views[n].labels)
      && (LabelsOk(views, labels) ==> LabelsOk(now, labels))
  {
    var now := PurgedAmong(fields, fields2, views, done);
    if LabelsOk(views, labels) {
      LabelsStay(views, now, labels);
    }
  }

  function OfType(views: map<Id, View>, typeId: U16): set<Id> {
    set n | n in views && views[n].typeId == typeId
  }

  /** The state of the database while nodes are purged. */
  ghost predicate Purging(db: Database, fields: Fields, fields2: Fields, views0: map<Id, View>, index0: set<Entry>, done: set<Id>)
    reads db, db.records
  {
    && db.records.Valid()
    && db.records.Nodes() == PurgedAmong(fields, fields2, views0, done)
    && db.index == IndexAmong(db.hash, fields, fields2, views0, index0, done)
    && LabelsOk(views0, db.labels)
  }

  /** Drops the values outside `keep` from the nodes of the type. */
  method PurgeNodeFields(db: Database, typeId: U16, keep: set<string>, dropped: set<string>, ghost fields: Fields,
                         ghost fields2: Fields, ghost views0: map<Id, View>, ghost index0: set<Entry>, ghost done: set<Id>)
    returns (ghost done2: set<Id>)
    requires Purging(db, fields, fields2, views0, index0, done)
    requires Changes(fields, fields2, typeId)
    requires keep == Names(fields[typeId]) * Names(fields2[typeId])
    requires dropped == IndexedNames(fields[typeId]) - Names(fields2[typeId])
    requires forall n :: n in done && n in views0 ==> views0[n].typeId != typeId
    modifies db`index, db.records
    ensures Purging(db, fields, fields2, views0, index0, done2)
    ensures done2 == done + OfType(views0, typeId)
    ensures db.records.Edges() == old(db.records.Edges())
  {
    hide RecordStore.Valid, RecordStore.Nodes, RecordStore.Edges, LabelsOk, Names, IndexedNames, EntriesFor, Only, EachOnce,
      Carries, PurgedAmong, IndexAmong, Purged, Dropped;
    AmongKeeps(fields, fields2, views0, done, db.labels);
    var ids := db.RidsOfType(typeId);
    OfTypeCarry(db.records.Nodes(), typeId);
    done2 := done;
    for i := 0 to |ids|
      invariant Purging(db, fields, fields2, views0, index0, done2) && db.records.Edges() == old(db.records.Edges())
      invariant db.labels == old(db.labels)
      invariant forall n :: n in done2 <==> n in done || (n in OfType(views0, typeId) && n in ids[..i])
    {
      var id := ids[i];
      NotBefore(ids, i);
      AmongKeeps(fields, fields2, views0, done2, db.labels);
      var view := db.records.Nodes()[id];
      if view.typeId == typeId {
        PurgeStep(db.hash, fields, fields2, views0, index0, done2, id);
        if !(view.props.Keys <= keep) {
          RemoveIndexEntries(db, typeId, id, view.props, dropped);
          db.records.Replace(NodeProps(id), Properties(Only(view.props, keep)));
        }
        done2 := done2 + {id};
        AmongKeeps(fields, fields2, views0, done2, db.labels);
      }
    }
  }

  /** Saves the schema and drops the values that stay under no field declared before and after. Whatever
      the schemas, that says what becomes of the records, the label sets and the index; index and unique
      fields are right afterwards exactly when no scalar stands under a switched mark, and none twice in
      a newly unique field. */
  method ApplySchema(db: Database, next: Schema)
    requires db.Consistent()
    modifies db, db.records
    ensures db.Consistent() && db.schema == Some(next) && db.labels == old(db.labels)
    ensures db.State() == After(old(db.State()), Apply(next.nodes))
    ensures db.records.Edges() == PurgedEdges(old(db.EdgeFields()), next.edges, old(db.records.Edges()))
    ensures db.index == PurgedIndex(db.hash, old(db.NodeFields()), next.nodes, old(db.records.Nodes()), old(db.index))
    ensures IsApplied(db.hash, old(db.NodeFields()), next.nodes, old(db.records.Nodes()), db.records.Nodes(), old(db.index), db.index)
    ensures IsAppliedToEdges(old(db.EdgeFields()), next.edges, old(db.records.Edges()), db.records.Edges())
    ensures old(db.IndexFits()) && AllPathsDiffer(db.hash, old(db.NodeFields()), next.nodes) ==>
      (db.IndexFits() <==> MarksUnused(old(db.NodeFields()), next.nodes, old(db.records.Nodes())))
    ensures old(db.UniqueFits()) ==>
      (db.UniqueFits() <==> NewlyUniqueDiffer(db.hash, old(db.NodeFields()), next.nodes, old(db.records.Nodes())))
  {
    hide RecordStore.Valid, RecordStore.Nodes, RecordStore.Edges, LabelsOk, IndexOk, UniqueOk, PurgedNodes, PurgedEdges, PurgedIndex,
      EdgesNormal, AllPathsDiffer, MarksUnused, NewlyUniqueDiffer, IsApplied, IsAppliedToEdges;
    var before, edgeFields := db.schema, db.EdgeFields();
    ghost var fields, views0, index0 := db.NodeFields(), db.records.Nodes(), db.index;
    db.schema := Some(next);
    NothingToPurge(db.hash, next.nodes, views0, index0);
    if before.Some? {
      PurgeNodes(db, before.value.nodes, next.nodes);
    }
    PurgedLabels(fields, next.nodes, views0, db.labels);
    AppliedIs(db.hash, fields, next.nodes, views0, index0);
    AppliedToEdges(edgeFields, next.edges, db.records.Edges());
    PurgedNormal(edgeFields, next.edges, db.records.Edges());
    PurgeEdgeFields(db, edgeFields, next.edges);
    if IndexOk(db.hash, fields, views0, index0) && AllPathsDiffer(db.hash, fields, next.nodes) {
      IndexFitsIff(db.hash, fields, next.nodes, views0, index0);
    }
    if UniqueOk(db.hash, fields, views0) {
      UniqueFitsIff(db.hash, fields, next.nodes, views0);
    }
  }

  /** Purges the nodes of one type after another. */
  method PurgeNodes(db: Database, fields: Fields, fields2: Fields)
    requires db.records.Valid() && LabelsOk(db.records.Nodes(), db.labels)
    modifies db`index, db.records
    ensures db.records.Valid() && db.records.Edges() == old(db.records.Edges())
    ensures db.records.Nodes() == PurgedNodes(fields, fields2, old(db.records.Nodes()))
    ensures db.index == PurgedIndex(db.hash, fields, fields2, old(db.records.Nodes()), old(db.index))
  {
    hide RecordStore.Valid, RecordStore.Nodes, RecordStore.Edges, LabelsOk, PurgedNodes, PurgedIndex, PurgedAmong, IndexAmong, Names,
      IndexedNames;
    ghost var views0, index0 := db.records.Nodes(), db.index;
    NoneYet(db.hash, fields, fields2, views0, index0);
    ghost var done: set<Id> := {};
    var pending := fields.Keys;
    while pending != {}
      invariant pending <= fields.Keys && Purging(db, fields, fields2, views0, index0, done)
      invariant db.records.Edges() == old(db.records.Edges())
      invariant forall n :: n in done ==> n in views0 && views0[n].typeId !in pending
      invariant forall n :: n in views0 && views0[n].typeId !in pending && Changes(fields, fields2, views0[n].typeId) ==> n in done
      decreases |pending|
    {
      var t :| t in pending;
      pending := pending - {t};
      if t in fields2 && Names(fields[t]) != Names(fields2[t]) {
        var keep := Names(fields[t]) * Names(fields2[t]);
        var dropped := IndexedNames(fields[t]) - Names(fields2[t]);
        done := PurgeNodeFields(db, t, keep, dropped, fields, fields2, views0, index0, done);
      }
    }
    AllDone(db.hash, fields, fields2, views0, index0, done);
  }

  lemma NothingToPurge(hash: Hash, fields2: Fields, views: map<Id, View>, index: set<Entry>)
    ensures PurgedNodes(map[], fields2, views) == views && PurgedIndex(hash, map[], fields2, views, index) == index
  {
    hide Names, Only;
  }

  lemma PurgedLabels(fields: Fields, fields2: Fields, views: map<Id, View>, labels: multiset<(U16, Id)>)
    requires LabelsOk(views, labels)
    ensures LabelsOk(PurgedNodes(fields, fields2, views), labels)
  {
    hide Only, Names;
    LabelsStay(views, PurgedNodes(fields, fields2, views), labels);
  }

  lemma PurgedNormal(fields: Fields, fields2: Fields, edges: map<Id, EdgeView>)
    requires EdgesNormal(edges)
    ensures EdgesNormal(PurgedEdges(fields, fields2, edges))
  {
  }

  /** The edges purged, except for those still pending. */
  function EdgesExcept(fields: Fields, fields2: Fields, edges: map<Id, EdgeView>, pending: set<Id>): map<Id, EdgeView> {
    map e | e in edges :: if e in pending then edges[e] else edges[e].(view := Purged(fields, fields2, edges[e].view))
  }

  lemma AllOrNone(fields: Fields, fields2: Fields, edges: map<Id, EdgeView>)
    ensures EdgesExcept(fields, fields2, edges, edges.Keys) == edges
    ensures EdgesExcept(fields, fields2, edges, {}) == PurgedEdges(fields, fields2, edges)
  {
    hide Purged;
  }

  lemma OneMoreEdge(fields: Fields, fields2: Fields, edges: map<Id, EdgeView>, pending: set<Id>, e: Id)
    requires e in pending && pending <= edges.Keys
    ensures var before := EdgesExcept(fields, fields2, edges, pending);
      && e in before && before[e] == edges[e]
      && EdgesExcept(fields, fields2, edges, pending - {e})
         == before[e := edges[e].(view := Purged(fields, fields2, edges[e].view))]
      && (Purged(fields, fields2, edges[e].view) == edges[e].view ==>
            EdgesExcept(fields, fields2, edges, pending - {e}) == before)
  {
    hide Purged;
  }

  method PurgeEdgeFields(db: Database, fields: Fields, fields2: Fields)
    requires db.records.Valid()
    modifies db.records
    ensures db.records.Valid() && db.records.Nodes() == old(db.records.Nodes())
    ensures db.records.Edges() == PurgedEdges(fields, fields2, old(db.records.Edges()))
  {
    hide RecordStore.Valid, RecordStore.Nodes, RecordStore.Edges, Names, Only, EdgesExcept, PurgedEdges;
    ghost var edges := db.records.Edges();
    var pending := db.records.Edges().Keys;
    AllOrNone(fields, fields2, edges);
    while pending != {}
      invariant pending <= edges.Keys && db.records.Valid() && db.records.Nodes() == old(db.records.Nodes())
      invariant db.records.Edges() == EdgesExcept(fields, fields2, edges, pending)
      decreases |pending|
    {
      var e :| e in pending;
      OneMoreEdge(fields, fields2, edges, pending, e);
      pending := pending - {e};
      var view := db.records.Edges()[e].view;
      var t := view.typeId;
      if t in fields && t in fields2 && Names(fields[t]) != Names(fields2[t]) {
        db.records.Replace(EdgeProps(e), Properties(Only(view.props, Names(fields[t]) * Names(fields2[t]))));
      }
    }
  }
}
