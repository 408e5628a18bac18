/**
 * Renaming a field and changing its type (chiffondb-core/src/db.rs): the stored values of the type's
 * nodes move or are converted, their index entries with them, or nothing changes. Whether the index is
 * right afterwards depends on the entries that fields share.
 */
module FieldChanges {
  import opened Types
  import opened Convert
  import opened Records
  import opened Indexing
  import opened Rewriting
  import opened Database

  // ---- Rename ----

  /** The place of the first field with the name. */
  function Position(fields: seq<Field>, name: string): (p: nat)
    ensures p <= |fields| && (p < |fields| ==> fields[p].name == name)
    ensures forall f :: f in fields[..p] ==> f.name != name
  {
    if fields == [] || fields[0].name == name then 0
    else
      var p := Position(fields[1..], name) + 1;
      assert fields[..p] == [fields[0]] + fields[1..][..p-1];
      p
  }

  function FieldNamed(fields: seq<Field>, name: string): Option<Field> {
    var p := Position(fields, name);
    if p < |fields| then Some(fields[p]) else None
  }

  lemma FieldNamedIs(fields: seq<Field>, name: string)
    ensures FieldNamed(fields, name).Some? <==> name in Names(fields)
    ensures FieldNamed(fields, name).Some? ==> FieldNamed(fields, name).value in fields && FieldNamed(fields, name).value.name == name
  {
    var p := Position(fields, name);
    assert fields[..|fields|] == fields;
  }

  /** The first field with the name is marked as indexed. */
  predicate IsMarked(fields: seq<Field>, name: string) {
    FieldNamed(fields, name).Some? && FieldNamed(fields, name).value.HasIndex()
  }

  /** Only the first field with the name is renamed. */
  function RenamedFields(fields: seq<Field>, oldName: string, newName: string): seq<Field> {
    var p := Position(fields, oldName);
    if p < |fields| then fields[p := fields[p].(name := newName)] else fields
  }

  function Renamed(schema: Option<Schema>, typeId: U16, oldName: string, newName: string): Option<Schema> {
    if schema.None? || typeId !in schema.value.nodes then schema
    else
      var nodes := schema.value.nodes;
      Some(schema.value.(nodes := nodes[typeId := RenamedFields(nodes[typeId], oldName, newName)]))
  }

  /** The first field of one list with the name stands in the second list under a new name, or with a new
      type; its marks are the same, and so are the other fields. */
  ghost predicate FirstBecomes(fields: seq<Field>, fields2: seq<Field>, name: string, newName: string, ty: Option<ScalarType>) {
    && |fields2| == |fields|
    && exists p ::
         && 0 <= p < |fields| && fields[p].name == name && (forall i :: 0 <= i < p ==> fields[i].name != name)
         && fields2[p] == Field(newName, if ty.Some? then Scalar(ty.value) else fields[p].ty, fields[p].indexed, fields[p].unique)
         && forall i :: 0 <= i < |fields| && i != p ==> fields2[i] == fields[i]
  }

  /** Only the fields of one node type differ. */
  ghost predicate OnlyType(schema: Option<Schema>, schema2: Option<Schema>, typeId: U16) {
    && schema.Some? && schema2.Some? && schema2.value.edges == schema.value.edges
    && schema2.value.nodes.Keys == schema.value.nodes.Keys
    && forall t :: t in schema.value.nodes && t != typeId ==> schema2.value.nodes[t] == schema.value.nodes[t]
  }

  lemma FirstIsAt(fields: seq<Field>, name: string)
    ensures var p := Position(fields, name); forall i :: 0 <= i < p ==> fields[i].name != name
  {
    var p := Position(fields, name);
    forall i | 0 <= i < p ensures fields[i].name != name {
      assert fields[..p][i] in fields[..p];
    }
  }

  /** The new name is declared in the place of the old one, with its type and its marks. */
  lemma RenamedIs(schema: Option<Schema>, typeId: U16, oldName: string, newName: string)
    requires schema.Some? && typeId in schema.value.nodes && oldName in Names(schema.value.nodes[typeId])
    ensures var schema2 := Renamed(schema, typeId, oldName, newName);
      && OnlyType(schema, schema2, typeId) && typeId in schema2.value.nodes
      && FirstBecomes(schema.value.nodes[typeId], schema2.value.nodes[typeId], oldName, newName, None)
  {
    var fields := schema.value.nodes[typeId];
    FieldNamedIs(fields, oldName);
    FirstIsAt(fields, oldName);
    var p := Position(fields, oldName);
    assert 0 <= p < |fields| && fields[p].name == oldName;
  }

  function RenamedProps(props: Props, oldName: string, newName: string): Props {
    var rest := props - {oldName, newName};
    if oldName in props then rest[newName := props[oldName]] else rest
  }

  function RenamedNodes(views: map<Id, View>, typeId: U16, oldName: string, newName: string): map<Id, View> {
    map n | n in views ::
      if views[n].typeId == typeId then views[n].(props := RenamedProps(views[n].props, oldName, newName)) else views[n]
  }

  /** The values of the type's nodes stand under the new name instead of the old one, what stood under the
      new name is gone, and nothing else changes. */
  ghost predicate MovesField(views: map<Id, View>, views2: map<Id, View>, typeId: U16, oldName: string, newName: string) {
    && views2.Keys == views.Keys
    && forall n :: n in views ==>
         && views2[n].typeId == views[n].typeId && views2[n].labels == views[n].labels
         && if views[n].typeId != typeId then views2[n].props == views[n].props
            else
              && oldName !in views2[n].props
              && SameUnder(views[n].props, oldName, views2[n].props, newName)
              && forall k :: k != oldName && k != newName ==> SameUnder(views[n].props, k, views2[n].props, k)
  }

  /** The one map holds under the one name what the other holds under the other name, or both hold nothing. */
  predicate SameUnder(props: Props, k: string, props2: Props, k2: string) {
    (k in props <==> k2 in props2) && (k in props && k2 in props2 ==> props2[k2] == props[k])
  }

  lemma RenamedMoves(views: map<Id, View>, typeId: U16, oldName: string, newName: string)
    requires oldName != newName
    ensures MovesField(views, RenamedNodes(views, typeId, oldName, newName), typeId, oldName, newName)
  {
  }

  /** The nodes with the new name; their entries follow if the first field of the old name is indexed. */
  function RenamePlan(hash: Hash, views: map<Id, View>, typeId: U16, oldName: string, newName: string, indexed: bool): Plan {
    Plan(RenamedNodes(views, typeId, oldName, newName),
         map n | n in views :: if views[n].typeId == typeId then EntryAt(hash, indexed, typeId, oldName, views[n].props, n) else {},
         map n | n in views ::
           if views[n].typeId == typeId
           then EntryAt(hash, indexed, typeId, newName, RenamedProps(views[n].props, oldName, newName), n) else {})
  }

  lemma RenamePlanAt(hash: Hash, views: map<Id, View>, typeId: U16, oldName: string, newName: string, indexed: bool, n: Id)
    requires n in views
    ensures var plan, props := RenamePlan(hash, views, typeId, oldName, newName, indexed), views[n].props;
      && n in plan.target && n in plan.gone && n in plan.more
      && if views[n].typeId == typeId
         then && plan.target[n] == views[n].(props := RenamedProps(props, oldName, newName))
              && plan.gone[n] == EntryAt(hash, indexed, typeId, oldName, props, n)
              && plan.more[n] == EntryAt(hash, indexed, typeId, newName, RenamedProps(props, oldName, newName), n)
         else plan.target[n] == views[n] && plan.gone[n] == plan.more[n] == {}
  {
  }

  lemma RenameIsPlan(hash: Hash, views: map<Id, View>, typeId: U16, oldName: string, newName: string, indexed: bool)
    ensures var plan := RenamePlan(hash, views, typeId, oldName, newName, indexed);
      IsPlan(plan, views) && plan.target == RenamedNodes(views, typeId, oldName, newName)
  {
    var plan := RenamePlan(hash, views, typeId, oldName, newName, indexed);
    hide RenamedProps, EntryAt;
    forall n | n in views ensures AllOf(plan.gone[n], n) && AllOf(plan.more[n], n) {
      EntryAtOwn(hash, indexed, typeId, oldName, views[n].props, n);
      EntryAtOwn(hash, indexed, typeId, newName, RenamedProps(views[n].props, oldName, newName), n);
    }
    hide AllOf;
  }

  lemma EntryAtOwn(hash: Hash, indexed: bool, typeId: U16, name: string, props: Props, id: Id)
    ensures AllOf(EntryAt(hash, indexed, typeId, name, props, id), id) && AllOf({}, id)
  {
  }

  lemma RenameNames(fields: seq<Field>, oldName: string, newName: string)
    requires oldName != newName && newName !in Names(fields) && oldName in Names(fields)
    ensures var after := RenamedFields(fields, oldName, newName);
      && IndexedNames(after) - {oldName, newName} == IndexedNames(fields) - {oldName}
      && (newName in IndexedNames(after) <==> IsMarked(fields, oldName))
      && (IsMarked(fields, oldName) ==> oldName in IndexedNames(fields))
      && (forall g :: g in after ==> exists f :: f in fields && (g == f || (f.name == oldName && g == f.(name := newName))))
  {
    FieldNamedIs(fields, oldName);
    var p, after := Position(fields, oldName), RenamedFields(fields, oldName, newName);
    forall k ensures k in IndexedNames(after) - {oldName, newName} <==> k in IndexedNames(fields) - {oldName} {
      if k in IndexedNames(fields) - {oldName} {
        var i :| 0 <= i < |fields| && fields[i].HasIndex() && fields[i].name == k;
        assert after[i] == fields[i];
      }
    }
    if IsMarked(fields, oldName) {
      assert after[p].HasIndex() && after[p].name == newName;
    }
  }

  /** The entries of a record fit its renamed field: no other indexed field shares the entry that is taken
      away, unless the same entry comes back; and if the first field of the name is not indexed but a
      later one is, the entry that is left is that of another field. */
  predicate RenameFits(hash: Hash, fields: seq<Field>, props: Props, oldName: string, newName: string) {
    oldName in props && Indexable(props[oldName]) ==>
      if IsMarked(fields, oldName)
      then hash.path(newName) == hash.path(oldName) || !SharesEntry(hash, fields, props, oldName, props[oldName])
      else oldName in IndexedNames(fields) ==> SharesEntry(hash, fields, props, oldName, props[oldName])
  }

  /** Names other than the two keep their entries, and nothing is left under the old name. */
  lemma RenameOthers(hash: Hash, fields: seq<Field>, typeId: U16, props: Props, oldName: string, newName: string, id: Id)
    requires oldName != newName && newName !in Names(fields) && oldName in Names(fields)
    ensures OtherEntries(hash, RenamedFields(fields, oldName, newName), typeId, newName, RenamedProps(props, oldName, newName), id)
            == OtherEntries(hash, fields, typeId, oldName, props, id)
  {
    RenameNames(fields, oldName, newName);
    hide RenamedFields, IndexedNames, Names, Indexable, EntryOf;
    var after, props2 := RenamedFields(fields, oldName, newName), RenamedProps(props, oldName, newName);
    assert forall k :: k in props2 && k != newName ==> k != oldName && k in props && props2[k] == props[k];
    assert forall k :: k in props && k != newName && k != oldName ==> k in props2;
    IndexedAreNames(fields);
    assert forall k :: k in IndexedNames(fields) - {oldName} ==> k != newName;
  }

  lemma RenameFitsIff(hash: Hash, fields: seq<Field>, typeId: U16, props: Props, oldName: string, newName: string, id: Id)
    requires oldName != newName && newName !in Names(fields) && oldName in Names(fields)
    ensures var props2, indexed := RenamedProps(props, oldName, newName), IsMarked(fields, oldName);
      RenameFits(hash, fields, props, oldName, newName) <==>
        EntriesOf(hash, RenamedFields(fields, oldName, newName), typeId, props2, id)
        == EntriesOf(hash, fields, typeId, props, id) - EntryAt(hash, indexed, typeId, oldName, props, id)
           + EntryAt(hash, indexed, typeId, newName, props2, id)
  {
    var after, props2 := RenamedFields(fields, oldName, newName), RenamedProps(props, oldName, newName);
    RenameNames(fields, oldName, newName);
    RenameOthers(hash, fields, typeId, props, oldName, newName, id);
    EntriesSplit(hash, fields, typeId, oldName, props, id);
    EntriesSplit(hash, after, typeId, newName, props2, id);
    assert oldName in props ==> props2[newName] == props[oldName];
    assert newName in props2 <==> oldName in props;
    if oldName in props && Indexable(props[oldName]) {
      SharesIff(hash, fields, typeId, oldName, props, props[oldName], id);
    }
    hide EntriesOf, OtherEntries, IndexedNames, Names, RenamedFields, RenamedProps, SharesEntry, Indexable, IsMarked;
  }

  lemma RenameUnique(hash: Hash, fields: Fields, views: map<Id, View>, typeId: U16, oldName: string, newName: string)
    requires UniqueOk(hash, fields, views) && typeId in fields
    requires oldName != newName && newName !in Names(fields[typeId]) && oldName in Names(fields[typeId])
    ensures UniqueOk(hash, fields[typeId := RenamedFields(fields[typeId], oldName, newName)], RenamedNodes(views, typeId, oldName, newName))
  {
    var after, target := RenamedFields(fields[typeId], oldName, newName), RenamedNodes(views, typeId, oldName, newName);
    RenameNames(fields[typeId], oldName, newName);
    hide SameKeyed, RenamedFields, Indexable, RenamedProps, Names, IndexedNames, IsMarked;
    forall a, b, g | a in target && b in target && a != b && target[a].typeId == target[b].typeId
                     && g in FieldsOf(fields[typeId := after], target[a].typeId) && g.unique
      ensures Differ(hash, target, g.name, a, b)
    {
      if target[a].typeId == typeId {
        var f :| f in fields[typeId] && (g == f || (f.name == oldName && g == f.(name := newName)));
        FieldHasName(fields[typeId], f);
        assert Differ(hash, views, f.name, a, b);
        RenamedValue(views[a].props, oldName, newName, f.name);
        RenamedValue(views[b].props, oldName, newName, f.name);
      } else {
        assert Differ(hash, views, g.name, a, b);
      }
    }
  }

  lemma FieldHasName(fields: seq<Field>, f: Field)
    requires f in fields
    ensures f.name in Names(fields)
  {
  }

  /** A field's value stands under its name, or under the new one. */
  lemma RenamedValue(props: Props, oldName: string, newName: string, name: string)
    requires oldName != newName && name != newName
    ensures var after, name2 := RenamedProps(props, oldName, newName), if name == oldName then newName else name;
      && (name2 in after <==> name in props) && (name in props ==> after[name2] == props[name])
      && oldName !in after
  {
  }

  /** Every node of the type fits its renamed field. */
  ghost predicate AllRenamesFit(hash: Hash, fields: seq<Field>, views: map<Id, View>, typeId: U16, oldName: string, newName: string) {
    forall n :: n in views && views[n].typeId == typeId ==> RenameFits(hash, fields, views[n].props, oldName, newName)
  }

  /** If the index was right before the rename, it is right after it exactly when every node fits. */
  lemma RenamedIndexIff(hash: Hash, fields: Fields, views: map<Id, View>, typeId: U16, oldName: string, newName: string,
                        index0: set<Entry>, index: set<Entry>)
    requires typeId in fields && oldName != newName && newName !in Names(fields[typeId]) && oldName in Names(fields[typeId])
    requires IndexOk(hash, fields, views, index0)
    requires Exchanged(RenamePlan(hash, views, typeId, oldName, newName, IsMarked(fields[typeId], oldName)), views.Keys, index0, index)
    ensures IndexOk(hash, fields[typeId := RenamedFields(fields[typeId], oldName, newName)], RenamedNodes(views, typeId, oldName, newName), index)
      <==> AllRenamesFit(hash, fields[typeId], views, typeId, oldName, newName)
  {
    var fields2 := fields[typeId := RenamedFields(fields[typeId], oldName, newName)];
    var plan := RenamePlan(hash, views, typeId, oldName, newName, IsMarked(fields[typeId], oldName));
    RenameIsPlan(hash, views, typeId, oldName, newName, IsMarked(fields[typeId], oldName));
    hide *;
    ExchangeFitsIff(hash, fields, fields2, plan, views, index0, index);
    forall n | n in views
      ensures (EntriesOfView(hash, fields2, plan.target[n], n) == EntriesOfView(hash, fields, views[n], n) - plan.gone[n] + plan.more[n])
        <==> (views[n].typeId == typeId ==> RenameFits(hash, fields[typeId], views[n].props, oldName, newName))
    {
      RenameFitsNode(hash, fields, views, typeId, oldName, newName, n);
    }
    AllRenamesFitMeans(hash, fields[typeId], views, typeId, oldName, newName);
  }

  lemma AllRenamesFitMeans(hash: Hash, fields: seq<Field>, views: map<Id, View>, typeId: U16, oldName: string, newName: string)
    ensures AllRenamesFit(hash, fields, views, typeId, oldName, newName) <==>
      forall n :: n in views && views[n].typeId == typeId ==> RenameFits(hash, fields, views[n].props, oldName, newName)
  {
  }

  lemma RenameFitsNode(hash: Hash, fields: Fields, views: map<Id, View>, typeId: U16, oldName: string, newName: string, n: Id)
    requires typeId in fields && oldName != newName && newName !in Names(fields[typeId]) && oldName in Names(fields[typeId])
    requires n in views
    ensures var fields2 := fields[typeId := RenamedFields(fields[typeId], oldName, newName)];
      var plan := RenamePlan(hash, views, typeId, oldName, newName, IsMarked(fields[typeId], oldName));
      && n in plan.target && n in plan.gone && n in plan.more
      && ((EntriesOfView(hash, fields2, plan.target[n], n) == EntriesOfView(hash, fields, views[n], n) - plan.gone[n] + plan.more[n])
        <==> (views[n].typeId == typeId ==> RenameFits(hash, fields[typeId], views[n].props, oldName, newName)))
  {
    RenamePlanAt(hash, views, typeId, oldName, newName, IsMarked(fields[typeId], oldName), n);
    hide EntriesOf, Names, RenameFits, RenamedFields, RenamedProps, IsMarked, EntryAt, RenamePlan;
    if views[n].typeId == typeId {
      RenameFitsIff(hash, fields[typeId], typeId, views[n].props, oldName, newName, n);
    }
  }

  /** No type declares a field twice, and the hashes tell its indexed fields apart. */
  ghost predicate FieldsApart(hash: Hash, fields: seq<Field>) {
    && (forall f, g :: f in fields && g in fields && f.name == g.name ==> f == g)
    && PathsDiffer(hash, fields)
  }

  lemma MarkedIfApart(hash: Hash, fields: seq<Field>, name: string)
    requires FieldsApart(hash, fields) && FieldNamed(fields, name).Some?
    ensures IsMarked(fields, name) <==> name in IndexedNames(fields)
    ensures FieldNamed(fields, name).value.unique <==> IsUnique(fields, name)
  {
    FieldNamedIs(fields, name);
  }

  /** Then every record fits. */
  lemma ApartFits(hash: Hash, fields: seq<Field>, views: map<Id, View>, typeId: U16, oldName: string, newName: string)
    requires FieldsApart(hash, fields) && oldName in Names(fields)
    ensures AllRenamesFit(hash, fields, views, typeId, oldName, newName)
  {
    FieldNamedIs(fields, oldName);
    MarkedIfApart(hash, fields, oldName);
    hide FieldsApart, IsMarked, Names, IndexedNames, SharesEntry, PathsDiffer;
    forall n | n in views && views[n].typeId == typeId ensures RenameFits(hash, fields, views[n].props, oldName, newName) {
      if oldName in views[n].props {
        ApartShareNothing(hash, fields, views[n].props, oldName, views[n].props[oldName]);
      }
    }
  }

  lemma ApartShareNothing(hash: Hash, fields: seq<Field>, props: Props, name: string, v: Value)
    requires FieldsApart(hash, fields)
    ensures name in IndexedNames(fields) ==> !SharesEntry(hash, fields, props, name, v)
  {
    SharesIff(hash, fields, 0, name, props, v, 0);
  }

  /** Two names with the same hash and the same value share an entry, which renaming one of them takes from
      the other; and where a name is declared twice, only the first mark is looked at. */
  lemma RenameMisses(hash: Hash, j: string, k: string, newName: string, v: Value)
    requires j != k && hash.path(j) == hash.path(k) && hash.path(newName) != hash.path(j) && Indexable(v)
    ensures var text := Scalar(StringType);
      && !RenameFits(hash, [Field(j, text, true, false), Field(k, text, true, false)], map[j := v, k := v], j, newName)
      && !RenameFits(hash, [Field(j, text, false, false), Field(j, text, true, false)], map[j := v], j, newName)
  {
    var text := Scalar(StringType);
    var shared := [Field(j, text, true, false), Field(k, text, true, false)];
    var twice := [Field(j, text, false, false), Field(j, text, true, false)];
    assert shared[1] in shared && k in IndexedNames(shared) - {j};
    assert SharedWith(hash, map[j := v, k := v], j, v, k);
    assert twice[1] in twice && j in IndexedNames(twice);
    assert IndexedNames(twice) - {j} == {};
  }

  /** Renames a field of a node type. It fails, and changes nothing, exactly when the type or the field
      is unknown, the new name is taken, or the schema with it would not parse again. Where the index was
      right it is right afterwards if and only if the entries of every node fit, as they do when the
      fields are apart. */
  method RenameNodeField(db: Database, typeId: U16, oldName: string, newName: string, parses: Schema -> bool) returns (r: Result<()>)
    requires db.Consistent()
    modifies db, db.records
    ensures db.Consistent() && db.records.Edges() == old(db.records.Edges())
    ensures var names := Names(FieldsOf(old(db.NodeFields()), typeId));
      r == if oldName in names
              && (oldName == newName || (newName !in names && parses(Renamed(old(db.schema), typeId, oldName, newName).value)))
           then Ok(()) else Err(SchemaError)
    ensures r.Err? || oldName == newName ==>
      db.schema == old(db.schema) && db.records.Nodes() == old(db.records.Nodes()) && db.index == old(db.index)
    ensures r.Ok? && oldName != newName ==>
      var fields, views := FieldsOf(old(db.NodeFields()), typeId), old(db.records.Nodes());
      && OnlyType(old(db.schema), db.schema, typeId)
      && FirstBecomes(fields, FieldsOf(db.NodeFields(), typeId), oldName, newName, None)
      && db.schema == Renamed(old(db.schema), typeId, oldName, newName)
      && db.records.Nodes() == RenamedNodes(views, typeId, oldName, newName)
      && MovesField(views, db.records.Nodes(), typeId, oldName, newName)
      && Exchanged(RenamePlan(db.hash, views, typeId, oldName, newName, IsMarked(fields, oldName)), views.Keys, old(db.index), db.index)
      && (old(db.IndexFits()) ==> (db.IndexFits() <==> AllRenamesFit(db.hash, fields, views, typeId, oldName, newName)))
    ensures old(db.UniqueFits()) ==> db.UniqueFits()
    ensures old(db.Valid()) && FieldsApart(db.hash, FieldsOf(old(db.NodeFields()), typeId)) ==> db.Valid()
  {
    hide Database.Consistent, RecordStore.Nodes, RecordStore.Edges, PathsDiffer, RenamedNodes, RenamedFields, IndexedNames, FieldsApart,
      AllRenamesFit, IndexOk, UniqueOk, Exchanged, RenamePlan, IsMarked, FirstBecomes, MovesField;
    if db.schema.None? || typeId !in db.schema.value.nodes {
      return Err(SchemaError);
    }
    var before := db.schema.value;
    var fields := before.nodes[typeId];
    FieldNamedIs(fields, oldName);
    var position := Position(fields, oldName);
    if position == |fields| {
      return Err(SchemaError);
    }
    if oldName == newName {
      return Ok(());
    }
    if newName in Names(fields) {
      return Err(SchemaError);
    }
    var after := RenamedFields(fields, oldName, newName);
    if !parses(before.(nodes := before.nodes[typeId := after])) {
      return Err(SchemaError);
    }
    ghost var views, index0 := db.records.Nodes(), db.index;
    if db.UniqueFits() {
      RenameUnique(db.hash, before.nodes, views, typeId, oldName, newName);
    }
    if FieldsApart(db.hash, fields) {
      ApartFits(db.hash, fields, views, typeId, oldName, newName);
    }
    IsMarkedAt(fields, oldName);
    RenamedIs(db.schema, typeId, oldName, newName);
    RenamedMoves(views, typeId, oldName, newName);
    RenameFieldRecords(db, typeId, oldName, newName, fields[position].HasIndex());
    if IndexOk(db.hash, before.nodes, views, index0) {
      RenamedIndexIff(db.hash, before.nodes, views, typeId, oldName, newName, index0, db.index);
    }
    r := Ok(());
  }

  lemma IsMarkedAt(fields: seq<Field>, name: string)
    ensures var p := Position(fields, name); IsMarked(fields, name) == (p < |fields| && fields[p].HasIndex())
  {
  }

  /** Saves the schema with the new name, and renames the field in every node of the type. */
  method RenameFieldRecords(db: Database, typeId: U16, oldName: string, newName: string, indexed: bool)
    requires db.Consistent() && db.schema.Some? && typeId in db.schema.value.nodes && oldName != newName
    modifies db, db.records
    ensures db.Consistent() && db.records.Edges() == old(db.records.Edges())
    ensures db.schema == Renamed(old(db.schema), typeId, oldName, newName)
    ensures db.records.Nodes() == RenamedNodes(old(db.records.Nodes()), typeId, oldName, newName)
    ensures Exchanged(RenamePlan(db.hash, old(db.records.Nodes()), typeId, oldName, newName, indexed), old(db.records.Nodes()).Keys,
                      old(db.index), db.index)
  {
    hide RecordStore.Valid, RecordStore.Nodes, RecordStore.Edges, LabelsOk, Partly, RenamePlan, RenamedNodes, RenamedFields, EachOnce,
      EdgesNormal, IsPlan, Carries, Exchanged;
    var before := db.schema.value;
    ghost var views0, index0 := db.records.Nodes(), db.index;
    ghost var plan := RenamePlan(db.hash, views0, typeId, oldName, newName, indexed);
    RenameIsPlan(db.hash, views0, typeId, oldName, newName, indexed);
    PartlyBegins(plan, views0, index0);
    var ids := db.RidsOfType(typeId);
    OfTypeCarry(views0, typeId);
    db.schema := Some(before.(nodes := before.nodes[typeId := RenamedFields(before.nodes[typeId], oldName, newName)]));
    ghost var done: set<Id> := {};
    for i := 0 to |ids|
      invariant db.records.Valid() && db.records.Edges() == old(db.records.Edges()) && db.labels == old(db.labels)
      invariant db.schema == Renamed(old(db.schema), typeId, oldName, newName)
      invariant Partly(plan, views0, index0, done, db.records.Nodes(), db.index)
      invariant forall n :: n in done <==> n in ids[..i] && n in views0 && views0[n].typeId == typeId
    {
      var id := ids[i];
      NotBefore(ids, i);
      PartlyKeeps(plan, views0, index0, done, db.records.Nodes(), db.index);
      var view := db.records.Nodes()[id];
      if view.typeId == typeId {
        RenameRecord(db, typeId, id, oldName, newName, indexed, views0, index0, done);
        done := done + {id};
      }
    }
    assert ids[..|ids|] == ids;
    RenameLeaves(db.hash, views0, typeId, oldName, newName, indexed);
    PartlyEnds(plan, views0, index0, done, db.records.Nodes(), db.index);
    LabelsStay(views0, plan.target, db.labels);
  }

  /** Nodes of other types are left alone; types and labels stay. */
  lemma RenameLeaves(hash: Hash, views: map<Id, View>, typeId: U16, oldName: string, newName: string, indexed: bool)
    ensures var plan := RenamePlan(hash, views, typeId, oldName, newName, indexed);
      && plan.target == RenamedNodes(views, typeId, oldName, newName) && plan.target.Keys == views.Keys
      && (forall n :: n in views ==> plan.target[n].typeId == views[n].typeId && plan.target[n].labels == views[n].labels)
      && (forall n :: n in views && views[n].typeId != typeId ==> plan.target[n] == views[n] && plan.gone[n] == plan.more[n] == {})
  {
    hide RenamedProps, EntryAt;
  }

  /** Moves the value of one record, and its index entry. A value that stands under the new name already
      is dropped: no declared field owns it. */
  method RenameRecord(db: Database, typeId: U16, id: Id, oldName: string, newName: string, indexed: bool,
                      ghost views0: map<Id, View>, ghost index0: set<Entry>, ghost done: set<Id>)
    requires db.records.Valid() && id in db.records.Nodes() && id !in done && db.records.Nodes()[id].typeId == typeId
    requires oldName != newName
    requires Partly(RenamePlan(db.hash, views0, typeId, oldName, newName, indexed), views0, index0, done, db.records.Nodes(), db.index)
    modifies db`index, db.records
    ensures db.records.Valid() && db.records.Edges() == old(db.records.Edges())
    ensures Partly(RenamePlan(db.hash, views0, typeId, oldName, newName, indexed), views0, index0, done + {id}, db.records.Nodes(), db.index)
  {
    hide RecordStore.Valid, RecordStore.Nodes, RecordStore.Edges, Partly, RenamePlan, RenamedProps, EntryOf, Indexable;
    RenameStep(db.hash, views0, index0, done, db.records.Nodes(), db.index, id, typeId, oldName, newName, indexed);
    var props := db.records.Nodes()[id].props;
    if oldName in props || newName in props {
      if oldName in props && indexed && Indexable(props[oldName]) {
        db.index := db.index - {EntryOf(db.hash, typeId, oldName, props[oldName], id)};
        db.index := db.index + {EntryOf(db.hash, typeId, newName, props[oldName], id)};
      }
      db.records.Replace(NodeProps(id), Properties(RenamedProps(props, oldName, newName)));
    }
  }

  lemma RenameStep(hash: Hash, views0: map<Id, View>, index0: set<Entry>, done: set<Id>, views: map<Id, View>, index: set<Entry>,
                   id: Id, typeId: U16, oldName: string, newName: string, indexed: bool)
    requires Partly(RenamePlan(hash, views0, typeId, oldName, newName, indexed), views0, index0, done, views, index)
    requires id in views && id !in done && views[id].typeId == typeId && oldName != newName
    ensures var plan, props := RenamePlan(hash, views0, typeId, oldName, newName, indexed), views[id].props;
      var view2 := views[id].(props := RenamedProps(props, oldName, newName));
      if oldName in props && indexed && Indexable(props[oldName])
      then Partly(plan, views0, index0, done + {id}, views[id := view2],
                  index - {EntryOf(hash, typeId, oldName, props[oldName], id)} + {EntryOf(hash, typeId, newName, props[oldName], id)})
      else && Partly(plan, views0, index0, done + {id}, views[id := view2], index)
           && (oldName !in props && newName !in props ==> views[id := view2] == views)
  {
    var plan := RenamePlan(hash, views0, typeId, oldName, newName, indexed);
    RenameIsPlan(hash, views0, typeId, oldName, newName, indexed);
    PartlyNext(plan, views0, index0, done, views, index, id);
    var props := views[id].props;
    RenamePlanAt(hash, views0, typeId, oldName, newName, indexed, id);
    hide Partly, IsPlan, RenamePlan, EntryAt, RenamedProps, Indexable, EntryOf;
    EntryRenamed(hash, indexed, typeId, props, oldName, newName, index, id);
    NothingRenamed(props, oldName, newName);
    if oldName !in props && newName !in props {
      assert views[id := views[id]] == views;
    }
  }

  lemma EntryRenamed(hash: Hash, indexed: bool, typeId: U16, props: Props, oldName: string, newName: string, index: set<Entry>, id: Id)
    requires oldName != newName
    ensures index - EntryAt(hash, indexed, typeId, oldName, props, id)
            + EntryAt(hash, indexed, typeId, newName, RenamedProps(props, oldName, newName), id)
      == if oldName in props && indexed && Indexable(props[oldName])
         then index - {EntryOf(hash, typeId, oldName, props[oldName], id)} + {EntryOf(hash, typeId, newName, props[oldName], id)}
         else index
  {
    RenamedValue(props, oldName, newName, oldName);
    NothingRenamed(props, oldName, newName);
    hide Indexable, EntryOf, RenamedProps;
    assert index - {} + {} == index;
  }

  lemma NothingRenamed(props: Props, oldName: string, newName: string)
    ensures oldName !in props ==> newName !in RenamedProps(props, oldName, newName)
    ensures oldName !in props && newName !in props ==> RenamedProps(props, oldName, newName) == props
  {
  }

  // ---- Type change ----

  datatype OnFailure = Reject | SetNull

  datatype FieldTypeChange = FieldTypeChange(applied: bool, converted: nat, failed: nat, failedRecords: seq<Id>)

  const MAX_REPORTED_FAILURES := 100

  function TypeFromName(name: string): Option<ScalarType> {
    match name
    case "String" => Some(StringType)
    case "Int" => Some(IntType)
    case "Float" => Some(FloatType)
    case "Boolean" => Some(BooleanType)
    case "DateTime" => Some(DateTimeType)
    case _ => None
  }

  /** Any pair of scalar types with String on one side, and Int with Float. */
  predicate ConversionSupported(from: FieldType, to: ScalarType) {
    from.Scalar? && (from.ty.StringType? || to.StringType? || (from.ty.IntType? && to.FloatType?) || (from.ty.FloatType? && to.IntType?))
  }

  /** The name of a type, as error messages give it. */
  function TypeName(ty: ScalarType): string {
    match ty
    case StringType => "String"
    case IntType => "Int"
    case FloatType => "Float"
    case BooleanType => "Boolean"
    case DateTimeType => "DateTime"
  }

  /** A type is requested by its name. */
  lemma TypeNames(name: string, ty: ScalarType)
    ensures TypeFromName(name) == Some(ty) <==> name == TypeName(ty)
    ensures TypeFromName(name).Some? ==> name == TypeName(TypeFromName(name).value)
  {
    assert "String"[0] == 'S' && "Int"[0] == 'I' && "Float"[0] == 'F' && "Boolean"[0] == 'B' && "DateTime"[0] == 'D';
  }

  /** What can be changed to what: a string on one side, or two different number types. */
  lemma SupportedIff(from: FieldType, to: ScalarType)
    ensures ConversionSupported(from, to) <==>
      from.Scalar? && (TypeName(from.ty) == "String" || TypeName(to) == "String"
                       || (from.ty != to && TypeName(from.ty) in ["Int", "Float"] && TypeName(to) in ["Int", "Float"]))
  {
    assert "String"[0] == 'S' && "Int"[0] == 'I' && "Float"[0] == 'F' && "Boolean"[0] == 'B' && "DateTime"[0] == 'D';
  }

  predicate NonNull(props: Props, name: string) {
    name in props && props[name] != Null
  }

  /** The converted value, or null where there is none. */
  function Converted(text: Text, v: Value, to: ScalarType): Value {
    var r := ConvertValue(text, v, to);
    if r.Some? then r.value else Null
  }

  function ConvertedProps(text: Text, props: Props, name: string, to: ScalarType): Props {
    if NonNull(props, name) then props[name := Converted(text, props[name], to)] else props
  }

  function ConvertedNodes(text: Text, views: map<Id, View>, typeId: U16, name: string, to: ScalarType): map<Id, View> {
    map n | n in views ::
      if views[n].typeId == typeId then views[n].(props := ConvertedProps(text, views[n].props, name, to)) else views[n]
  }

  /** The node belongs to the type and has a value that can be, or cannot be, converted. */
  predicate Converts(text: Text, view: View, typeId: U16, name: string, to: ScalarType, can: bool) {
    view.typeId == typeId && NonNull(view.props, name) && ConvertValue(text, view.props[name], to).Some? == can
  }

  function Converting(text: Text, views: map<Id, View>, typeId: U16, name: string, to: ScalarType, can: bool): set<Id> {
    set n | n in views && Converts(text, views[n], typeId, name, to, can)
  }

  function HavingValue(views: map<Id, View>, typeId: U16, name: string): set<Id> {
    set n | n in views && views[n].typeId == typeId && NonNull(views[n].props, name)
  }

  /** Those among the given ids. */
  function Among(views: map<Id, View>, typeId: U16, ids: seq<Id>): set<Id> {
    set n | n in ids && n in views && views[n].typeId == typeId
  }

  function ConvertingAmong(text: Text, views: map<Id, View>, typeId: U16, name: string, to: ScalarType, can: bool, ids: seq<Id>): set<Id> {
    set n | n in ids && n in views && Converts(text, views[n], typeId, name, to, can)
  }

  lemma AmongNext(views: map<Id, View>, typeId: U16, ids: seq<Id>, i: nat)
    requires EachOnce(ids) && i < |ids| && ids[i] in views
    ensures var before := Among(views, typeId, ids[..i]);
      ids[i] !in before
      && Among(views, typeId, ids[..i+1]) == if views[ids[i]].typeId == typeId then before + {ids[i]} else before
  {
    NotBefore(ids, i);
    hide EachOnce;
  }

  lemma ConvertingNext(text: Text, views: map<Id, View>, typeId: U16, name: string, to: ScalarType, can: bool, ids: seq<Id>, i: nat)
    requires EachOnce(ids) && i < |ids| && ids[i] in views
    ensures |ConvertingAmong(text, views, typeId, name, to, can, ids[..i+1])|
      == |ConvertingAmong(text, views, typeId, name, to, can, ids[..i])|
         + if Converts(text, views[ids[i]], typeId, name, to, can) then 1 else 0
  {
    NotBefore(ids, i);
    hide Converts, EachOnce;
    var before, after := ConvertingAmong(text, views, typeId, name, to, can, ids[..i]),
                         ConvertingAmong(text, views, typeId, name, to, can, ids[..i+1]);
    var yes := Converts(text, views[ids[i]], typeId, name, to, can);
    assert ids[i] !in before && forall n :: n in after <==> n in before || (n == ids[i] && yes);
    hide ConvertingAmong;
    OneMore(before, after, ids[i], yes);
  }

  lemma OneMore(before: set<Id>, after: set<Id>, id: Id, yes: bool)
    requires id !in before && forall n :: n in after <==> n in before || (n == id && yes)
    ensures |after| == |before| + if yes then 1 else 0
  {
    if yes {
      assert after == before + {id};
    } else {
      assert after == before;
    }
  }

  lemma AmongAll(text: Text, views: map<Id, View>, typeId: U16, name: string, to: ScalarType, can: bool, ids: seq<Id>)
    requires forall id: Id :: id in ids <==> id in views && Carries(views[id], typeId)
    ensures ConvertingAmong(text, views, typeId, name, to, can, ids) == Converting(text, views, typeId, name, to, can)
    ensures Among(views, typeId, []) == {} && ConvertingAmong(text, views, typeId, name, to, can, []) == {}
    ensures forall n :: n in Among(views, typeId, ids) <==> n in views && views[n].typeId == typeId
    ensures ids[..|ids|] == ids
  {
    OfTypeCarry(views, typeId);
    hide Carries;
  }

  /** Converted and failed values are all the non-null values of the type. */
  lemma ConvertedAndFailed(text: Text, views: map<Id, View>, typeId: U16, name: string, to: ScalarType)
    ensures |Converting(text, views, typeId, name, to, true)| + |Converting(text, views, typeId, name, to, false)|
            == |HavingValue(views, typeId, name)|
  {
    var yes, no := Converting(text, views, typeId, name, to, true), Converting(text, views, typeId, name, to, false);
    assert yes + no == HavingValue(views, typeId, name) && yes !! no;
  }

  /** Two nodes of the type end up with non-null values that the index takes for equal. */
  ghost predicate Clash(hash: Hash, text: Text, views: map<Id, View>, typeId: U16, name: string, to: ScalarType) {
    exists a, b :: a != b && Collide(hash, text, views, typeId, name, to, a, b)
  }

  predicate Collide(hash: Hash, text: Text, views: map<Id, View>, typeId: U16, name: string, to: ScalarType, a: Id, b: Id) {
    && a in views && b in views && views[a].typeId == typeId && views[b].typeId == typeId
    && NonNull(views[a].props, name) && NonNull(views[b].props, name)
    && var x, y := ConvertValue(text, views[a].props[name], to), ConvertValue(text, views[b].props[name], to);
       x.Some? && y.Some? && SameKeyed(hash, x.value, y.value)
  }

  /** Only the first field with the name changes its type. */
  function Retyped(fields: seq<Field>, name: string, to: ScalarType): seq<Field> {
    var p := Position(fields, name);
    if p < |fields| then fields[p := fields[p].(ty := Scalar(to))] else fields
  }

  function RetypedSchema(schema: Schema, typeId: U16, name: string, to: ScalarType): Schema {
    if typeId !in schema.nodes then schema
    else schema.(nodes := schema.nodes[typeId := Retyped(schema.nodes[typeId], name, to)])
  }

  /** A converted value that equals the stored one is the stored one. */
  lemma ConvertedSame(text: Text, v: Value, to: ScalarType)
    requires v != Null
    ensures Same(Converted(text, v, to), v) <==> Converted(text, v, to) == v
    ensures ConvertValue(text, v, to).Some? <==> Converted(text, v, to) != Null
    ensures ConvertValue(text, v, to).Some? ==> Indexable(Converted(text, v, to))
  {
    ConvertedFits(text, v, to);
    SameOrZeros(Converted(text, v, to), v);
  }

  /** The field has the new type, with its name and its marks. */
  lemma RetypedIs(schema: Schema, typeId: U16, name: string, to: ScalarType)
    requires typeId in schema.nodes && FieldNamed(schema.nodes[typeId], name).Some?
    ensures var schema2 := RetypedSchema(schema, typeId, name, to);
      && OnlyType(Some(schema), Some(schema2), typeId) && typeId in schema2.nodes
      && FirstBecomes(schema.nodes[typeId], schema2.nodes[typeId], name, name, Some(to))
  {
    var fields := schema.nodes[typeId];
    FirstIsAt(fields, name);
    var p := Position(fields, name);
    assert 0 <= p < |fields| && fields[p].name == name;
  }

  /** Of the type's nodes, every value under the name that is not null is the converted one, or null where
      there is none, and nothing else changes. */
  ghost predicate ConvertsField(text: Text, views: map<Id, View>, views2: map<Id, View>, typeId: U16, name: string, to: ScalarType) {
    && views2.Keys == views.Keys
    && forall n :: n in views ==>
         && views2[n].typeId == views[n].typeId && views2[n].labels == views[n].labels
         && views2[n].props.Keys == views[n].props.Keys
         && forall k :: k in views[n].props ==> views2[n].props[k] == NewValue(text, views[n], typeId, name, to, k)
  }

  function NewValue(text: Text, view: View, typeId: U16, name: string, to: ScalarType, k: string): Value
    requires k in view.props
  {
    if view.typeId != typeId || k != name || view.props[k].Null? then view.props[k]
    else
      match ConvertValue(text, view.props[k], to)
      case Some(v) => v
      case None => Null
  }

  lemma ConvertedConverts(text: Text, views: map<Id, View>, typeId: U16, name: string, to: ScalarType)
    ensures ConvertsField(text, views, ConvertedNodes(text, views, typeId, name, to), typeId, name, to)
  {
    hide ConvertValue;
  }

  /** Every value under the name is one that the type accepts. */
  ghost predicate AllAccepted(views: map<Id, View>, typeId: U16, name: string, to: ScalarType) {
    forall n :: n in views && views[n].typeId == typeId && name in views[n].props ==>
      ValueMatches(views[n].props[name], Scalar(to))
  }

  lemma ConvertedAccepted(text: Text, views: map<Id, View>, typeId: U16, name: string, to: ScalarType)
    ensures AllAccepted(ConvertedNodes(text, views, typeId, name, to), typeId, name, to)
  {
    hide ValueMatches, ConvertValue;
    var target := ConvertedNodes(text, views, typeId, name, to);
    forall n | n in target && target[n].typeId == typeId && name in target[n].props
      ensures ValueMatches(target[n].props[name], Scalar(to))
    {
      NullIsAccepted(to);
      if NonNull(views[n].props, name) && ConvertValue(text, views[n].props[name], to).Some? {
        ConvertedIsAccepted(text, views[n].props[name], to);
      }
    }
  }

  lemma NullIsAccepted(to: ScalarType)
    ensures ValueMatches(Null, Scalar(to))
  {
  }

  predicate SameMarks(f: Field, g: Field) {
    f.name == g.name && f.indexed == g.indexed && f.unique == g.unique
  }

  lemma RetypedNames(fields: seq<Field>, name: string, to: ScalarType)
    ensures IndexedNames(Retyped(fields, name, to)) == IndexedNames(fields)
    ensures forall k :: IsUnique(Retyped(fields, name, to), k) <==> IsUnique(fields, k)
  {
    var after := Retyped(fields, name, to);
    forall f | f in fields ensures exists g :: g in after && SameMarks(f, g) {
      var i :| 0 <= i < |fields| && fields[i] == f;
      assert after[i] in after && SameMarks(f, after[i]);
    }
    forall g | g in after ensures exists f :: f in fields && SameMarks(f, g) {
      var i :| 0 <= i < |after| && after[i] == g;
      assert fields[i] in fields && SameMarks(fields[i], g);
    }
  }

  /** A field of the name is unique. */
  predicate IsUnique(fields: seq<Field>, name: string) {
    exists f :: f in fields && f.unique && f.name == name
  }

  /** The record's value is not the converted one yet. */
  predicate IsToConvert(text: Text, view: View, typeId: U16, name: string, to: ScalarType) {
    view.typeId == typeId && NonNull(view.props, name) && Converted(text, view.props[name], to) != view.props[name]
  }

  /** The nodes with the value converted; the entries of changed values follow if the first field of the name
      is indexed. */
  function ConvertPlan(hash: Hash, text: Text, views: map<Id, View>, typeId: U16, name: string, to: ScalarType, indexed: bool): Plan {
    Plan(ConvertedNodes(text, views, typeId, name, to),
         map n | n in views ::
           if IsToConvert(text, views[n], typeId, name, to) then EntryAt(hash, indexed, typeId, name, views[n].props, n) else {},
         map n | n in views ::
           if IsToConvert(text, views[n], typeId, name, to)
           then EntryAt(hash, indexed, typeId, name, ConvertedProps(text, views[n].props, name, to), n) else {})
  }

  lemma ConvertPlanAt(hash: Hash, text: Text, views: map<Id, View>, typeId: U16, name: string, to: ScalarType, indexed: bool, n: Id)
    requires n in views
    ensures var plan, props := ConvertPlan(hash, text, views, typeId, name, to, indexed), views[n].props;
      && n in plan.target && n in plan.gone && n in plan.more
      && if IsToConvert(text, views[n], typeId, name, to)
         then var props2 := props[name := Converted(text, props[name], to)];
              && plan.target[n] == views[n].(props := props2)
              && plan.gone[n] == EntryAt(hash, indexed, typeId, name, props, n)
              && plan.more[n] == EntryAt(hash, indexed, typeId, name, props2, n)
         else plan.target[n] == views[n] && plan.gone[n] == plan.more[n] == {}
  {
    hide Converted, EntryAt;
    if views[n].typeId == typeId && NonNull(views[n].props, name) && !IsToConvert(text, views[n], typeId, name, to) {
      assert views[n].props[name := views[n].props[name]] == views[n].props;
    }
  }

  lemma ConvertIsPlan(hash: Hash, text: Text, views: map<Id, View>, typeId: U16, name: string, to: ScalarType, indexed: bool)
    ensures var plan := ConvertPlan(hash, text, views, typeId, name, to, indexed);
      IsPlan(plan, views) && plan.target == ConvertedNodes(text, views, typeId, name, to)
  {
    var plan := ConvertPlan(hash, text, views, typeId, name, to, indexed);
    hide ConvertedProps, EntryAt, IsToConvert;
    forall n | n in views ensures AllOf(plan.gone[n], n) && AllOf(plan.more[n], n) {
      EntryAtOwn(hash, indexed, typeId, name, views[n].props, n);
      EntryAtOwn(hash, indexed, typeId, name, ConvertedProps(text, views[n].props, name, to), n);
    }
    hide AllOf;
  }

  /** The entries of a record fit its converted field: no other indexed field shares the entry that is taken
      away, unless the same entry comes back; and if the first field of the name is not indexed but a
      later one is, the entries that stay and that are missing are those of other fields, or the same. */
  predicate ConvertFits(hash: Hash, text: Text, fields: seq<Field>, props: Props, name: string, to: ScalarType) {
    NonNull(props, name) && Converted(text, props[name], to) != props[name] ==>
      var v, v2 := props[name], Converted(text, props[name], to);
      var same := Indexable(v) && Indexable(v2) && hash.value(Encode(v)) == hash.value(Encode(v2));
      if IsMarked(fields, name)
      then Indexable(v) ==> same || !SharesEntry(hash, fields, props, name, v)
      else name in IndexedNames(fields) ==>
        && (Indexable(v) ==> same || SharesEntry(hash, fields, props, name, v))
        && (Indexable(v2) ==> same || SharesEntry(hash, fields, props, name, v2))
  }

  lemma MarkedIsIndexed(fields: seq<Field>, name: string)
    ensures IsMarked(fields, name) ==> name in IndexedNames(fields)
    ensures FieldNamed(fields, name).Some? && FieldNamed(fields, name).value.unique ==> IsMarked(fields, name) && IsUnique(fields, name)
  {
    FieldNamedIs(fields, name);
  }

  lemma ConvertFitsIff(hash: Hash, text: Text, fields: seq<Field>, typeId: U16, props: Props, name: string, to: ScalarType, id: Id)
    requires NonNull(props, name) && Converted(text, props[name], to) != props[name]
    ensures var props2, indexed := ConvertedProps(text, props, name, to), IsMarked(fields, name);
      ConvertFits(hash, text, fields, props, name, to) <==>
        EntriesOf(hash, Retyped(fields, name, to), typeId, props2, id)
        == EntriesOf(hash, fields, typeId, props, id) - EntryAt(hash, indexed, typeId, name, props, id)
           + EntryAt(hash, indexed, typeId, name, props2, id)
  {
    var props2, v, v2 := ConvertedProps(text, props, name, to), props[name], Converted(text, props[name], to);
    RetypedNames(fields, name, to);
    MarkedIsIndexed(fields, name);
    EntriesSplit(hash, fields, typeId, name, props, id);
    EntriesSplit(hash, Retyped(fields, name, to), typeId, name, props2, id);
    SharesIff(hash, fields, typeId, name, props, v, id);
    SharesIff(hash, fields, typeId, name, props, v2, id);
    OthersStay(hash, fields, Retyped(fields, name, to), typeId, name, props, v2, id);
    hide EntriesOf, OtherEntries, IndexedNames, Retyped, Converted, SharesEntry, Indexable, IsMarked;
    OneForAnother(OtherEntries(hash, fields, typeId, name, props, id), EntryOf(hash, typeId, name, v, id), EntryOf(hash, typeId, name, v2, id),
                  IsMarked(fields, name), name in IndexedNames(fields), Indexable(v), Indexable(v2));
  }

  /** Putting one entry in place of another among others. */
  lemma OneForAnother<T>(rest: set<T>, e: T, e2: T, marked: bool, indexed: bool, scalar: bool, scalar2: bool)
    requires marked ==> indexed
    ensures var left := rest + (if indexed && scalar then {e} else {}) - (if marked && scalar then {e} else {})
                        + (if marked && scalar2 then {e2} else {});
      var needed := rest + (if indexed && scalar2 then {e2} else {});
      left == needed <==>
        if marked then scalar ==> (scalar2 && e == e2) || e !in rest
        else indexed ==> && (scalar ==> (scalar2 && e == e2) || e in rest)
                         && (scalar2 ==> (scalar && e == e2) || e2 in rest)
  {
    var left := rest + (if indexed && scalar then {e} else {}) - (if marked && scalar then {e} else {})
                + (if marked && scalar2 then {e2} else {});
    var needed := rest + (if indexed && scalar2 then {e2} else {});
    if left == needed {
      assert e in left <==> e in needed;
      assert e2 in left <==> e2 in needed;
    }
  }

  lemma OthersStay(hash: Hash, fields: seq<Field>, fields2: seq<Field>, typeId: U16, name: string, props: Props, v: Value, id: Id)
    requires IndexedNames(fields2) == IndexedNames(fields)
    ensures OtherEntries(hash, fields2, typeId, name, props[name := v], id) == OtherEntries(hash, fields, typeId, name, props, id)
  {
    hide IndexedNames, Indexable, EntryOf;
  }

  /** Every node of the type fits its converted field. */
  ghost predicate AllConversionsFit(hash: Hash, text: Text, fields: seq<Field>, views: map<Id, View>, typeId: U16, name: string, to: ScalarType) {
    forall n :: n in views && views[n].typeId == typeId ==> ConvertFits(hash, text, fields, views[n].props, name, to)
  }

  /** If the index was right before the change, it is right after it exactly when every node fits. */
  lemma ConvertedIndexIff(hash: Hash, text: Text, fields: Fields, views: map<Id, View>, typeId: U16, name: string, to: ScalarType,
                          index0: set<Entry>, index: set<Entry>)
    requires typeId in fields && IndexOk(hash, fields, views, index0)
    requires Exchanged(ConvertPlan(hash, text, views, typeId, name, to, IsMarked(fields[typeId], name)), views.Keys, index0, index)
    ensures IndexOk(hash, fields[typeId := Retyped(fields[typeId], name, to)], ConvertedNodes(text, views, typeId, name, to), index)
      <==> AllConversionsFit(hash, text, fields[typeId], views, typeId, name, to)
  {
    var fields2 := fields[typeId := Retyped(fields[typeId], name, to)];
    var plan := ConvertPlan(hash, text, views, typeId, name, to, IsMarked(fields[typeId], name));
    ConvertIsPlan(hash, text, views, typeId, name, to, IsMarked(fields[typeId], name));
    hide *;
    ExchangeFitsIff(hash, fields, fields2, plan, views, index0, index);
    forall n | n in views
      ensures (EntriesOfView(hash, fields2, plan.target[n], n) == EntriesOfView(hash, fields, views[n], n) - plan.gone[n] + plan.more[n])
        <==> (views[n].typeId == typeId ==> ConvertFits(hash, text, fields[typeId], views[n].props, name, to))
    {
      ConvertFitsNode(hash, text, fields, views, typeId, name, to, n);
    }
    AllConversionsFitMeans(hash, text, fields[typeId], views, typeId, name, to);
  }

  lemma AllConversionsFitMeans(hash: Hash, text: Text, fields: seq<Field>, views: map<Id, View>, typeId: U16, name: string, to: ScalarType)
    ensures AllConversionsFit(hash, text, fields, views, typeId, name, to) <==>
      forall n :: n in views && views[n].typeId == typeId ==> ConvertFits(hash, text, fields, views[n].props, name, to)
  {
  }

  lemma ConvertFitsNode(hash: Hash, text: Text, fields: Fields, views: map<Id, View>, typeId: U16, name: string, to: ScalarType, n: Id)
    requires typeId in fields && n in views
    ensures var fields2 := fields[typeId := Retyped(fields[typeId], name, to)];
      var plan := ConvertPlan(hash, text, views, typeId, name, to, IsMarked(fields[typeId], name));
      n in plan.target && n in plan.gone && n in plan.more
      && ((EntriesOfView(hash, fields2, plan.target[n], n) == EntriesOfView(hash, fields, views[n], n) - plan.gone[n] + plan.more[n])
        <==> (views[n].typeId == typeId ==> ConvertFits(hash, text, fields[typeId], views[n].props, name, to)))
  {
    ConvertPlanAt(hash, text, views, typeId, name, to, IsMarked(fields[typeId], name), n);
    NothingToFit(hash, text, fields[typeId], views[n], typeId, name, to);
    hide EntriesOf, Retyped, Converted, IsMarked, EntryAt, ConvertPlan, ConvertFits;
    var props := views[n].props;
    if views[n].typeId == typeId {
      if IsToConvert(text, views[n], typeId, name, to) {
        ConvertFitsIff(hash, text, fields[typeId], typeId, props, name, to, n);
      } else {
        RetypedEntries(hash, fields[typeId], typeId, props, name, to, n);
      }
    }
  }

  lemma NothingToFit(hash: Hash, text: Text, fields: seq<Field>, view: View, typeId: U16, name: string, to: ScalarType)
    ensures view.typeId == typeId && !IsToConvert(text, view, typeId, name, to) ==> ConvertFits(hash, text, fields, view.props, name, to)
  {
    hide Converted;
  }

  lemma RetypedEntries(hash: Hash, fields: seq<Field>, typeId: U16, props: Props, name: string, to: ScalarType, id: Id)
    ensures EntriesOf(hash, Retyped(fields, name, to), typeId, props, id) == EntriesOf(hash, fields, typeId, props, id)
  {
    RetypedNames(fields, name, to);
    EntriesByName(hash, fields, typeId, props, id);
    EntriesByName(hash, Retyped(fields, name, to), typeId, props, id);
  }

  /** Every record fits when the fields are apart. */
  lemma ApartConvert(hash: Hash, text: Text, fields: seq<Field>, views: map<Id, View>, typeId: U16, name: string, to: ScalarType)
    requires FieldsApart(hash, fields) && FieldNamed(fields, name).Some?
    ensures AllConversionsFit(hash, text, fields, views, typeId, name, to)
  {
    MarkedIfApart(hash, fields, name);
    hide FieldsApart, IsMarked, IndexedNames, SharesEntry, Converted;
    forall n | n in views && views[n].typeId == typeId ensures ConvertFits(hash, text, fields, views[n].props, name, to) {
      if name in views[n].props {
        ApartShareNothing(hash, fields, views[n].props, name, views[n].props[name]);
      }
    }
  }

  /** If the unique fields were unique before the change, they are after it exactly when no two values of a
      unique field become the same. */
  lemma ConvertedUniqueIff(hash: Hash, text: Text, fields: Fields, views: map<Id, View>, typeId: U16, name: string, to: ScalarType)
    requires UniqueOk(hash, fields, views) && typeId in fields
    ensures UniqueOk(hash, fields[typeId := Retyped(fields[typeId], name, to)], ConvertedNodes(text, views, typeId, name, to))
      <==> (IsUnique(fields[typeId], name) ==> !Clash(hash, text, views, typeId, name, to))
  {
    hide UniqueOk, Retyped, ConvertedNodes, Clash;
    if IsUnique(fields[typeId], name) ==> !Clash(hash, text, views, typeId, name, to) {
      NoClashUnique(hash, text, fields, views, typeId, name, to);
    } else if UniqueOk(hash, fields[typeId := Retyped(fields[typeId], name, to)], ConvertedNodes(text, views, typeId, name, to)) {
      RetypedNames(fields[typeId], name, to);
      NoClashLeft(hash, text, fields[typeId := Retyped(fields[typeId], name, to)], views, typeId, name, to);
    }
  }

  lemma NoClashUnique(hash: Hash, text: Text, fields: Fields, views: map<Id, View>, typeId: U16, name: string, to: ScalarType)
    requires UniqueOk(hash, fields, views) && typeId in fields
    requires IsUnique(fields[typeId], name) ==> !Clash(hash, text, views, typeId, name, to)
    ensures UniqueOk(hash, fields[typeId := Retyped(fields[typeId], name, to)], ConvertedNodes(text, views, typeId, name, to))
  {
    var fields2, target := fields[typeId := Retyped(fields[typeId], name, to)], ConvertedNodes(text, views, typeId, name, to);
    RetypedNames(fields[typeId], name, to);
    ConvertedTypes(text, views, typeId, name, to);
    hide Retyped, ConvertedNodes, SameKeyed, Indexable, Collide, UniqueOk, IsUnique, Clash;
    forall a, b, f | a in target && b in target && a != b && target[a].typeId == target[b].typeId
                     && f in FieldsOf(fields2, target[a].typeId) && f.unique
      ensures Differ(hash, target, f.name, a, b)
    {
      var t := views[a].typeId;
      FieldIsUnique(FieldsOf(fields2, t), f);
      assert IsUnique(FieldsOf(fields, t), f.name);
      UniqueDiffer(hash, fields, views, f.name, a, b);
      NoCollision(hash, text, views, typeId, name, to, a, b);
      ConvertedDiffer(hash, text, views, typeId, name, to, f.name, a, b);
    }
    UniqueIfDiffer(hash, fields2, target);
  }

  lemma FieldIsUnique(fields: seq<Field>, f: Field)
    requires f in fields && f.unique
    ensures IsUnique(fields, f.name)
  {
  }

  lemma UniqueDiffer(hash: Hash, fields: Fields, views: map<Id, View>, name: string, a: Id, b: Id)
    requires UniqueOk(hash, fields, views) && a in views && b in views && a != b && views[a].typeId == views[b].typeId
    requires IsUnique(FieldsOf(fields, views[a].typeId), name)
    ensures Differ(hash, views, name, a, b)
  {
    var g :| g in FieldsOf(fields, views[a].typeId) && g.unique && g.name == name;
    assert Differ(hash, views, g.name, a, b);
  }

  lemma NoCollision(hash: Hash, text: Text, views: map<Id, View>, typeId: U16, name: string, to: ScalarType, a: Id, b: Id)
    ensures !Clash(hash, text, views, typeId, name, to) && a != b ==> !Collide(hash, text, views, typeId, name, to, a, b)
  {
  }

  lemma ConvertedDiffer(hash: Hash, text: Text, views: map<Id, View>, typeId: U16, name: string, to: ScalarType, k: string, a: Id, b: Id)
    requires a in views && b in views && a != b && views[a].typeId == views[b].typeId && Differ(hash, views, k, a, b)
    requires k == name && views[a].typeId == typeId ==> !Collide(hash, text, views, typeId, name, to, a, b)
    ensures Differ(hash, ConvertedNodes(text, views, typeId, name, to), k, a, b)
  {
    hide ConvertValue;
    if k == name && views[a].typeId == typeId {
      if NonNull(views[a].props, name) && NonNull(views[b].props, name) {
        ConvertedSame(text, views[a].props[name], to);
        ConvertedSame(text, views[b].props[name], to);
      }
    }
  }

  /** Uniqueness depends on names and marks only. */
  lemma RetypedUnique(hash: Hash, fields: Fields, views: map<Id, View>, typeId: U16, name: string, to: ScalarType)
    requires UniqueOk(hash, fields, views) && typeId in fields
    ensures UniqueOk(hash, fields[typeId := Retyped(fields[typeId], name, to)], views)
  {
  }

  /** One value changes; no other node of the type holds it in the field, if the field is unique. */
  lemma UniqueStep(hash: Hash, fields: Fields, views: map<Id, View>, id: Id, name: string, v: Value)
    requires UniqueOk(hash, fields, views) && id in views
    requires (exists f :: f in FieldsOf(fields, views[id].typeId) && f.unique && f.name == name) && Indexable(v) ==>
      HeldByNone(hash, views, views[id].typeId, name, v, id)
    ensures UniqueOk(hash, fields, views[id := views[id].(props := views[id].props[name := v])])
  {
  }

  /** In an index that was right at first, and has followed the plan, another node that holds the value of an
      indexed field is a candidate. */
  lemma HolderIsFound(hash: Hash, text: Text, fields: Fields, views0: map<Id, View>, index0: set<Entry>, done: set<Id>,
                      views: map<Id, View>, index: set<Entry>, remains: Remains, typeId: U16, name: string, to: ScalarType, v: Value, m: Id)
    requires Partly(ConvertPlan(hash, text, views0, typeId, name, to, true), views0, index0, done, views, index)
    requires IndexOk(hash, fields, views0, index0) && name in IndexedNames(FieldsOf(fields, typeId)) && Indexable(v)
    requires m in views && views[m].typeId == typeId && name in views[m].props && SameKeyed(hash, views[m].props[name], v)
    ensures Found(hash, views, remains, index, typeId, name, v, m)
  {
    EntryFollows(hash, text, fields, views0, index0, done, views, index, typeId, name, to, m);
    hide Partly, ConvertPlan, IndexOk, IndexedNames;
  }

  /** The entry of a live record's value is in the index. */
  lemma EntryFollows(hash: Hash, text: Text, fields: Fields, views0: map<Id, View>, index0: set<Entry>, done: set<Id>,
                     views: map<Id, View>, index: set<Entry>, typeId: U16, name: string, to: ScalarType, m: Id)
    requires Partly(ConvertPlan(hash, text, views0, typeId, name, to, true), views0, index0, done, views, index)
    requires IndexOk(hash, fields, views0, index0) && name in IndexedNames(FieldsOf(fields, typeId))
    requires m in views && views[m].typeId == typeId && name in views[m].props && Indexable(views[m].props[name])
    ensures EntryOf(hash, typeId, name, views[m].props[name], m) in index
  {
    ConvertPlanAt(hash, text, views0, typeId, name, to, true, m);
    hide Converted, ConvertPlan, EntryOf, Indexable, IndexedNames, EntriesOfView;
    if !(m in done && IsToConvert(text, views0[m], typeId, name, to)) {
      hide IsToConvert;
      assert views[m].props == views0[m].props && views0[m].typeId == typeId;
      EntryStands(hash, fields, views0[m], name, m);
    }
  }

  lemma EntryStands(hash: Hash, fields: Fields, view: View, name: string, m: Id)
    requires name in IndexedNames(FieldsOf(fields, view.typeId)) && name in view.props && Indexable(view.props[name])
    ensures EntryOf(hash, view.typeId, name, view.props[name], m) in EntriesOfView(hash, fields, view, m)
  {
  }

  /** And every candidate is live; if the hashes tell the field names apart, it is such a node. */
  lemma FoundIsHolder(hash: Hash, text: Text, fields: Fields, views0: map<Id, View>, index0: set<Entry>, done: set<Id>,
                      views: map<Id, View>, index: set<Entry>, remains: Remains, typeId: U16, name: string, to: ScalarType, v: Value, m: Id)
    requires Partly(ConvertPlan(hash, text, views0, typeId, name, to, true), views0, index0, done, views, index)
    requires IndexOk(hash, fields, views0, index0) && name in IndexedNames(FieldsOf(fields, typeId))
    ensures EntryOf(hash, typeId, name, v, m) in index ==> m in views
    ensures Found(hash, views, remains, index, typeId, name, v, m) && PathsDiffer(hash, FieldsOf(fields, typeId)) ==>
      m in views && views[m].typeId == typeId && name in views[m].props && SameKeyed(hash, views[m].props[name], v)
  {
    var e := EntryOf(hash, typeId, name, v, m);
    if e in index {
      EntryWasThere(hash, text, fields, views0, index0, done, views, index, typeId, name, to, v, m);
      hide Partly, ConvertPlan, IndexOk, IndexedNames, PathsDiffer;
    }
  }

  /** The entry is that of the record's value. */
  lemma EntryWasThere(hash: Hash, text: Text, fields: Fields, views0: map<Id, View>, index0: set<Entry>, done: set<Id>,
                      views: map<Id, View>, index: set<Entry>, typeId: U16, name: string, to: ScalarType, v: Value, m: Id)
    requires Partly(ConvertPlan(hash, text, views0, typeId, name, to, true), views0, index0, done, views, index)
    requires IndexOk(hash, fields, views0, index0) && name in IndexedNames(FieldsOf(fields, typeId))
    requires EntryOf(hash, typeId, name, v, m) in index
    ensures m in views
    ensures PathsDiffer(hash, FieldsOf(fields, typeId)) ==>
      views[m].typeId == typeId && name in views[m].props && hash.value(Encode(views[m].props[name])) == hash.value(Encode(v))
  {
    var e := EntryOf(hash, typeId, name, v, m);
    if m in views0 {
      ConvertPlanAt(hash, text, views0, typeId, name, to, true, m);
    } else {
      PlanKeys(hash, text, views0, typeId, name, to, true);
    }
    hide Converted, ConvertPlan, Encode;
    if e in index0 && PathsDiffer(hash, FieldsOf(fields, typeId)) {
      EntryNames(hash, FieldsOf(fields, typeId), typeId, name, views0[m].props, v, m);
    }
  }

  lemma PlanKeys(hash: Hash, text: Text, views: map<Id, View>, typeId: U16, name: string, to: ScalarType, indexed: bool)
    ensures var plan := ConvertPlan(hash, text, views, typeId, name, to, indexed);
      plan.target.Keys == plan.gone.Keys == plan.more.Keys == views.Keys
  {
    hide ConvertedProps, EntryAt, IsToConvert;
  }

  /** With different name hashes an entry of the field is that of the field's value. */
  lemma EntryNames(hash: Hash, fields: seq<Field>, typeId: U16, name: string, props: Props, v: Value, id: Id)
    requires PathsDiffer(hash, fields) && name in IndexedNames(fields)
    requires EntryOf(hash, typeId, name, v, id) in EntriesOf(hash, fields, typeId, props, id)
    ensures name in props && Indexable(props[name]) && EntryOf(hash, typeId, name, props[name], id) == EntryOf(hash, typeId, name, v, id)
  {
    NamesDiffer(hash, fields);
    var f :| f in fields && f.HasIndex() && f.name in props && Indexable(props[f.name])
             && EntryOf(hash, typeId, name, v, id) == EntryOf(hash, typeId, f.name, props[f.name], id);
    assert f.name in IndexedNames(fields);
  }

  /** A node that holds a converted value, converted already or not, keeps it. */
  lemma HolderKeeps(hash: Hash, text: Text, views0: map<Id, View>, typeId: U16, name: string, to: ScalarType, id: Id, m: Id, view: View)
    requires id in views0 && Converts(text, views0[id], typeId, name, to, true)
    requires m in views0 && (view == views0[m] || view == ConvertedNodes(text, views0, typeId, name, to)[m])
    requires view.typeId == typeId && name in view.props && SameKeyed(hash, view.props[name], Converted(text, views0[id].props[name], to))
    ensures Collide(hash, text, views0, typeId, name, to, id, m)
  {
    var nv := Converted(text, views0[id].props[name], to);
    ConvertedFits(text, views0[id].props[name], to);
    ConvertedSame(text, views0[id].props[name], to);
    assert nv != Null && Fits(nv, to);
    assert view.props[name] != Null && Fits(view.props[name], to);
    ConvertedFits(text, view.props[name], to);
    if NonNull(views0[m].props, name) {
      ConvertedFits(text, views0[m].props[name], to);
    }
  }

  /** Looks among the candidates of the new value's key for another record that holds it. */
  method FindClash(db: Database, typeId: U16, name: string, v: Value, id: Id, remains: Remains) returns (r: Result<Option<Id>>)
    ensures var views := db.records.Nodes();
      match r
      case Ok(Some(m)) => m != id && Found(db.hash, views, remains, db.index, typeId, name, v, m)
      case Ok(None) => forall m :: m != id ==> !Found(db.hash, views, remains, db.index, typeId, name, v, m)
      case Err(e) => exists m :: m != id && Unread(db.hash, views, remains, db.index, typeId, name, v, m) && remains(m) == Err(e)
  {
    hide RecordStore.Nodes, Same, EntryOf;
    var candidates := db.Candidates(typeId, name, v);
    for i := 0 to |candidates|
      invariant forall m :: m in candidates[..i] && m != id ==> !Found(db.hash, db.records.Nodes(), remains, db.index, typeId, name, v, m)
    {
      var other := candidates[i];
      assert other in candidates && candidates[..i+1] == candidates[..i] + [other];
      if other != id {
        var props := ReadAt(db.records.Nodes(), remains, other);
        if props.Err? {
          assert Unread(db.hash, db.records.Nodes(), remains, db.index, typeId, name, v, other);
          return Err(props.error);
        }
        if name in props.value && Same(props.value[name], v) {
          return Ok(Some(other));
        }
      }
    }
    assert candidates[..|candidates|] == candidates;
    r := Ok(None);
  }

  lemma ConvertedTypes(text: Text, views: map<Id, View>, typeId: U16, name: string, to: ScalarType)
    ensures var target := ConvertedNodes(text, views, typeId, name, to);
      && target.Keys == views.Keys
      && (forall n :: n in views ==> target[n].typeId == views[n].typeId && target[n].labels == views[n].labels)
      && (forall n :: n in views && views[n].typeId != typeId ==> target[n] == views[n])
  {
  }

  /** The database while the values of a type are being converted. */
  ghost predicate Midway(db: Database, plan: Plan, views0: map<Id, View>, index0: set<Entry>, edges: map<Id, EdgeView>, done: set<Id>)
    reads db, db.records
  {
    && db.records.Valid() && db.records.Edges() == edges
    && Partly(plan, views0, index0, done, db.records.Nodes(), db.index)
  }

  predicate HeldByNone(hash: Hash, views: map<Id, View>, typeId: U16, name: string, v: Value, id: Id) {
    forall m :: m in views && m != id && views[m].typeId == typeId && name in views[m].props ==>
      !SameKeyed(hash, views[m].props[name], v)
  }

  /** Another record holds the value, or a candidate for it cannot be read. */
  ghost predicate Hindered(hash: Hash, views: map<Id, View>, remains: Remains, index: set<Entry>, typeId: U16, name: string, v: Value,
                           id: Id, e: GraphError) {
    exists m :: m != id && HinderedBy(hash, views, remains, index, typeId, name, v, m, e)
  }

  predicate HinderedBy(hash: Hash, views: map<Id, View>, remains: Remains, index: set<Entry>, typeId: U16, name: string, v: Value,
                       m: Id, e: GraphError) {
    || (e == UniqueViolation && Found(hash, views, remains, index, typeId, name, v, m))
    || (Unread(hash, views, remains, index, typeId, name, v, m) && remains(m) == Err(e))
  }

  /** Moves the index entry of a changed value, unless the field is unique and the value taken. */
  method MoveEntry(db: Database, typeId: U16, id: Id, name: string, oldValue: Value, newValue: Value, unique: bool, remains: Remains)
    returns (r: Result<()>)
    modifies db`index
    ensures var views := db.records.Nodes();
      match r
      case Err(e) => unique && Indexable(newValue) && Hindered(db.hash, views, remains, old(db.index), typeId, name, newValue, id, e)
      case Ok(_) =>
        && db.index == old(db.index) - (if Indexable(oldValue) then {EntryOf(db.hash, typeId, name, oldValue, id)} else {})
                       + (if Indexable(newValue) then {EntryOf(db.hash, typeId, name, newValue, id)} else {})
        && (unique && Indexable(newValue) ==>
              forall m :: m != id ==> !Found(db.hash, views, remains, old(db.index), typeId, name, newValue, m))
  {
    hide RecordStore.Nodes, Indexable, Found, Unread;
    OthersFound(db.hash, db.records.Nodes(), remains, db.index, typeId, name, oldValue, newValue, id);
    if Indexable(oldValue) {
      db.index := db.index - {EntryOf(db.hash, typeId, name, oldValue, id)};
    }
    if Indexable(newValue) {
      if unique {
        var clash := FindClash(db, typeId, name, newValue, id, remains);
        if clash.Err? {
          var m :| m != id && Unread(db.hash, db.records.Nodes(), remains, db.index, typeId, name, newValue, m) && remains(m) == Err(clash.error);
          assert HinderedBy(db.hash, db.records.Nodes(), remains, old(db.index), typeId, name, newValue, m, clash.error);
          return Err(clash.error);
        }
        if clash.value.Some? {
          assert HinderedBy(db.hash, db.records.Nodes(), remains, old(db.index), typeId, name, newValue, clash.value.value, UniqueViolation);
          return Err(UniqueViolation);
        }
      }
      db.index := db.index + {EntryOf(db.hash, typeId, name, newValue, id)};
    }
    r := Ok(());
  }

  /** Taking away an entry of one record does not matter for the others. */
  lemma OthersFound(hash: Hash, views: map<Id, View>, remains: Remains, index: set<Entry>, typeId: U16, name: string, v: Value, w: Value, id: Id)
    ensures forall m {:trigger Found(hash, views, remains, index, typeId, name, w, m)}
                      {:trigger Found(hash, views, remains, index - {EntryOf(hash, typeId, name, v, id)}, typeId, name, w, m)} ::
      m != id ==> (Found(hash, views, remains, index - {EntryOf(hash, typeId, name, v, id)}, typeId, name, w, m)
                   <==> Found(hash, views, remains, index, typeId, name, w, m))
    ensures forall m :: Unread(hash, views, remains, index - {EntryOf(hash, typeId, name, v, id)}, typeId, name, w, m) ==>
      Unread(hash, views, remains, index, typeId, name, w, m)
  {
    hide Same, ReadAt;
  }

  /** Why a conversion stops: if the index was right, because two values of a unique field become equal;
      the entries may take a value under another name for one of the field unless the names hash apart. */
  ghost predicate Stops(hash: Hash, text: Text, fields: Fields, views0: map<Id, View>, index0: set<Entry>, typeId: U16, name: string,
                        to: ScalarType, remains: (Id, Id) -> Result<Props>, e: GraphError) {
    && (e == UniqueViolation || exists id, m :: remains(id, m) == Err(e))
    && (IndexOk(hash, fields, views0, index0) ==>
          e == UniqueViolation && (PathsDiffer(hash, FieldsOf(fields, typeId)) ==> Clash(hash, text, views0, typeId, name, to)))
  }

  /** What reading the slot of a record that is not live gives while record `id` is converted. */
  function RemainsAt(remains: (Id, Id) -> Result<Props>, id: Id): Remains {
    (m: Id) => remains(id, m)
  }

  /** Converts the field in one node and moves its index entry; a clash in a unique field is reported. */
  method ConvertRecord(db: Database, text: Text, typeId: U16, id: Id, name: string, to: ScalarType, indexed: bool, unique: bool,
                       remains: (Id, Id) -> Result<Props>, ghost fields: Fields, ghost views0: map<Id, View>, ghost index0: set<Entry>,
                       ghost edges: map<Id, EdgeView>, ghost done: set<Id>)
    returns (r: Result<()>)
    requires Midway(db, ConvertPlan(db.hash, text, views0, typeId, name, to, indexed), views0, index0, edges, done)
    requires unique ==> indexed && name in IndexedNames(FieldsOf(fields, typeId))
    requires id in db.records.Nodes() && id !in done && db.records.Nodes()[id].typeId == typeId
    requires NonNull(db.records.Nodes()[id].props, name)
    modifies db`index, db.records
    ensures db.records.Valid() && db.records.Edges() == edges
    ensures r.Ok? ==>
      && Midway(db, ConvertPlan(db.hash, text, views0, typeId, name, to, indexed), views0, index0, edges, done + {id})
      && (unique && IndexOk(db.hash, fields, views0, index0) && UniqueOk(db.hash, fields, old(db.records.Nodes())) ==>
            UniqueOk(db.hash, fields, db.records.Nodes()))
    ensures r.Err? ==> unique && Stops(db.hash, text, fields, views0, index0, typeId, name, to, remains, r.error)
  {
    hide RecordStore.Valid, RecordStore.Nodes, RecordStore.Edges, UniqueOk, Partly, ConvertPlan, EntryOf, IndexedNames, Same, SameKeyed,
      Converted, ConvertValue, HeldByNone, IndexOk, Found, Hindered, Stops, RemainsAt, PathsDiffer;
    ghost var views, index := db.records.Nodes(), db.index;
    var view := db.records.Nodes()[id];
    var oldValue := view.props[name];
    ConvertedSame(text, oldValue, to);
    ConvertStep(db.hash, text, views0, index0, done, views, index, id, typeId, name, to, indexed);
    var newValue := Converted(text, oldValue, to);
    if Same(newValue, oldValue) {
      return Ok(());
    }
    if indexed {
      var moved := MoveEntry(db, typeId, id, name, oldValue, newValue, unique, RemainsAt(remains, id));
      if moved.Err? {
        HinderedStops(db.hash, text, fields, views0, index0, done, views, index, typeId, name, to, id, remains, moved.error);
        return moved;
      }
      if unique && Indexable(newValue) && IndexOk(db.hash, fields, views0, index0) {
        assert views == db.records.Nodes();
        NoneHolds(db.hash, text, fields, views0, index0, done, views, index, RemainsAt(remains, id), typeId, name, to, newValue, id);
      }
    }
    if unique && IndexOk(db.hash, fields, views0, index0) && UniqueOk(db.hash, fields, views) {
      UniqueStep(db.hash, fields, views, id, name, newValue);
    }
    db.records.Replace(NodeProps(id), Properties(view.props[name := newValue]));
    r := Ok(());
  }

  lemma NoneHolds(hash: Hash, text: Text, fields: Fields, views0: map<Id, View>, index0: set<Entry>, done: set<Id>,
                  views: map<Id, View>, index: set<Entry>, remains: Remains, typeId: U16, name: string, to: ScalarType, v: Value, id: Id)
    requires Partly(ConvertPlan(hash, text, views0, typeId, name, to, true), views0, index0, done, views, index)
    requires IndexOk(hash, fields, views0, index0) && name in IndexedNames(FieldsOf(fields, typeId)) && Indexable(v)
    requires forall m :: m != id ==> !Found(hash, views, remains, index, typeId, name, v, m)
    ensures HeldByNone(hash, views, typeId, name, v, id)
  {
    hide Partly, ConvertPlan, IndexOk, IndexedNames, Indexable, Found, SameKeyed;
    forall m | m in views && m != id && views[m].typeId == typeId && name in views[m].props && SameKeyed(hash, views[m].props[name], v)
      ensures false
    {
      HolderIsFound(hash, text, fields, views0, index0, done, views, index, remains, typeId, name, to, v, m);
    }
  }

  lemma HinderedStops(hash: Hash, text: Text, fields: Fields, views0: map<Id, View>, index0: set<Entry>, done: set<Id>,
                      views: map<Id, View>, index: set<Entry>, typeId: U16, name: string, to: ScalarType, id: Id,
                      remains: (Id, Id) -> Result<Props>, e: GraphError)
    requires Partly(ConvertPlan(hash, text, views0, typeId, name, to, true), views0, index0, done, views, index)
    requires name in IndexedNames(FieldsOf(fields, typeId)) && id in views && id !in done && views[id].typeId == typeId
    requires NonNull(views[id].props, name) && Converted(text, views[id].props[name], to) != Null
    requires Hindered(hash, views, RemainsAt(remains, id), index, typeId, name, Converted(text, views[id].props[name], to), id, e)
    ensures Stops(hash, text, fields, views0, index0, typeId, name, to, remains, e)
  {
    hide Partly, ConvertPlan, IndexOk, IndexedNames, Converted, Found, Unread, Clash, PathsDiffer, SameKeyed;
    var v := Converted(text, views[id].props[name], to);
    var m :| m != id && HinderedBy(hash, views, RemainsAt(remains, id), index, typeId, name, v, m, e);
    if e != UniqueViolation {
      assert remains(id, m) == Err(e);
    }
    if IndexOk(hash, fields, views0, index0) {
      FoundIsHolder(hash, text, fields, views0, index0, done, views, index, RemainsAt(remains, id), typeId, name, to, v, m);
      UnreadIsDead(hash, views, RemainsAt(remains, id), index, typeId, name, v, m);
      if PathsDiffer(hash, FieldsOf(fields, typeId)) {
        ClashFound(hash, text, views0, index0, done, views, index, typeId, name, to, id, m);
      }
    }
  }

  lemma UnreadIsDead(hash: Hash, views: map<Id, View>, remains: Remains, index: set<Entry>, typeId: U16, name: string, v: Value, m: Id)
    ensures Unread(hash, views, remains, index, typeId, name, v, m) ==> EntryOf(hash, typeId, name, v, m) in index && m !in views
  {
  }

  lemma ConvertStep(hash: Hash, text: Text, views0: map<Id, View>, index0: set<Entry>, done: set<Id>,
                    views: map<Id, View>, index: set<Entry>, id: Id, typeId: U16, name: string, to: ScalarType, indexed: bool)
    requires Partly(ConvertPlan(hash, text, views0, typeId, name, to, indexed), views0, index0, done, views, index)
    requires id in views && id !in done && views[id].typeId == typeId
    ensures var plan, props := ConvertPlan(hash, text, views0, typeId, name, to, indexed), views[id].props;
      if IsToConvert(text, views[id], typeId, name, to)
      then var v, v2 := props[name], Converted(text, props[name], to);
           Partly(plan, views0, index0, done + {id}, views[id := views[id].(props := props[name := v2])],
                  if indexed
                  then index - (if Indexable(v) then {EntryOf(hash, typeId, name, v, id)} else {})
                       + (if Indexable(v2) then {EntryOf(hash, typeId, name, v2, id)} else {})
                  else index)
      else Partly(plan, views0, index0, done + {id}, views, index)
  {
    var plan := ConvertPlan(hash, text, views0, typeId, name, to, indexed);
    ConvertIsPlan(hash, text, views0, typeId, name, to, indexed);
    PartlyNext(plan, views0, index0, done, views, index, id);
    ConvertPlanAt(hash, text, views0, typeId, name, to, indexed, id);
    hide Partly, Indexable, EntryOf, EntryAt, IsPlan, Converted, ConvertPlan, IsToConvert, NonNull;
    if IsToConvert(text, views[id], typeId, name, to) {
      IsNonNull(text, views[id], typeId, name, to);
      EntryMoved(hash, indexed, typeId, name, views[id].props, Converted(text, views[id].props[name], to), index, id);
    }
  }

  lemma IsNonNull(text: Text, view: View, typeId: U16, name: string, to: ScalarType)
    ensures IsToConvert(text, view, typeId, name, to) ==> name in view.props
  {
  }

  lemma EntryMoved(hash: Hash, indexed: bool, typeId: U16, name: string, props: Props, v2: Value, index: set<Entry>, id: Id)
    requires name in props
    ensures index - EntryAt(hash, indexed, typeId, name, props, id) + EntryAt(hash, indexed, typeId, name, props[name := v2], id)
      == if indexed
         then index - (if Indexable(props[name]) then {EntryOf(hash, typeId, name, props[name], id)} else {})
              + (if Indexable(v2) then {EntryOf(hash, typeId, name, v2, id)} else {})
         else index
  {
    hide Indexable, EntryOf;
    assert index - {} + {} == index;
  }

  lemma ClashFound(hash: Hash, text: Text, views0: map<Id, View>, index0: set<Entry>, done: set<Id>,
                   views: map<Id, View>, index: set<Entry>, typeId: U16, name: string, to: ScalarType, id: Id, m: Id)
    requires Partly(ConvertPlan(hash, text, views0, typeId, name, to, true), views0, index0, done, views, index)
    requires id in views && id !in done && m in views && m != id && views[id].typeId == typeId && views[m].typeId == typeId
    requires NonNull(views[id].props, name) && Converted(text, views[id].props[name], to) != Null
    requires name in views[m].props && SameKeyed(hash, views[m].props[name], Converted(text, views[id].props[name], to))
    ensures Clash(hash, text, views0, typeId, name, to)
  {
    hide Exchanged;
    ConvertedTypes(text, views0, typeId, name, to);
    HolderKeeps(hash, text, views0, typeId, name, to, id, m, views[m]);
    assert Collide(hash, text, views0, typeId, name, to, id, m);
  }

  /** Saves the schema and converts the field in every node of the type; unconvertible values become null.
      After a clash the database is left half converted, for the caller to restore. */
  method ConvertFieldRecords(db: Database, text: Text, typeId: U16, ids: seq<Id>, name: string, to: ScalarType,
                             indexed: bool, unique: bool, remains: (Id, Id) -> Result<Props>) returns (r: Result<nat>)
    requires db.Consistent() && db.schema.Some? && typeId in db.schema.value.nodes
    requires unique ==> indexed && name in IndexedNames(db.schema.value.nodes[typeId])
    requires forall id: Id :: id in ids <==> id in db.records.Nodes() && Carries(db.records.Nodes()[id], typeId)
    requires EachOnce(ids)
    modifies db, db.records
    ensures db.records.Valid() && db.records.Edges() == old(db.records.Edges()) && db.labels == old(db.labels)
    ensures r.Ok? ==>
      && db.Consistent() && db.records.Nodes() == ConvertedNodes(text, old(db.records.Nodes()), typeId, name, to)
      && db.schema == Some(RetypedSchema(old(db.schema).value, typeId, name, to))
      && Exchanged(ConvertPlan(db.hash, text, old(db.records.Nodes()), typeId, name, to, indexed), old(db.records.Nodes()).Keys,
                   old(db.index), db.index)
      && r.value == |Converting(text, old(db.records.Nodes()), typeId, name, to, true)|
      && (unique && old(db.IndexFits()) && old(db.UniqueFits()) ==> UniqueOk(db.hash, old(db.NodeFields()), db.records.Nodes()))
    ensures r.Err? ==>
      unique && Stops(db.hash, text, old(db.NodeFields()), old(db.records.Nodes()), old(db.index), typeId, name, to, remains, r.error)
  {
    hide RecordStore.Valid, RecordStore.Nodes, RecordStore.Edges, LabelsOk, IndexOk, UniqueOk, Partly, Retyped,
      IndexedNames, ConvertValue, Midway, Carries, EachOnce, Among, ConvertingAmong, Converting, ConvertPlan, IsPlan, Stops, Exchanged;
    var before := db.schema.value;
    ghost var fields, views0, index0, edges := before.nodes, db.records.Nodes(), db.index, db.records.Edges();
    ghost var plan := ConvertPlan(db.hash, text, views0, typeId, name, to, indexed);
    ConvertIsPlan(db.hash, text, views0, typeId, name, to, indexed);
    PartlyBegins(plan, views0, index0);
    ghost var tight := unique && IndexOk(db.hash, fields, views0, index0) && UniqueOk(db.hash, fields, views0);
    db.schema := Some(RetypedSchema(before, typeId, name, to));
    MidwayIs(db, plan, views0, index0, edges, {});
    AmongAll(text, views0, typeId, name, to, true, ids);
    assert ids[..0] == [];
    var converted := 0;
    for i := 0 to |ids|
      invariant Midway(db, plan, views0, index0, edges, Among(views0, typeId, ids[..i])) && db.labels == old(db.labels)
      invariant db.schema == Some(RetypedSchema(before, typeId, name, to))
      invariant tight ==> UniqueOk(db.hash, fields, db.records.Nodes())
      invariant converted == |ConvertingAmong(text, views0, typeId, name, to, true, ids[..i])|
    {
      var id := ids[i];
      ghost var done := Among(views0, typeId, ids[..i]);
      MidwayIs(db, plan, views0, index0, edges, done);
      PartlyKeeps(plan, views0, index0, done, db.records.Nodes(), db.index);
      assert id in ids;
      AmongNext(views0, typeId, ids, i);
      ConvertingNext(text, views0, typeId, name, to, true, ids, i);
      var view := db.records.Nodes()[id];
      if view.typeId == typeId {
        if NonNull(view.props, name) {
          if ConvertValue(text, view.props[name], to).Some? {
            converted := converted + 1;
          }
          var ok := ConvertRecord(db, text, typeId, id, name, to, indexed, unique, remains, fields, views0, index0, edges, done);
          if ok.Err? {
            return Err(ok.error);
          }
        } else {
          ConvertStep(db.hash, text, views0, index0, done, db.records.Nodes(), db.index, id, typeId, name, to, indexed);
          MidwayIs(db, plan, views0, index0, edges, done + {id});
        }
      }
    }
    MidwayIs(db, plan, views0, index0, edges, Among(views0, typeId, ids));
    ConvertLeaves(db.hash, text, views0, typeId, name, to, indexed);
    PartlyEnds(plan, views0, index0, Among(views0, typeId, ids), db.records.Nodes(), db.index);
    LabelsStay(views0, plan.target, db.labels);
    r := Ok(converted);
  }

  /** Nodes of other types are left alone; types and labels stay. */
  lemma ConvertLeaves(hash: Hash, text: Text, views: map<Id, View>, typeId: U16, name: string, to: ScalarType, indexed: bool)
    ensures var plan := ConvertPlan(hash, text, views, typeId, name, to, indexed);
      && plan.target == ConvertedNodes(text, views, typeId, name, to) && plan.target.Keys == views.Keys
      && (forall n :: n in views ==> plan.target[n].typeId == views[n].typeId && plan.target[n].labels == views[n].labels)
      && (forall n :: n in views && views[n].typeId != typeId ==> plan.target[n] == views[n] && plan.gone[n] == plan.more[n] == {})
  {
    hide ConvertedProps, EntryAt;
  }

  lemma MidwayIs(db: Database, plan: Plan, views0: map<Id, View>, index0: set<Entry>, edges: map<Id, EdgeView>, done: set<Id>)
    ensures Midway(db, plan, views0, index0, edges, done) <==>
      && db.records.Valid() && db.records.Edges() == edges
      && Partly(plan, views0, index0, done, db.records.Nodes(), db.index)
  {
  }

  /** The ids, in their order, of the records whose value cannot be converted. */
  function Failing(text: Text, views: map<Id, View>, typeId: U16, name: string, to: ScalarType, ids: seq<Id>): (r: seq<Id>)
    ensures forall id :: id in r <==> id in ids && id in views && Converts(text, views[id], typeId, name, to, false)
  {
    if ids == [] then []
    else
      var before, last := Failing(text, views, typeId, name, to, ids[..|ids|-1]), ids[|ids|-1];
      assert ids == ids[..|ids|-1] + [last];
      if last in views && Converts(text, views[last], typeId, name, to, false) then before + [last] else before
  }

  function FirstReported(ids: seq<Id>): seq<Id> {
    if |ids| < MAX_REPORTED_FAILURES then ids else ids[..MAX_REPORTED_FAILURES]
  }

  /** All of them are reported, up to a hundred; the first hundred of more. */
  lemma HundredReported(ids: seq<Id>)
    ensures FirstReported(ids) == if |ids| <= 100 then ids else ids[..100]
  {
  }

  /** They are reported in the order of the walk. */
  lemma {:induction false} FailingInOrder(text: Text, views: map<Id, View>, typeId: U16, name: string, to: ScalarType, ids: seq<Id>, i: nat, j: nat)
    returns (p: nat, q: nat)
    requires i <= j < |Failing(text, views, typeId, name, to, ids)|
    ensures p <= q < |ids| && (i < j ==> p < q)
    ensures ids[p] == Failing(text, views, typeId, name, to, ids)[i] && ids[q] == Failing(text, views, typeId, name, to, ids)[j]
  {
    hide Converts;
    var n := |ids| - 1;
    var before := Failing(text, views, typeId, name, to, ids[..n]);
    if j < |before| {
      p, q := FailingInOrder(text, views, typeId, name, to, ids[..n], i, j);
    } else {
      q := n;
      if i < |before| {
        var q2;
        p, q2 := FailingInOrder(text, views, typeId, name, to, ids[..n], i, i);
      } else {
        p := n;
      }
    }
  }

  /** As many different records as failed, up to the limit, and all of them failing ones. */
  ghost predicate IsReport(text: Text, views: map<Id, View>, typeId: U16, name: string, to: ScalarType, failed: nat, records: seq<Id>) {
    && |records| == (if failed < MAX_REPORTED_FAILURES then failed else MAX_REPORTED_FAILURES)
    && EachOnce(records)
    && forall id :: id in records ==> id in views && Converts(text, views[id], typeId, name, to, false)
  }

  lemma FailingNext(text: Text, views: map<Id, View>, typeId: U16, name: string, to: ScalarType, ids: seq<Id>, i: nat)
    requires i < |ids|
    ensures var before := Failing(text, views, typeId, name, to, ids[..i]);
      Failing(text, views, typeId, name, to, ids[..i+1])
      == if ids[i] in views && Converts(text, views[ids[i]], typeId, name, to, false) then before + [ids[i]] else before
  {
    assert ids[..i+1][..i] == ids[..i];
  }

  lemma {:induction false} FailingOnce(text: Text, views: map<Id, View>, typeId: U16, name: string, to: ScalarType, ids: seq<Id>)
    requires EachOnce(ids)
    ensures Failing(text, views, typeId, name, to, []) == []
    ensures EachOnce(Failing(text, views, typeId, name, to, ids))
    ensures EachOnce(FirstReported(Failing(text, views, typeId, name, to, ids)))
    ensures forall id :: id in FirstReported(Failing(text, views, typeId, name, to, ids)) ==> id in Failing(text, views, typeId, name, to, ids)
  {
    hide Converts;
    if ids != [] {
      NotBefore(ids, |ids| - 1);
      FailingOnce(text, views, typeId, name, to, ids[..|ids|-1]);
    }
  }

  /** Finds the values that cannot be converted: how many, and the first records in the order of the walk. */
  method FindFailures(db: Database, text: Text, typeId: U16, ids: seq<Id>, name: string, to: ScalarType)
    returns (failed: nat, records: seq<Id>)
    requires forall id: Id :: id in ids <==> id in db.records.Nodes() && Carries(db.records.Nodes()[id], typeId)
    requires EachOnce(ids)
    ensures failed == |Converting(text, db.records.Nodes(), typeId, name, to, false)|
    ensures records == FirstReported(Failing(text, db.records.Nodes(), typeId, name, to, ids))
    ensures IsReport(text, db.records.Nodes(), typeId, name, to, failed, records)
  {
    hide RecordStore.Nodes, ConvertValue, EachOnce, Carries, ConvertingAmong, Converting, Failing, RecordStore.Valid, IsReport;
    ghost var views := db.records.Nodes();
    AmongAll(text, views, typeId, name, to, false, ids);
    FailingOnce(text, views, typeId, name, to, ids);
    failed, records := 0, [];
    assert ids[..0] == [];
    for i := 0 to |ids|
      invariant failed == |ConvertingAmong(text, views, typeId, name, to, false, ids[..i])|
      invariant failed == |Failing(text, views, typeId, name, to, ids[..i])|
      invariant records == FirstReported(Failing(text, views, typeId, name, to, ids[..i]))
    {
      var id := ids[i];
      assert id in ids;
      FailingNext(text, views, typeId, name, to, ids, i);
      ConvertingNext(text, views, typeId, name, to, false, ids, i);
      var view := db.records.Nodes()[id];
      if view.typeId == typeId && NonNull(view.props, name) {
        if ConvertValue(text, view.props[name], to).None? {
          failed := failed + 1;
          if |records| < MAX_REPORTED_FAILURES {
            records := records + [id];
          }
        }
      }
    }
    ReportIs(text, views, typeId, name, to, ids, failed);
  }

  lemma ReportIs(text: Text, views: map<Id, View>, typeId: U16, name: string, to: ScalarType, ids: seq<Id>, failed: nat)
    requires EachOnce(ids) && failed == |Failing(text, views, typeId, name, to, ids)|
    ensures IsReport(text, views, typeId, name, to, failed, FirstReported(Failing(text, views, typeId, name, to, ids)))
  {
    FailingOnce(text, views, typeId, name, to, ids);
  }

  /** The request names a field and a type that its values can be converted to. */
  predicate ChangeAllowed(fields: seq<Field>, name: string, newType: string) {
    TypeFromName(newType).Some? && FieldNamed(fields, name).Some?
    && (FieldNamed(fields, name).value.ty == Scalar(TypeFromName(newType).value)
        || ConversionSupported(FieldNamed(fields, name).value.ty, TypeFromName(newType).value))
  }

  /** The database with every value of the field converted, or null where it cannot be. */
  ghost predicate IsConverted(text: Text, schema: Option<Schema>, views: map<Id, View>, typeId: U16, name: string, to: ScalarType,
                              schema2: Option<Schema>, views2: map<Id, View>) {
    && schema.Some? && schema2 == Some(RetypedSchema(schema.value, typeId, name, to))
    && views2 == ConvertedNodes(text, views, typeId, name, to)
  }

  /** Changes the type of a field. Either every non-null value of the type's nodes is converted, or set to
      null, and the index follows; or nothing changes. With nothing unconvertible, or with `SetNull`, it
      fails only for a unique field: in a valid database if two of its values become equal, and only then
      if the hashes tell the names apart. Where the index was right it is right afterwards if and only if
      the entries of every node fit. */
  method ChangeNodeFieldType(db: Database, text: Text, typeId: U16, name: string, newType: string, onFailure: OnFailure,
                             remains: (Id, Id) -> Result<Props>)
    returns (r: Result<FieldTypeChange>)
    requires db.Consistent()
    modifies db, db.records
    ensures db.Consistent() && db.records.Edges() == old(db.records.Edges())
    ensures var fields, views := FieldsOf(old(db.NodeFields()), typeId), old(db.records.Nodes());
      if !ChangeAllowed(fields, name, newType) then r == Err(SchemaError)
      else
        var f, to := FieldNamed(fields, name).value, TypeFromName(newType).value;
        var yes, no := Converting(text, views, typeId, name, to, true), Converting(text, views, typeId, name, to, false);
        if f.ty == Scalar(to) then r == Ok(FieldTypeChange(true, 0, 0, []))
        else if no != {} && onFailure.Reject? then
          r.Ok? && !r.value.applied && r.value.converted == 0 && r.value.failed == |no|
          && IsReport(text, views, typeId, name, to, r.value.failed, r.value.failedRecords)
        else
          && (r.Err? ==> f.unique && Stops(db.hash, text, old(db.NodeFields()), views, old(db.index), typeId, name, to, remains, r.error))
          && (old(db.Valid()) && f.unique && Clash(db.hash, text, views, typeId, name, to) ==> r == Err(UniqueViolation))
          && (old(db.Valid()) && PathsDiffer(db.hash, fields) ==>
                (r.Err? <==> f.unique && Clash(db.hash, text, views, typeId, name, to)))
          && (r.Ok? ==> && r.value.applied && r.value.converted == |yes| && r.value.failed == |no|
                        && IsReport(text, views, typeId, name, to, r.value.failed, r.value.failedRecords)
                        && IsConverted(text, old(db.schema), views, typeId, name, to, db.schema, db.records.Nodes())
                        && ConvertsField(text, views, db.records.Nodes(), typeId, name, to)
                        && OnlyType(old(db.schema), db.schema, typeId)
                        && FirstBecomes(fields, FieldsOf(db.NodeFields(), typeId), name, name, Some(to))
                        && AllAccepted(db.records.Nodes(), typeId, name, to)
                        && Exchanged(ConvertPlan(db.hash, text, views, typeId, name, to, f.HasIndex()), views.Keys, old(db.index), db.index)
                        && (old(db.IndexFits()) ==>
                              (db.IndexFits() <==> AllConversionsFit(db.hash, text, fields, views, typeId, name, to)))
                        && (old(db.UniqueFits()) ==>
                              (db.UniqueFits() <==> (IsUnique(fields, name) ==> !Clash(db.hash, text, views, typeId, name, to)))))
    ensures (|| r.Err?
             || !r.value.applied
             || FieldNamed(FieldsOf(old(db.NodeFields()), typeId), name).value.ty == Scalar(TypeFromName(newType).value)) ==>
      db.schema == old(db.schema) && db.records.Nodes() == old(db.records.Nodes()) && db.index == old(db.index)
    ensures old(db.Valid()) && FieldsApart(db.hash, FieldsOf(old(db.NodeFields()), typeId)) ==> db.Valid()
  {
    hide RecordStore.Valid, RecordStore.Nodes, RecordStore.Edges, LabelsOk, IndexOk, UniqueOk, FieldsApart, ConvertedNodes, Retyped, PathsDiffer,
      Converting, Clash, Intact, Carries, EachOnce, IsReport, Failing, FirstReported, ConvertPlan, Exchanged, Stops, IsUnique,
      AllConversionsFit, IndexedNames, IsMarked, FirstBecomes, AllAccepted, ConvertsField;
    var to := TypeFromName(newType);
    if to.None? {
      return Err(SchemaError);
    }
    if db.schema.None? || typeId !in db.schema.value.nodes {
      return Err(SchemaError);
    }
    var fields := db.schema.value.nodes[typeId];
    var found := FieldNamed(fields, name);
    if found.None? {
      return Err(SchemaError);
    }
    var f := found.value;
    if f.ty == Scalar(to.value) {
      return Ok(FieldTypeChange(true, 0, 0, []));
    }
    if !ConversionSupported(f.ty, to.value) {
      return Err(SchemaError);
    }
    ghost var views := db.records.Nodes();
    var ids := db.RidsOfType(typeId);
    var failed, failedRecords := FindFailures(db, text, typeId, ids, name, to.value);
    if failed > 0 && onFailure.Reject? {
      return Ok(FieldTypeChange(false, 0, failed, failedRecords));
    }
    var schema, index := db.schema, db.index;
    var saved, owner := db.records.Save();
    MarkedIsIndexed(fields, name);
    IsMarkedNamed(fields, name);
    ghost var nodes := db.NodeFields();
    var converted := ConvertFieldRecords(db, text, typeId, ids, name, to.value, f.HasIndex(), f.unique, remains);
    match converted
    case Ok(n) =>
      TypeChanged(db.hash, text, nodes, views, typeId, name, to.value, index, db.index);
      RetypedIs(schema.value, typeId, name, to.value);
      ConvertedAccepted(text, views, typeId, name, to.value);
      ConvertedConverts(text, views, typeId, name, to.value);
      r := Ok(FieldTypeChange(true, n, failed, failedRecords));
    case Err(e) =>
      StopsOnClash(db.hash, text, nodes, views, index, typeId, name, to.value, remains, e);
      db.records.Restore(saved, owner);
      db.schema, db.index := schema, index;
      r := Err(e);
  }

  lemma StopsOnClash(hash: Hash, text: Text, fields: Fields, views0: map<Id, View>, index0: set<Entry>, typeId: U16, name: string,
                     to: ScalarType, remains: (Id, Id) -> Result<Props>, e: GraphError)
    requires Stops(hash, text, fields, views0, index0, typeId, name, to, remains, e)
    ensures IndexOk(hash, fields, views0, index0) ==>
      e == UniqueViolation && (PathsDiffer(hash, FieldsOf(fields, typeId)) ==> Clash(hash, text, views0, typeId, name, to))
  {
  }

  lemma IsMarkedNamed(fields: seq<Field>, name: string)
    ensures FieldNamed(fields, name).Some? ==> IsMarked(fields, name) == FieldNamed(fields, name).value.HasIndex()
  {
  }

  /** What the conversion makes of the index and the unique fields. */
  lemma TypeChanged(hash: Hash, text: Text, fields: Fields, views: map<Id, View>, typeId: U16, name: string, to: ScalarType,
                    index0: set<Entry>, index: set<Entry>)
    requires typeId in fields && FieldNamed(fields[typeId], name).Some?
    requires Exchanged(ConvertPlan(hash, text, views, typeId, name, to, IsMarked(fields[typeId], name)), views.Keys, index0, index)
    requires FieldNamed(fields[typeId], name).value.unique && IndexOk(hash, fields, views, index0) && UniqueOk(hash, fields, views) ==>
      UniqueOk(hash, fields, ConvertedNodes(text, views, typeId, name, to))
    ensures var fields2, target := fields[typeId := Retyped(fields[typeId], name, to)], ConvertedNodes(text, views, typeId, name, to);
      && (IndexOk(hash, fields, views, index0) ==>
            (IndexOk(hash, fields2, target, index) <==> AllConversionsFit(hash, text, fields[typeId], views, typeId, name, to)))
      && (UniqueOk(hash, fields, views) ==>
            (UniqueOk(hash, fields2, target) <==> (IsUnique(fields[typeId], name) ==> !Clash(hash, text, views, typeId, name, to))))
      && (IndexOk(hash, fields, views, index0) && UniqueOk(hash, fields, views) ==>
            && (FieldNamed(fields[typeId], name).value.unique ==> !Clash(hash, text, views, typeId, name, to))
            && (FieldsApart(hash, fields[typeId]) ==> IndexOk(hash, fields2, target, index) && UniqueOk(hash, fields2, target)))
  {
    hide IndexOk, UniqueOk, Retyped, ConvertedNodes, ConvertPlan, Exchanged, AllConversionsFit, IsMarked, FieldsApart, Clash, IsUnique,
      FieldNamed, IndexedNames;
    var f := FieldNamed(fields[typeId], name).value;
    MarkedIsIndexed(fields[typeId], name);
    if IndexOk(hash, fields, views, index0) {
      ConvertedIndexIff(hash, text, fields, views, typeId, name, to, index0, index);
    }
    if UniqueOk(hash, fields, views) {
      ConvertedUniqueIff(hash, text, fields, views, typeId, name, to);
      if IndexOk(hash, fields, views, index0) && f.unique {
        RetypedUnique(hash, fields, ConvertedNodes(text, views, typeId, name, to), typeId, name, to);
      }
    }
    if FieldsApart(hash, fields[typeId]) {
      ApartConvert(hash, text, fields[typeId], views, typeId, name, to);
      MarkedIfApart(hash, fields[typeId], name);
    }
  }

  /** Once the converted values keep a unique field unique, no two of them are the same. */
  lemma NoClashLeft(hash: Hash, text: Text, fields2: Fields, views: map<Id, View>, typeId: U16, name: string, to: ScalarType)
    requires UniqueOk(hash, fields2, ConvertedNodes(text, views, typeId, name, to))
    ensures (exists f :: f in FieldsOf(fields2, typeId) && f.unique && f.name == name) ==> !Clash(hash, text, views, typeId, name, to)
  {
    var target := ConvertedNodes(text, views, typeId, name, to);
    hide ConvertValue;
    if f :| f in FieldsOf(fields2, typeId) && f.unique && f.name == name {
      forall a, b | a in views && b in views && a != b && views[a].typeId == typeId && views[b].typeId == typeId
        ensures !Collide(hash, text, views, typeId, name, to, a, b)
      {
        assert Differ(hash, target, f.name, a, b);
        if NonNull(views[a].props, name) {
          ConvertedSame(text, views[a].props[name], to);
        }
      }
    }
  }
}
