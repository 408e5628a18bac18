/**
 * Vacuum (chiffondb-core/src/db.rs): the stored schema is copied with its type ids and counters, and the
 * live records are copied into an empty database under new ids, with the edges pointed at the copies.
 * The copy is made by inserting, so that its index and its unique fields are right, or it fails.
 */
module Vacuum {
  import opened Types
  import opened Convert
  import opened Records
  import opened Indexing
  import opened Rewriting
  import opened SchemaRuns
  import opened Database
  import DatabaseFile
  import SchemaChain

  /** What readers see of a record: the values of declared fields, or all of an undeclared type. */
  function Visible(fields: Fields, view: View): View {
    if view.typeId in fields then view.(props := Only(view.props, Names(fields[view.typeId]))) else view
  }

  predicate Injective(m: map<Id, Id>) {
    forall a, b :: a in m && b in m && m[a] == m[b] ==> a == b
  }

  /** A copy as a reader sees the original: type and labels are the same, and so are the values, under all
      names if the type has no definition, and otherwise under its field names. */
  ghost predicate IsCopy(fields: Fields, view: View, copy: View) {
    && copy.typeId == view.typeId && copy.labels == view.labels
    && forall k ::
         && (k in copy.props <==> k in view.props && (view.typeId in fields ==> exists f :: f in fields[view.typeId] && f.name == k))
         && (k in copy.props && k in view.props ==> copy.props[k] == view.props[k])
  }

  lemma VisibleIsCopy(fields: Fields, view: View)
    ensures IsCopy(fields, view, Visible(fields, view))
  {
  }

  /** An edge copied between the copies of its nodes. */
  ghost predicate IsEdgeCopy(fields: Fields, edge: EdgeView, copy: EdgeView, nodeMap: map<Id, Id>) {
    && IsCopy(fields, edge.view, copy.view)
    && edge.fromNode in nodeMap && copy.fromNode == nodeMap[edge.fromNode]
    && edge.toNode in nodeMap && copy.toNode == nodeMap[edge.toNode]
  }

  /** The nodes in `m` have been copied: `m` is a bijection onto the new nodes, which look the same. */
  ghost predicate NodesCopied(fields: Fields, nodes: map<Id, View>, nodes2: map<Id, View>, m: map<Id, Id>) {
    && Injective(m) && m.Keys <= nodes.Keys && m.Values == nodes2.Keys
    && forall n :: n in m ==> m[n] in nodes2 && IsCopy(fields, nodes[n], nodes2[m[n]])
  }

  ghost predicate EndsMapped(edges: map<Id, EdgeView>, nodeMap: map<Id, Id>) {
    forall e :: e in edges ==> edges[e].fromNode in nodeMap && edges[e].toNode in nodeMap
  }

  ghost predicate EdgesCopied(fields: Fields, edges: map<Id, EdgeView>, edges2: map<Id, EdgeView>, nodeMap: map<Id, Id>, m: map<Id, Id>)
    requires EndsMapped(edges, nodeMap)
  {
    && Injective(m) && m.Keys <= edges.Keys && m.Values == edges2.Keys
    && forall e :: e in m ==> m[e] in edges2 && IsEdgeCopy(fields, edges[e], edges2[m[e]], nodeMap)
  }

  lemma {:induction false} NormalizedStays(typeId: U16, ts: seq<U16>)
    requires typeId !in ts && forall i, j :: 0 <= i < j < |ts| ==> ts[i] != ts[j]
    ensures Normalized(typeId, ts) == ts
  {
    if ts != [] {
      var n := |ts| - 1;
      NormalizedStays(typeId, ts[..n]);
      assert ts == ts[..n] + [ts[n]] && ts[n] in ts;
      forall i | 0 <= i < n ensures ts[..n][i] != ts[n] {
        assert ts[..n][i] == ts[i];
      }
    }
  }

  lemma Normal(view: View)
    requires NormalLabels(view)
    ensures Normalized(view.typeId, view.labels) == view.labels
  {
    NormalizedStays(view.typeId, view.labels);
  }

  /** A copy can be inserted: the records that are copies already hold none of its unique values. */
  lemma CopyHasRoom(hash: Hash, fields: Fields, nodes: map<Id, View>, nodes2: map<Id, View>, m: map<Id, Id>, n: Id)
    requires NodesCopied(fields, nodes, nodes2, m) && UniqueOk(hash, fields, nodes)
    requires n in nodes && n !in m
    ensures NoConflict(hash, fields, nodes2, nodes[n].typeId, Visible(fields, nodes[n]).props, None)
  {
    var props := Visible(fields, nodes[n]).props;
    VisibleIsCopy(fields, nodes[n]);
    hide Visible, SameKeyed, IsCopy;
    forall n2, f | n2 in nodes2 && nodes2[n2].typeId == nodes[n].typeId && f in FieldsOf(fields, nodes[n].typeId) && f.unique
      ensures !Conflicts(hash, nodes2, f.name, props, n2)
    {
      var o :| o in m && m[o] == n2;
      CopyIsLike(fields, nodes[n], Visible(fields, nodes[n]));
      CopyIsLike(fields, nodes[o], nodes2[n2]);
      CopyHas(fields, nodes[n], Visible(fields, nodes[n]), f);
      CopyHas(fields, nodes[o], nodes2[n2], f);
      assert Differ(hash, nodes, f.name, o, n);
    }
  }

  lemma CopyIsLike(fields: Fields, view: View, copy: View)
    requires IsCopy(fields, view, copy)
    ensures copy.typeId == view.typeId && copy.labels == view.labels
  {
  }

  /** The copy has a declared field exactly when the original has it, with the same value. */
  lemma CopyHas(fields: Fields, view: View, copy: View, f: Field)
    requires IsCopy(fields, view, copy) && f in FieldsOf(fields, view.typeId)
    ensures f.name in copy.props <==> f.name in view.props
    ensures f.name in copy.props ==> copy.props[f.name] == view.props[f.name]
  {
  }

  /** The indexed field names of every type hash differently. */
  ghost predicate NamesApart(hash: Hash, fields: Fields) {
    forall t :: t in fields ==> PathsDiffer(hash, fields[t])
  }

  /** What has been copied is as unique as it was. */
  lemma CopyShowsUnique(hash: Hash, fields: Fields, nodes: map<Id, View>, nodes2: map<Id, View>, m: map<Id, Id>)
    requires NodesCopied(fields, nodes, nodes2, m) && m.Keys == nodes.Keys && UniqueOk(hash, fields, nodes2)
    ensures UniqueOk(hash, fields, nodes)
  {
    hide SameKeyed, IsCopy;
    forall a, b, f | a in nodes && b in nodes && a != b && nodes[a].typeId == nodes[b].typeId
                     && f in FieldsOf(fields, nodes[a].typeId) && f.unique
      ensures Differ(hash, nodes, f.name, a, b)
    {
      CopyIsLike(fields, nodes[a], nodes2[m[a]]);
      CopyIsLike(fields, nodes[b], nodes2[m[b]]);
      CopyHas(fields, nodes[a], nodes2[m[a]], f);
      CopyHas(fields, nodes[b], nodes2[m[b]], f);
      assert Differ(hash, nodes2, f.name, m[a], m[b]);
    }
  }

  /** A field that becomes unique over a value held twice: nothing is checked when the schema is applied, and
      the copy is what fails. */
  lemma DuplicatesStopTheCopy(hash: Hash, t: U16, k: string, v: Value, a: Id, b: Id)
    requires a != b && Indexable(v)
    ensures var plain, unique := Field(k, Scalar(StringType), false, false), Field(k, Scalar(StringType), false, true);
      var before, after: Fields := map[t := [plain]], map[t := [unique]];
      var views: map<Id, View> := map[a := View(t, map[k := v], []), b := View(t, map[k := v], [])];
      && IndexOk(hash, before, views, {}) && UniqueOk(hash, before, views)
      && PurgedNodes(before, after, views) == views
      && !UniqueOk(hash, after, views)
  {
    var plain, unique := Field(k, Scalar(StringType), false, false), Field(k, Scalar(StringType), false, true);
    var views: map<Id, View> := map[a := View(t, map[k := v], []), b := View(t, map[k := v], [])];
    assert Names([plain]) == {k} && Names([unique]) == {k};
    hide SameKeyed, Indexable;
    KeyedUpToZeros(hash, v, v);
    assert !Differ(hash, views, unique.name, a, b);
    assert unique in FieldsOf(map[t := [unique]], t);
  }

  lemma OneMoreNode(fields: Fields, nodes: map<Id, View>, nodes2: map<Id, View>, m: map<Id, Id>, n: Id, n2: Id, copy: View)
    requires n in nodes && IsCopy(fields, nodes[n], copy)
    requires NodesCopied(fields, nodes, nodes2, m) && n in nodes && n !in m && n2 !in nodes2
    ensures NodesCopied(fields, nodes, nodes2[n2 := copy], m[n := n2])
  {
    hide IsCopy;
    var m2 := m[n := n2];
    assert m2.Values == m.Values + {n2} by {
      forall v | v in m.Values + {n2} ensures v in m2.Values {
        if v != n2 {
          var o :| o in m && m[o] == v;
          assert m2[o] == v;
        } else {
          assert m2[n] == v;
        }
      }
    }
  }

  lemma OneMoreEdge(fields: Fields, edges: map<Id, EdgeView>, edges2: map<Id, EdgeView>, nodeMap: map<Id, Id>, m: map<Id, Id>,
                    e: Id, e2: Id, copy: EdgeView)
    requires EndsMapped(edges, nodeMap)
    requires EdgesCopied(fields, edges, edges2, nodeMap, m) && e in edges && e !in m && e2 !in edges2
    requires IsEdgeCopy(fields, edges[e], copy, nodeMap)
    ensures EdgesCopied(fields, edges, edges2[e2 := copy], nodeMap, m[e := e2])
  {
    hide IsEdgeCopy;
    var m2 := m[e := e2];
    assert m2.Values == m.Values + {e2} by {
      forall v | v in m.Values + {e2} ensures v in m2.Values {
        if v != e2 {
          var o :| o in m && m[o] == v;
          assert m2[o] == v;
        } else {
          assert m2[e] == v;
        }
      }
    }
  }

  /** Copies the stored schema, every live node and every live edge. Record ids change; the graph, the type
      ids and their counters do not. It fails when the schema of the source cannot be read, and when two
      of its nodes hold the same scalar in a unique field; otherwise only if the hashes confuse names. */
  method CopyLiveContentsInto(src: Database, srcFile: DatabaseFile.DatabaseFile, dst: Database, dstFile: DatabaseFile.DatabaseFile,
                              codec: SchemaChain.Codec, remains: Remains)
    returns (r: Result<map<Id, Id>>, ghost edgeMap: map<Id, Id>)
    requires src.Consistent() && dst.Valid() && dst.hash == src.hash && src != dst && src.records != dst.records
    requires dst.records.Nodes() == map[] && dst.records.Edges() == map[] && dst.schema == None
    requires SchemaChain.CanCopy(srcFile, dstFile, codec) && dstFile.header.schemaRoot == 0
    modifies dst, dst.records, srcFile.Storage(), dstFile.Repr()
    ensures dst.Valid() && srcFile.Valid() && dstFile.Consistent()
    ensures var unreadable := old(srcFile.header.schemaRoot) != 0 && old(SchemaChain.StoredIn(codec, srcFile)).None?;
      && (unreadable || !src.UniqueFits() ==> r.Err?)
      && (NamesApart(src.hash, src.NodeFields()) ==> (r.Err? <==> unreadable || !src.UniqueFits()))
      && (r.Err? && !unreadable ==> r == Err(UniqueViolation))
    ensures r.Ok? ==>
      && SchemaChain.StoredIn(codec, dstFile) == old(SchemaChain.StoredIn(codec, srcFile))
      && dst.schema == src.schema
      && r.value.Keys == src.records.Nodes().Keys
      && NodesCopied(src.NodeFields(), src.records.Nodes(), dst.records.Nodes(), r.value)
      && EndsMapped(src.records.Edges(), r.value)
      && edgeMap.Keys == src.records.Edges().Keys
      && EdgesCopied(src.EdgeFields(), src.records.Edges(), dst.records.Edges(), r.value, edgeMap)
  {
    hide Database.Valid, Database.Consistent, RecordStore.Nodes, RecordStore.Edges, NodesCopied, EdgesCopied, EndsMapped, NamesApart,
      UniqueOk, DatabaseFile.DatabaseFile.Valid, DatabaseFile.DatabaseFile.Consistent, DatabaseFile.DatabaseFile.Pages,
      SchemaChain.StoredIn, DatabaseFile.DatabaseFile.Repr, DatabaseFile.DatabaseFile.Storage, SchemaChain.CanCopy;
    edgeMap := map[];
    var copied := CopyStoredSchema(srcFile, dstFile, codec, src, dst);
    if copied.Err? {
      return Err(copied.error), edgeMap;
    }
    r, edgeMap := CopyRecords(src, dst, srcFile, dstFile, codec, remains);
  }

  /** Copies the stored schema, if there is one; the records of the databases are not touched. */
  method CopyStoredSchema(srcFile: DatabaseFile.DatabaseFile, dstFile: DatabaseFile.DatabaseFile, codec: SchemaChain.Codec,
                          ghost src: Database, ghost dst: Database) returns (r: Result<()>)
    requires SchemaChain.CanCopy(srcFile, dstFile, codec) && dstFile.header.schemaRoot == 0
    modifies srcFile.Storage(), dstFile.Repr()
    ensures srcFile.Valid() && dstFile.Consistent()
    ensures r.Err? <==> old(srcFile.header.schemaRoot) != 0 && old(SchemaChain.StoredIn(codec, srcFile)).None?
    ensures r.Ok? ==> SchemaChain.StoredIn(codec, dstFile) == old(SchemaChain.StoredIn(codec, srcFile))
    ensures unchanged(src) && unchanged(src.records) && unchanged(dst) && unchanged(dst.records)
  {
    FilesApart(src, srcFile);
    FilesApart(src, dstFile);
    FilesApart(dst, srcFile);
    FilesApart(dst, dstFile);
    hide DatabaseFile.DatabaseFile.Valid, DatabaseFile.DatabaseFile.Consistent, DatabaseFile.DatabaseFile.Pages, SchemaChain.StoredIn,
      DatabaseFile.DatabaseFile.Repr, DatabaseFile.DatabaseFile.Storage, SchemaChain.CanCopy;
    SchemaChain.Readable(srcFile, dstFile, codec);
    if srcFile.header.schemaRoot == 0 {
      return Ok(());
    }
    r := SchemaChain.CopySchema(srcFile, dstFile, codec);
  }

  /** A file is made of other objects than a database. */
  lemma FilesApart(db: Database, file: DatabaseFile.DatabaseFile)
    ensures db !in file.Repr() && db.records !in file.Repr() && file.Storage() <= file.Repr()
  {
  }

  /** Copies the live nodes, then the live edges between the copies. */
  method CopyRecords(src: Database, dst: Database, ghost srcFile: DatabaseFile.DatabaseFile, ghost dstFile: DatabaseFile.DatabaseFile,
                     ghost codec: SchemaChain.Codec, remains: Remains)
    returns (r: Result<map<Id, Id>>, ghost edgeMap: map<Id, Id>)
    requires srcFile.Valid() && dstFile.Consistent()
    requires src.Consistent() && dst.Valid() && dst.hash == src.hash && src != dst && src.records != dst.records
    requires dst.records.Nodes() == map[] && dst.records.Edges() == map[] && dst.schema == None
    modifies dst, dst.records
    ensures dst.Valid() && dst.schema == src.schema
    ensures !src.UniqueFits() ==> r.Err?
    ensures r.Err? ==> r == Err(UniqueViolation) && !(src.UniqueFits() && NamesApart(src.hash, src.NodeFields()))
    ensures r.Ok? ==>
      && r.value.Keys == src.records.Nodes().Keys
      && NodesCopied(src.NodeFields(), src.records.Nodes(), dst.records.Nodes(), r.value)
      && EndsMapped(src.records.Edges(), r.value)
      && edgeMap.Keys == src.records.Edges().Keys
      && EdgesCopied(src.EdgeFields(), src.records.Edges(), dst.records.Edges(), r.value, edgeMap)
    ensures srcFile.Valid() && dstFile.Consistent()
    ensures SchemaChain.StoredIn(codec, dstFile) == old(SchemaChain.StoredIn(codec, dstFile))
  {
    hide Database.Valid, Database.Consistent, RecordStore.Nodes, RecordStore.Edges, NodesCopied, EdgesCopied, EndsMapped, NamesApart,
      UniqueOk, DatabaseFile.DatabaseFile.Valid, DatabaseFile.DatabaseFile.Consistent, DatabaseFile.DatabaseFile.Pages,
      SchemaChain.StoredIn;
    edgeMap := map[];
    r := CopyNodes(src, dst, remains);
    if r.Ok? {
      edgeMap := CopyEdges(src, dst, r.value);
      CopyIsUnique(src, dst, r.value);
    }
    FilesApart(dst, srcFile);
    FilesApart(dst, dstFile);
    assert unchanged(srcFile.Repr()) && unchanged(dstFile.Repr());
  }

  lemma CopyIsUnique(src: Database, dst: Database, m: map<Id, Id>)
    requires dst.Valid() && dst.hash == src.hash && dst.schema == src.schema && m.Keys == src.records.Nodes().Keys
    requires NodesCopied(src.NodeFields(), src.records.Nodes(), dst.records.Nodes(), m)
    ensures src.UniqueFits()
  {
    hide NodesCopied, UniqueOk, RecordStore.Nodes;
    CopyShowsUnique(src.hash, src.NodeFields(), src.records.Nodes(), dst.records.Nodes(), m);
  }

  method CopyNodes(src: Database, dst: Database, remains: Remains) returns (r: Result<map<Id, Id>>)
    requires src.Consistent() && dst.Valid() && dst.hash == src.hash && src != dst && src.records != dst.records
    requires dst.records.Nodes() == map[] && dst.records.Edges() == map[] && dst.schema == None
    modifies dst, dst.records
    ensures dst.Valid() && dst.schema == src.schema && dst.records.Edges() == map[]
    ensures r.Err? ==> r == Err(UniqueViolation) && !(src.UniqueFits() && NamesApart(src.hash, src.NodeFields()))
    ensures r.Ok? ==> r.value.Keys == src.records.Nodes().Keys
                      && NodesCopied(src.NodeFields(), src.records.Nodes(), dst.records.Nodes(), r.value)
  {
    hide Database.Valid, Database.Consistent, RecordStore.Nodes, RecordStore.Edges, UniqueOk, NodesCopied, NamesApart;
    ghost var fields, nodes := src.NodeFields(), src.records.Nodes();
    TakeSchema(dst, src.schema);
    var nodeMap: map<Id, Id> := map[];
    CopyStarts(fields, nodes);
    var pending := src.records.Nodes().Keys;
    while pending != {}
      invariant src.Consistent() && dst.Valid() && dst.schema == src.schema && dst.records.Edges() == map[]
      invariant pending <= nodes.Keys && nodeMap.Keys == nodes.Keys - pending
      invariant NodesCopied(fields, nodes, dst.records.Nodes(), nodeMap)
      decreases |pending|
    {
      var n :| n in pending;
      pending := pending - {n};
      var copy := CopyNode(src, dst, n, nodeMap, remains);
      if copy.Err? {
        return Err(copy.error);
      }
      nodeMap := nodeMap[n := copy.value];
    }
    r := Ok(nodeMap);
  }

  /** The schema is in force before the first record is copied. */
  method TakeSchema(dst: Database, schema: Option<Schema>)
    requires dst.Valid() && dst.records.Nodes() == map[]
    modifies dst`schema
    ensures dst.Valid() && dst.schema == schema
  {
    hide RecordStore.Valid, RecordStore.Nodes, RecordStore.Edges, LabelsOk, IndexOk, UniqueOk, EdgesNormal;
    EmptyIsOk(dst.hash, dst.NodeFields(), if schema.Some? then schema.value.nodes else map[], dst.index);
    dst.schema := schema;
  }

  method CopyNode(src: Database, dst: Database, n: Id, ghost nodeMap: map<Id, Id>, remains: Remains) returns (copy: Result<Id>)
    requires src.Consistent() && dst.Valid() && dst.hash == src.hash && src != dst && src.records != dst.records
    requires dst.schema == src.schema && n in src.records.Nodes() && n !in nodeMap
    requires NodesCopied(src.NodeFields(), src.records.Nodes(), dst.records.Nodes(), nodeMap)
    modifies dst, dst.records
    ensures dst.Valid() && dst.schema == src.schema && dst.records.Edges() == old(dst.records.Edges())
    ensures copy.Err? ==> copy == Err(UniqueViolation) && !(src.UniqueFits() && NamesApart(src.hash, src.NodeFields()))
    ensures copy.Ok? ==> NodesCopied(src.NodeFields(), src.records.Nodes(), dst.records.Nodes(), nodeMap[n := copy.value])
  {
    hide RecordStore.Valid, RecordStore.Nodes, RecordStore.Edges, LabelsOk, IndexOk, UniqueOk, EdgesNormal, NodesCopied,
      NamesApart, Visible, IsCopy, Taken, Blocked, NoConflict, Injective, Normalized, EntriesOf, Database.IsReason;
    ghost var fields, nodes, nodes2 := src.NodeFields(), src.records.Nodes(), dst.records.Nodes();
    var view := src.records.Nodes()[n];
    var seen := Visible(src.NodeFields(), view);
    LabelsAre(nodes, src.labels, n);
    VisibleIsCopy(fields, view);
    CopyIsLike(fields, view, seen);
    Normal(view);
    OnlyTaken(dst, view.typeId, seen.props, remains);
    if src.UniqueFits() && NamesApart(src.hash, fields) {
      CopyHasRoom(src.hash, fields, nodes, nodes2, nodeMap, n);
      NoPaths(src.hash, fields, view.typeId);
      TakenIff(dst.hash, fields, nodes2, remains, dst.index, view.typeId, seen.props, None);
    }
    copy := dst.InsertNodeWithLabels(view.typeId, view.labels, seen.props, remains);
    if copy.Ok? {
      OneMoreNode(fields, nodes, nodes2, nodeMap, n, copy.value, seen);
    }
  }

  /** While the index is right an insert is refused for a taken value only. */
  lemma OnlyTaken(db: Database, typeId: U16, props: Props, remains: Remains)
    requires db.IndexFits()
    ensures !Blocked(db.hash, db.NodeFields(), db.records.Nodes(), remains, db.index, typeId, props)
    ensures forall e :: db.IsReason(e, typeId, props, None, remains) ==> e == UniqueViolation
  {
    NothingUnread(db.hash, db.NodeFields(), db.records.Nodes(), remains, db.index, typeId, props);
    hide IndexOk, Taken;
  }

  method CopyEdges(src: Database, dst: Database, nodeMap: map<Id, Id>) returns (ghost edgeMap: map<Id, Id>)
    requires src.Consistent() && dst.Valid() && src != dst && src.records != dst.records
    requires dst.records.Edges() == map[] && nodeMap.Keys == src.records.Nodes().Keys
    requires NodesCopied(src.NodeFields(), src.records.Nodes(), dst.records.Nodes(), nodeMap)
    modifies dst, dst.records
    ensures dst.Valid() && dst.schema == old(dst.schema) && dst.records.Nodes() == old(dst.records.Nodes())
    ensures EndsMapped(src.records.Edges(), nodeMap)
    ensures edgeMap.Keys == src.records.Edges().Keys
    ensures EdgesCopied(src.EdgeFields(), src.records.Edges(), dst.records.Edges(), nodeMap, edgeMap)
  {
    hide RecordStore.Valid, RecordStore.Nodes, RecordStore.Edges, LabelsOk, IndexOk, UniqueOk, NodesCopied, EdgesCopied, Visible,
      EndsMapped, EdgesNormal, Normalized, Injective;
    ghost var edges, nodes2 := src.records.Edges(), dst.records.Nodes();
    AllEndsMapped(src, nodeMap);
    MappedAreLive(src.NodeFields(), src.records.Nodes(), nodes2, nodeMap);
    edgeMap := map[];
    CopyEdgesStarts(src.EdgeFields(), edges, nodeMap);
    var pending := src.records.Edges().Keys;
    while pending != {}
      invariant src.Consistent() && dst.Valid() && dst.schema == old(dst.schema) && dst.records.Nodes() == nodes2
      invariant pending <= edges.Keys && edgeMap.Keys == edges.Keys - pending
      invariant EdgesCopied(src.EdgeFields(), edges, dst.records.Edges(), nodeMap, edgeMap)
      decreases |pending|
    {
      var e :| e in pending;
      pending := pending - {e};
      var edge := src.records.Edges()[e];
      var seen := Visible(src.EdgeFields(), edge.view);
      EdgeIs(edges, e);
      EndsOf(edges, nodeMap, e);
      VisibleIsCopy(src.EdgeFields(), edge.view);
      CopyIsLike(src.EdgeFields(), edge.view, seen);
      Normal(edge.view);
      ghost var edges2 := dst.records.Edges();
      var inserted := dst.InsertEdgeWithLabels(edge.view.typeId, nodeMap[edge.fromNode], nodeMap[edge.toNode], edge.view.labels, seen.props);
      OneMoreEdge(src.EdgeFields(), edges, edges2, nodeMap, edgeMap, e, inserted.value,
                  EdgeView(seen, nodeMap[edge.fromNode], nodeMap[edge.toNode]));
      edgeMap := edgeMap[e := inserted.value];
    }
  }

  lemma AllEndsMapped(src: Database, nodeMap: map<Id, Id>)
    requires src.Consistent() && nodeMap.Keys == src.records.Nodes().Keys
    ensures EndsMapped(src.records.Edges(), nodeMap)
  {
  }

  lemma EndsOf(edges: map<Id, EdgeView>, nodeMap: map<Id, Id>, e: Id)
    requires EndsMapped(edges, nodeMap) && e in edges
    ensures edges[e].fromNode in nodeMap && edges[e].toNode in nodeMap
  {
  }

  lemma EmptyIsOk(hash: Hash, fields: Fields, fields2: Fields, index: set<Entry>)
    requires IndexOk(hash, fields, map[], index)
    ensures IndexOk(hash, fields2, map[], index) && UniqueOk(hash, fields2, map[])
  {
  }

  lemma CopyStarts(fields: Fields, nodes: map<Id, View>)
    ensures NodesCopied(fields, nodes, map[], map[])
  {
  }

  lemma CopyEdgesStarts(fields: Fields, edges: map<Id, EdgeView>, nodeMap: map<Id, Id>)
    requires EndsMapped(edges, nodeMap)
    ensures EdgesCopied(fields, edges, map[], nodeMap, map[])
  {
  }

  lemma NoPaths(hash: Hash, fields: Fields, typeId: U16)
    requires NamesApart(hash, fields)
    ensures PathsDiffer(hash, FieldsOf(fields, typeId))
  {
  }

  lemma MappedAreLive(fields: Fields, nodes: map<Id, View>, nodes2: map<Id, View>, m: map<Id, Id>)
    requires NodesCopied(fields, nodes, nodes2, m)
    ensures forall n {:trigger m[n]} :: n in m ==> m[n] in nodes2
  {
  }
}
