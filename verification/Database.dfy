/**
 * The database (chiffondb-core/src/db.rs): every operation on nodes and edges keeps the label sets in
 * step with the records, and the property index and the unique fields too where they are. A schema
 * change can leave those behind, so that the index names slots in which no live node is; what
 * reading such a slot gives is a parameter.
 */
module Database {
  import opened Types
  import opened Convert
  import opened Records
  import opened Indexing
  import opened Rewriting
  import opened SchemaRuns

  datatype Schema = Schema(nodes: Fields, edges: Fields)

  /** A field name, or a walk into nested objects. */
  datatype PropertyPath = Flat(name: string) | Nested(path: seq<string>)

  function Walk(v: Value, path: seq<string>): Option<Value>
    decreases |path|
  {
    if path == [] then Some(v)
    else if v.Obj? && path[0] in v.fields then Walk(v.fields[path[0]], path[1..])
    else None
  }

  function Resolve(path: PropertyPath, props: Props): Option<Value> {
    match path
    case Flat(name) => if name in props then Some(props[name]) else None
    case Nested(names) => if names != [] && names[0] in props then Walk(props[names[0]], names[1..]) else None
  }

  predicate Matches(path: PropertyPath, props: Props, v: Value) {
    Resolve(path, props).Some? && Same(Resolve(path, props).value, v)
  }

  datatype IndexOp = Add | Remove

  /** Whether a value is acceptable for a declared type. A reference is stored as a string, and a blob as a
      string or an array. */
  predicate ValueMatches(v: Value, ty: FieldType)
    decreases ty
  {
    v.Null?
    || match ty
       case Scalar(IntType) => v.Num? && !v.num.Float?
       case Scalar(FloatType) => v.Num?
       case Scalar(BooleanType) => v.Bool?
       case Scalar(_) => v.Str?
       case Json => true
       case Blob => v.Str? || v.Arr?
       case Vector(_) => v.Arr? && forall i :: 0 <= i < |v.items| ==> v.items[i].Num?
       case ListOf(item) => v.Arr? && forall i :: 0 <= i < |v.items| ==> ValueMatches(v.items[i], item)
       case MapOf(_, item) => v.Obj? && forall k :: k in v.fields ==> ValueMatches(v.fields[k], item)
       case _ => v.Str?
  }

  /** What the scalar types accept: Float takes the integers too, and null is always accepted. */
  lemma ScalarsAccepted(v: Value)
    ensures ValueMatches(v, Scalar(StringType)) <==> v.Null? || v.Str?
    ensures ValueMatches(v, Scalar(DateTimeType)) <==> v.Null? || v.Str?
    ensures ValueMatches(v, Scalar(BooleanType)) <==> v.Null? || v.Bool?
    ensures ValueMatches(v, Scalar(IntType)) <==> v.Null? || (v.Num? && (v.num.PosInt? || v.num.NegInt?))
    ensures ValueMatches(v, Scalar(FloatType)) <==> ValueMatches(v, Scalar(IntType)) || (v.Num? && v.num.Float?)
  {
  }

  /** What the types that hold no others accept. A vector takes any number of numbers, but no null. */
  lemma OthersAccepted(v: Value, size: nat, name: string)
    ensures ValueMatches(v, Json)
    ensures ValueMatches(v, Blob) <==> v.Null? || v.Str? || v.Arr?
    ensures ValueMatches(v, Vector(size)) <==> v.Null? || (v.Arr? && forall w :: w in v.items ==> w.Num?)
    ensures ValueMatches(v, NodeRef(name)) <==> v.Null? || v.Str?
    ensures ValueMatches(v, EdgeRef(name)) <==> v.Null? || v.Str?
    ensures ValueMatches(v, Named(name)) <==> v.Null? || v.Str?
  {
  }

  /** Lists and maps accept what their items do, all the way down; the type of a map's keys is not looked at. */
  lemma ItemsAccepted(v: Value, items: seq<Value>, fields: map<string, Value>, k: string, key: FieldType, item: FieldType)
    ensures ValueMatches(Arr(items + [v]), ListOf(item)) <==> ValueMatches(Arr(items), ListOf(item)) && ValueMatches(v, item)
    ensures ValueMatches(Arr([]), ListOf(item)) && ValueMatches(Obj(map[]), MapOf(key, item))
    ensures k !in fields ==>
      (ValueMatches(Obj(fields[k := v]), MapOf(key, item)) <==> ValueMatches(Obj(fields), MapOf(key, item)) && ValueMatches(v, item))
    ensures !ValueMatches(Arr(items), MapOf(key, item)) && !ValueMatches(Obj(fields), ListOf(item))
    ensures ValueMatches(v, ListOf(item)) || ValueMatches(v, MapOf(key, item)) ==> v.Null? || v.Arr? || v.Obj?
    ensures v.Null? ==> ValueMatches(v, ListOf(item)) && ValueMatches(v, MapOf(key, item))
  {
    if ValueMatches(Arr(items + [v]), ListOf(item)) {
      assert (items + [v])[|items|] == v;
      assert forall i :: 0 <= i < |items| ==> (items + [v])[i] == items[i];
    }
    if k !in fields && ValueMatches(Obj(fields[k := v]), MapOf(key, item)) {
      assert fields[k := v][k] == v;
      assert forall l :: l in fields ==> l in fields[k := v] && fields[k := v][l] == fields[l];
    }
  }

  /** What converting to a scalar type gives is accepted for it. */
  lemma ConvertedIsAccepted(text: Text, v: Value, to: ScalarType)
    requires ConvertValue(text, v, to).Some?
    ensures ValueMatches(ConvertValue(text, v, to).value, Scalar(to))
  {
    ConvertedFits(text, v, to);
    hide ConvertValue;
  }

  /** No undeclared names, and every value matches the types declared for its name. */
  predicate Validates(fields: seq<Field>, props: Props) {
    && (forall k :: k in props ==> exists f :: f in fields && f.name == k)
    && forall f :: f in fields && f.name in props ==> ValueMatches(props[f.name], f.ty)
  }

  /** Properties are acceptable when their type has no definition, or every name is declared and every
      declaration of it accepts the value; a reader sees all of them then. */
  lemma AcceptableIff(fields: Fields, typeId: U16, props: Props, id: Id)
    ensures Acceptable(fields, typeId, props) <==>
      typeId in fields ==>
        && (forall k :: k in props ==> k in Names(fields[typeId]))
        && (forall i :: 0 <= i < |fields[typeId]| && fields[typeId][i].name in props ==>
              ValueMatches(props[fields[typeId][i].name], fields[typeId][i].ty))
    ensures Acceptable(fields, typeId, props) ==>
      forall k :: k in props ==> Shows(Contents(fields, map[id := View(typeId, props, [])]), id, k, props[k])
  {
    hide ValueMatches;
  }

  /** A path into nested objects: one name is a plain property, no name is nothing, and more names go on
      inside the object found under the first. */
  lemma PathsResolve(k: string, rest: seq<string>, props: Props)
    ensures Resolve(Flat(k), props) == Resolve(Nested([k]), props)
    ensures Resolve(Flat(k), props).Some? <==> k in props
    ensures k in props ==> Resolve(Flat(k), props).value == props[k]
    ensures Resolve(Nested([]), props) == None
    ensures rest != [] ==>
      Resolve(Nested([k] + rest), props)
      == if k in props && props[k].Obj? then Resolve(Nested(rest), props[k].fields) else None
  {
    assert ([k] + rest)[1..] == rest && [k][1..] == [];
  }

  /** Only the properties of a declared type are validated. */
  predicate Acceptable(fields: Fields, typeId: U16, props: Props) {
    typeId in fields ==> Validates(fields[typeId], props)
  }

  class Database {
    const hash: Hash
    const records: RecordStore
    var labels: multiset<(U16, Id)>
    var index: set<Entry>
    var schema: Option<Schema>

    function NodeFields(): Fields
      reads this
    {
      if schema.Some? then schema.value.nodes else map[]
    }

    /** A database without a schema declares nothing; with one, its node types and its edge types. */
    lemma FieldsOfSchema()
      ensures NodeFields().Keys == (if schema.Some? then schema.value.nodes.Keys else {})
      ensures forall t :: t in NodeFields() ==> NodeFields()[t] == schema.value.nodes[t]
      ensures EdgeFields().Keys == (if schema.Some? then schema.value.edges.Keys else {})
      ensures forall t :: t in EdgeFields() ==> EdgeFields()[t] == schema.value.edges[t]
    {
    }

    function EdgeFields(): Fields
      reads this
    {
      if schema.Some? then schema.value.edges else map[]
    }

    /** The records and the label sets; no schema has a say in them. */
    ghost predicate Consistent()
      reads this, records
    {
      && records.Valid()
      && LabelsOk(records.Nodes(), labels)
      && EdgesNormal(records.Edges())
    }

    ghost predicate IndexFits()
      reads this, records
    {
      IndexOk(hash, NodeFields(), records.Nodes(), index)
    }

    ghost predicate UniqueFits()
      reads this, records
    {
      UniqueOk(hash, NodeFields(), records.Nodes())
    }

    ghost predicate Valid()
      reads this, records
    {
      Consistent() && IndexFits() && UniqueFits()
    }

    /** The fields and nodes, which every operation takes one step further. */
    function State(): Contents
      reads this, records
    {
      Contents(NodeFields(), records.Nodes())
    }

    /** The uniqueness check refuses the properties: the index finds one of the scalars elsewhere, or
        names a slot that cannot be read. */
    ghost predicate Refuses(typeId: U16, props: Props, exclude: Option<Id>, remains: Remains)
      reads this, records
    {
      || Taken(hash, NodeFields(), records.Nodes(), remains, index, typeId, props, exclude)
      || Blocked(hash, NodeFields(), records.Nodes(), remains, index, typeId, props)
    }

    /** The reason it gives. */
    ghost predicate IsReason(e: GraphError, typeId: U16, props: Props, exclude: Option<Id>, remains: Remains)
      reads this, records
    {
      || (e == UniqueViolation && Taken(hash, NodeFields(), records.Nodes(), remains, index, typeId, props, exclude))
      || exists n, f ::
           && f in FieldsOf(NodeFields(), typeId) && f.unique
           && BlockedBy(hash, records.Nodes(), remains, index, typeId, f.name, props, n) && remains(n) == Err(e)
    }

    constructor (hash: Hash)
      ensures Valid() && fresh(records) && this.hash == hash && schema == None
      ensures records.Nodes() == map[] && records.Edges() == map[]
    {
      this.hash := hash;
      records := new RecordStore();
      labels, index, schema := multiset{}, {}, None;
    }

    // ---- Lookup ----

    /** The ids whose entries carry the key, in some order. */
    method Candidates(typeId: U16, name: string, v: Value) returns (ids: seq<Id>)
      ensures forall id: Id :: id in ids <==> EntryOf(hash, typeId, name, v, id) in index
      ensures EachOnce(ids)
    {
      ids := [];
      var pending := index;
      while pending != {}
        invariant pending <= index && EachOnce(ids)
        invariant forall id: Id :: id in ids <==> EntryOf(hash, typeId, name, v, id) in index - pending
        decreases |pending|
      {
        var e :| e in pending;
        pending := pending - {e};
        if e == EntryOf(hash, typeId, name, v, e.id) {
          ids := ids + [e.id];
        }
      }
    }

    /** Whether the type has an index on the path. */
    predicate IsPathIndexed(typeId: U16, path: PropertyPath)
      reads this
    {
      path.Flat? && exists f :: f in FieldsOf(NodeFields(), typeId) && f.HasIndex() && f.name == path.name
    }

    /** The nodes of the type whose value at the path equals the given one: by the index, with every
        candidate confirmed, or by a scan of the live ones when the path has no index. */
    method FindAllNodes(typeId: U16, path: PropertyPath, v: Value, remains: Remains) returns (r: Result<seq<Id>>)
      ensures IsPathIndexed(typeId, path) <==>
        exists f :: f in FieldsOf(NodeFields(), typeId) && (f.indexed || f.unique) && path == Flat(f.name)
      ensures r.Err? <==> IsPathIndexed(typeId, path)
                          && exists id :: Unread(hash, records.Nodes(), remains, index, typeId, path.name, v, id)
      ensures r.Err? ==> exists id :: Unread(hash, records.Nodes(), remains, index, typeId, path.name, v, id) && remains(id) == Err(r.error)
      ensures r.Ok? ==> EachOnce(r.value) && forall id: Id :: id in r.value <==>
        if IsPathIndexed(typeId, path) then Found(hash, records.Nodes(), remains, index, typeId, path.name, v, id)
        else id in records.Nodes() && records.Nodes()[id].typeId == typeId && Matches(path, records.Nodes()[id].props, v)
    {
      hide RecordStore.Nodes, Same, EntryOf;
      var out := [];
      if IsPathIndexed(typeId, path) {
        var candidates := Candidates(typeId, path.name, v);
        for i := 0 to |candidates|
          invariant forall id: Id :: id in out <==>
            id in candidates[..i] && Found(hash, records.Nodes(), remains, index, typeId, path.name, v, id)
          invariant EachOnce(out)
          invariant forall id: Id :: id in candidates[..i] ==> ReadAt(records.Nodes(), remains, id).Ok?
        {
          var id := candidates[i];
          NotBefore(candidates, i);
          var props := ReadAt(records.Nodes(), remains, id);
          if props.Err? {
            assert Unread(hash, records.Nodes(), remains, index, typeId, path.name, v, id);
            return Err(props.error);
          }
          if Matches(path, props.value, v) {
            out := out + [id];
          }
        }
        assert candidates[..|candidates|] == candidates;
      } else {
        out := Scan(typeId, path, v);
      }
      r := Ok(out);
    }

    method Scan(typeId: U16, path: PropertyPath, v: Value) returns (out: seq<Id>)
      ensures EachOnce(out)
      ensures forall id: Id :: id in out <==>
        id in records.Nodes() && records.Nodes()[id].typeId == typeId && Matches(path, records.Nodes()[id].props, v)
    {
      hide RecordStore.Nodes, Matches;
      out := [];
      var views := records.Nodes();
      var pending := views.Keys;
      while pending != {}
        invariant pending <= views.Keys && EachOnce(out)
        invariant forall id: Id :: id in out <==> id in views.Keys - pending && views[id].typeId == typeId && Matches(path, views[id].props, v)
        decreases |pending|
      {
        var id :| id in pending;
        pending := pending - {id};
        if views[id].typeId == typeId && Matches(path, views[id].props, v) {
          out := out + [id];
        }
      }
    }

    /** Whether the index finds another record that holds one of the scalars in a unique field. */
    method CheckUnique(typeId: U16, props: Props, exclude: Option<Id>, remains: Remains) returns (r: Result<()>)
      ensures r.Err? <==> Refuses(typeId, props, exclude, remains)
      ensures r.Err? ==> IsReason(r.error, typeId, props, exclude, remains)
    {
      hide RecordStore.Nodes, Found, Unread;
      var fields := FieldsOf(NodeFields(), typeId);
      for i := 0 to |fields|
        invariant forall n, f :: f in fields[..i] && f.unique ==>
          && !TakenBy(hash, records.Nodes(), remains, index, typeId, f.name, props, exclude, n)
          && !BlockedBy(hash, records.Nodes(), remains, index, typeId, f.name, props, n)
      {
        var f := fields[i];
        assert fields[..i+1] == fields[..i] + [f];
        if f.unique && f.name in props && Indexable(props[f.name]) {
          assert IsPathIndexed(typeId, Flat(f.name));
          var existing := FindAllNodes(typeId, Flat(f.name), props[f.name], remains);
          if existing.Err? {
            var n :| Unread(hash, records.Nodes(), remains, index, typeId, f.name, props[f.name], n) && remains(n) == Err(existing.error);
            assert BlockedBy(hash, records.Nodes(), remains, index, typeId, f.name, props, n);
            return Err(existing.error);
          }
          for j := 0 to |existing.value|
            invariant forall k :: 0 <= k < j ==> Some(existing.value[k]) == exclude
          {
            assert existing.value[j] in existing.value;
            if Some(existing.value[j]) != exclude {
              assert TakenBy(hash, records.Nodes(), remains, index, typeId, f.name, props, exclude, existing.value[j]);
              return Err(UniqueViolation);
            }
          }
        }
      }
      assert fields[..|fields|] == fields;
      r := Ok(());
    }

    // ---- Nodes ----

    /** Adds or removes the index entries that the properties call for. */
    method MaintainPropertyIndex(typeId: U16, id: Id, props: Props, op: IndexOp)
      modifies `index
      ensures var entries := EntriesOf(hash, FieldsOf(NodeFields(), typeId), typeId, props, id);
        index == if op == Add then old(index) + entries else old(index) - entries
    {
      hide EntryOf, EntriesOf;
      var fields := FieldsOf(NodeFields(), typeId);
      NoEntries(hash, typeId, props, id);
      for i := 0 to |fields|
        invariant var entries := EntriesOf(hash, fields[..i], typeId, props, id);
          index == if op == Add then old(index) + entries else old(index) - entries
      {
        var f := fields[i];
        EntriesNext(hash, fields, i, typeId, props, id);
        if f.HasIndex() && f.name in props && Indexable(props[f.name]) {
          var entry := EntryOf(hash, typeId, f.name, props[f.name], id);
          match op
          case Add => index := index + {entry};
          case Remove => index := index - {entry};
        }
      }
      assert fields[..|fields|] == fields;
    }

    /** Inserts a node, unless the uniqueness check refuses it. */
    method InsertNode(typeId: U16, props: Props, remains: Remains) returns (r: Result<Id>)
      requires Consistent()
      modifies this, records
      ensures Consistent() && schema == old(schema) && records.Edges() == old(records.Edges())
      ensures r.Err? <==> old(Refuses(typeId, props, None, remains))
      ensures r.Err? ==> old(IsReason(r.error, typeId, props, None, remains)) && State() == old(State()) && index == old(index)
      ensures r.Ok? ==> && r.value !in old(records.Nodes())
                        && records.Nodes() == old(records.Nodes())[r.value := View(typeId, props, [])]
                        && State() == After(old(State()), Insert(r.value, View(typeId, props, [])))
                        && index == old(index) + EntriesOf(hash, FieldsOf(NodeFields(), typeId), typeId, props, r.value)
      ensures r.Ok? && old(IndexFits()) ==> NoConflict(hash, NodeFields(), old(records.Nodes()), typeId, props, None)
      ensures old(IndexFits()) ==> IndexFits() && (old(UniqueFits()) ==> UniqueFits())
    {
      hide RecordStore.Nodes, RecordStore.Edges, RecordStore.Valid, LabelsOk, UniqueOk, EdgesNormal, IndexOk, EntriesOf, NoConflict, Taken, Blocked;
      hide IsReason;
      var unique := CheckUnique(typeId, props, None, remains);
      if unique.Err? {
        return Err(unique.error);
      }
      ghost var views := records.Nodes();
      var id := records.AllocNode(typeId);
      records.Replace(NodeProps(id), Properties(props));
      ghost var view := View(typeId, props, []);
      assert records.Nodes() == views[id := view];
      LabelsInserted(views, labels, id, view);
      if old(IndexFits()) {
        NodeInserted(hash, NodeFields(), views, remains, index, id, view);
      }
      labels := labels + multiset{(typeId, id)};
      MaintainPropertyIndex(typeId, id, props, Add);
      r := Ok(id);
    }
  
    /** Overwrites the properties of a node, unless they do not match its type or the uniqueness check
        refuses them. */
    method UpdateNodeProperties(id: Id, props: Props, remains: Remains) returns (r: Result<()>)
      requires Consistent()
      modifies this, records
      ensures Consistent() && schema == old(schema) && records.Edges() == old(records.Edges())
      ensures id !in old(records.Nodes()) ==> r == Err(NodeNotFound)
      ensures id in old(records.Nodes()) ==> var view := old(records.Nodes())[id];
        && (!Acceptable(NodeFields(), view.typeId, props) ==> r == Err(ValidationError))
        && (Acceptable(NodeFields(), view.typeId, props) ==>
              && (r.Err? <==> old(Refuses(view.typeId, props, Some(id), remains)))
              && (r.Err? ==> old(IsReason(r.error, view.typeId, props, Some(id), remains))))
        && (r.Ok? ==> && index == old(index) - EntriesOf(hash, FieldsOf(NodeFields(), view.typeId), view.typeId, view.props, id)
                                  + EntriesOf(hash, FieldsOf(NodeFields(), view.typeId), view.typeId, props, id)
                      && (old(IndexFits()) ==> NoConflict(hash, NodeFields(), old(records.Nodes()), view.typeId, props, Some(id))))
      ensures r.Ok? ==> && records.Nodes() == old(records.Nodes())[id := old(records.Nodes())[id].(props := props)]
                        && State() == After(old(State()), Update(id, props))
      ensures r.Err? ==> State() == old(State()) && index == old(index)
      ensures old(IndexFits()) ==> IndexFits() && (old(UniqueFits()) ==> UniqueFits())
    {
      hide RecordStore.Nodes, RecordStore.Edges, RecordStore.Valid, LabelsOk, UniqueOk, EdgesNormal, IndexOk, EntriesOf, NoConflict, Taken, Blocked;
      hide Acceptable, IsReason;
      ghost var views := records.Nodes();
      if id !in records.Nodes() {
        return Err(NodeNotFound);
      }
      var view := records.Nodes()[id];
      if !Acceptable(NodeFields(), view.typeId, props) {
        return Err(ValidationError);
      }
      var unique := CheckUnique(view.typeId, props, Some(id), remains);
      if unique.Err? {
        return unique;
      }
      records.Replace(NodeProps(id), Properties(props));
      LabelsAre(views, labels, id);
      LabelsReplaced(views, labels, labels, id, view.(props := props));
      if old(IndexFits()) {
        NodeUpdated(hash, NodeFields(), views, remains, index, id, props);
      }
      MaintainPropertyIndex(view.typeId, id, view.props, Remove);
      MaintainPropertyIndex(view.typeId, id, props, Add);
      r := Ok(());
    }

    /** Sets the additional labels: normalised, and with the label sets updated by the difference. */
    method SetAdditionalLabels(id: Id, ts: seq<U16>)
      requires Consistent() && id in records.Nodes()
      modifies this, records
      ensures Consistent() && schema == old(schema) && index == old(index) && records.Edges() == old(records.Edges())
      ensures var view := old(records.Nodes())[id];
        && records.Nodes() == old(records.Nodes())[id := view.(labels := Normalized(view.typeId, ts))]
        && State() == After(old(State()), Relabel(id, Normalized(view.typeId, ts)))
      ensures (old(IndexFits()) ==> IndexFits()) && (old(UniqueFits()) ==> UniqueFits())
    {
      hide RecordStore.Nodes, RecordStore.Edges, RecordStore.Valid, LabelsOk, UniqueOk, EdgesNormal, IndexOk, EntriesOf;
      ghost var views := records.Nodes();
      var view := records.Nodes()[id];
      var normalized := Normalize(view.typeId, ts);
      var before := view.labels;
      ghost var labels0 := labels;
      LabelsAre(views, labels, id);
      ReplaceLabels(id, before, normalized);
      NodeRelabelled(views, labels0, labels, id, normalized);
      SameFields(hash, NodeFields(), views, index, id, view.(labels := normalized));
      records.Replace(NodeLabels(id), LabelList(normalized));
    }

    /** Takes the node out of the sets of the labels it loses, and adds it to those it gains. */
    method ReplaceLabels(id: Id, before: seq<U16>, after: seq<U16>)
      requires EachOnce(before) && EachOnce(after)
      requires forall t :: t in before ==> labels[(t, id)] == 1
      requires forall t :: t in after && t !in before ==> labels[(t, id)] == 0
      modifies `labels
      ensures forall t: U16, n: Id ::
        labels[(t, n)] == (if n != id then old(labels)[(t, n)]
                           else if t in before && t !in after then 0
                           else if t in after && t !in before then 1
                           else old(labels)[(t, n)])
    {
      for i := 0 to |before|
        invariant forall t: U16, n: Id ::
          labels[(t, n)] == (if n == id && t in before[..i] && t !in after then 0 else old(labels)[(t, n)])
      {
        NotBefore(before, i);
        if before[i] !in after {
          labels := labels - multiset{(before[i], id)};
        }
      }
      for i := 0 to |after|
        invariant forall t: U16, n: Id ::
          labels[(t, n)] == (if n != id then old(labels)[(t, n)]
                             else if t in before && t !in after then 0
                             else if t in after[..i] && t !in before then 1
                             else old(labels)[(t, n)])
      {
        NotBefore(after, i);
        if after[i] !in before {
          labels := labels + multiset{(after[i], id)};
        }
      }
    }

    method InsertNodeWithLabels(typeId: U16, ts: seq<U16>, props: Props, remains: Remains) returns (r: Result<Id>)
      requires Consistent()
      modifies this, records
      ensures Consistent() && schema == old(schema) && records.Edges() == old(records.Edges())
      ensures r.Err? <==> old(Refuses(typeId, props, None, remains))
      ensures r.Err? ==> old(IsReason(r.error, typeId, props, None, remains)) && State() == old(State()) && index == old(index)
      ensures r.Ok? ==> && r.value !in old(records.Nodes())
                        && records.Nodes() == old(records.Nodes())[r.value := View(typeId, props, Normalized(typeId, ts))]
                        && State() == After(old(State()), Insert(r.value, View(typeId, props, Normalized(typeId, ts))))
                        && index == old(index) + EntriesOf(hash, FieldsOf(NodeFields(), typeId), typeId, props, r.value)
      ensures r.Ok? && old(IndexFits()) ==> NoConflict(hash, NodeFields(), old(records.Nodes()), typeId, props, None)
      ensures old(IndexFits()) ==> IndexFits() && (old(UniqueFits()) ==> UniqueFits())
    {
      hide RecordStore.Nodes, RecordStore.Edges, RecordStore.Valid, Consistent, IndexFits, UniqueFits, NoConflict, Refuses, EntriesOf;
      hide IsReason;
      r := InsertNode(typeId, props, remains);
      if r.Ok? && ts != [] {
        SetAdditionalLabels(r.value, ts);
      }
    }
  
    /** Deletes a node and every edge that starts or ends at it, each once. */
    method DeleteNode(id: Id) returns (r: Result<()>)
      requires Consistent()
      modifies this, records
      ensures Consistent() && schema == old(schema)
      ensures r == if id in old(records.Nodes()) then Ok(()) else Err(NodeNotFound)
      ensures records.Nodes() == old(records.Nodes()) - {id} && State() == After(old(State()), Delete(id))
      ensures records.Edges() == (if r.Ok? then Detached(old(records.Edges()), id) else old(records.Edges()))
      ensures index == if r.Ok? then old(index) - EntriesOfView(hash, NodeFields(), old(records.Nodes())[id], id) else old(index)
      ensures (old(IndexFits()) ==> IndexFits()) && (old(UniqueFits()) ==> UniqueFits())
    {
      hide RecordStore.Nodes, RecordStore.Edges, RecordStore.Valid, LabelsOk, UniqueOk, IndexOk, EntriesOf, Detached, EdgesNormal;
      ghost var views, edges := records.Nodes(), records.Edges();
      if id !in records.Nodes() {
        assert views - {id} == views;
        return Err(NodeNotFound);
      }
      var outs := CollectEdges(id, true);
      var ins := CollectEdges(id, false);
      var cascade := outs + ins;
      var seen: set<Id> := {};
      assert edges - {} == edges;
      for i := 0 to |cascade|
        invariant records.Valid() && records.Nodes() == views && records.Edges() == edges - seen
        invariant index == old(index) && labels == old(labels) && schema == old(schema)
        invariant forall e :: e in seen <==> e in cascade[..i]
      {
        assert cascade[..i+1] == cascade[..i] + [cascade[i]] && cascade[i] in cascade;
        if cascade[i] in seen {
          continue;
        }
        records.RemoveEdge(cascade[i]);
        seen := seen + {cascade[i]};
        assert edges - seen == (edges - (seen - {cascade[i]})) - {cascade[i]};
      }
      assert cascade[..|cascade|] == cascade;
      AllDetached(edges, seen, id);
      FewerEdges(edges, seen);
      var view := records.Nodes()[id];
      if old(IndexFits()) {
        IndexRemoved(hash, NodeFields(), views, index, id);
      }
      if old(UniqueFits()) {
        UniqueFewer(hash, NodeFields(), views, {id});
      }
      MaintainPropertyIndex(view.typeId, id, view.props, Remove);
      ghost var labels0 := labels;
      RemoveLabels([view.typeId] + view.labels, id);
      LabelsDropped(views, labels0, labels, id);
      records.RemoveNode(id);
      r := Ok(());
    }

    /** The edges that start at the node, or those that end at it. */
    method CollectEdges(id: Id, outgoing: bool) returns (out: seq<Id>)
      ensures forall e: Id :: e in out <==>
        e in records.Edges() && id == (if outgoing then records.Edges()[e].fromNode else records.Edges()[e].toNode)
    {
      hide RecordStore.Edges;
      out := [];
      var edges := records.Edges();
      var pending := edges.Keys;
      while pending != {}
        invariant pending <= edges.Keys
        invariant forall e: Id :: e in out <==>
          e in edges.Keys - pending && id == (if outgoing then edges[e].fromNode else edges[e].toNode)
        decreases |pending|
      {
        var e :| e in pending;
        pending := pending - {e};
        if id == (if outgoing then edges[e].fromNode else edges[e].toNode) {
          out := out + [e];
        }
      }
    }

    method RemoveLabels(ts: seq<U16>, id: Id)
      modifies `labels
      ensures forall t: U16, n: Id :: n != id || t !in ts ==> labels[(t, n)] == old(labels[(t, n)])
      ensures forall t: U16 :: t in ts && old(labels[(t, id)]) <= 1 ==> labels[(t, id)] == 0
    {
      for i := 0 to |ts|
        invariant forall t: U16, n: Id :: n != id || t !in ts[..i] ==> labels[(t, n)] == old(labels[(t, n)])
        invariant forall t: U16 :: t in ts[..i] && old(labels[(t, id)]) <= 1 ==> labels[(t, id)] == 0
      {
        labels := labels - multiset{(ts[i], id)};
      }
    }

    /** The nodes in the label set of the type: those with it as their primary or an additional type. */
    method RidsOfType(typeId: U16) returns (ids: seq<Id>)
      requires LabelsOk(records.Nodes(), labels)
      ensures forall id: Id :: id in ids <==> id in records.Nodes() && Carries(records.Nodes()[id], typeId)
      ensures EachOnce(ids)
    {
      hide RecordStore.Nodes, LabelsOk, Carries, EachOnce;
      ids := [];
      var pending := labels;
      while |pending| > 0
        invariant forall t: U16, n: Id :: pending[(t, n)] <= labels[(t, n)]
        invariant forall n: Id :: multiset(ids)[n] + pending[(typeId, n)] == labels[(typeId, n)]
        decreases |pending|
      {
        var pair :| pair in pending;
        pending := pending - multiset{pair};
        if pair.0 == typeId {
          ids := ids + [pair.1];
        }
      }
      ListedOnce(records.Nodes(), labels, typeId, ids);
    }

    /** Edges never dangle. */
    lemma EndpointsAreLive(e: Id)
      requires Consistent() && e in records.Edges()
      ensures records.Edges()[e].fromNode in records.Nodes() && records.Edges()[e].toNode in records.Nodes()
    {
    }

    // ---- Edges ----

    method InsertEdge(typeId: U16, fromNode: Id, toNode: Id, props: Props) returns (r: Result<Id>)
      requires Consistent()
      modifies records
      ensures Consistent() && State() == old(State()) && (old(Valid()) ==> Valid())
      ensures r.Ok? <==> fromNode in records.Nodes() && toNode in records.Nodes()
      ensures r.Ok? ==> && r.value !in old(records.Edges())
                        && records.Edges() == old(records.Edges())[r.value := EdgeView(View(typeId, props, []), fromNode, toNode)]
      ensures r.Err? ==> r == Err(NodeNotFound) && records.Edges() == old(records.Edges())
    {
      hide RecordStore.Nodes, RecordStore.Edges, RecordStore.Valid, LabelsOk, UniqueOk, EdgesNormal, IndexOk;
      if fromNode !in records.Nodes() {
        return Err(NodeNotFound);
      }
      if toNode !in records.Nodes() {
        return Err(NodeNotFound);
      }
      ghost var edges := records.Edges();
      var id := records.AllocEdge(typeId, fromNode, toNode);
      records.Replace(EdgeProps(id), Properties(props));
      assert records.Edges() == edges[id := EdgeView(View(typeId, props, []), fromNode, toNode)];
      EdgePut(edges, id, EdgeView(View(typeId, props, []), fromNode, toNode));
      r := Ok(id);
    }

    method InsertEdgeWithLabels(typeId: U16, fromNode: Id, toNode: Id, ts: seq<U16>, props: Props) returns (r: Result<Id>)
      requires Consistent()
      modifies records
      ensures Consistent() && State() == old(State()) && (old(Valid()) ==> Valid())
      ensures r.Ok? <==> fromNode in records.Nodes() && toNode in records.Nodes()
      ensures r.Ok? ==> && r.value !in old(records.Edges())
                        && records.Edges() == old(records.Edges())[
                             r.value := EdgeView(View(typeId, props, Normalized(typeId, ts)), fromNode, toNode)]
      ensures r.Err? ==> r == Err(NodeNotFound) && records.Edges() == old(records.Edges())
    {
      hide RecordStore.Nodes, RecordStore.Edges, RecordStore.Valid, LabelsOk, UniqueOk, EdgesNormal, IndexOk;
      ghost var edges := records.Edges();
      r := InsertEdge(typeId, fromNode, toNode, props);
      if r.Ok? && ts != [] {
        var normalized := Normalize(typeId, ts);
        records.Replace(EdgeLabels(r.value), LabelList(normalized));
        assert records.Edges() == edges[r.value := EdgeView(View(typeId, props, normalized), fromNode, toNode)];
        EdgePut(edges, r.value, EdgeView(View(typeId, props, normalized), fromNode, toNode));
      }
    }

    /** Overwrites the properties of an edge, unless they do not match its type. */
    method UpdateEdgeProperties(id: Id, props: Props) returns (r: Result<()>)
      requires Consistent()
      modifies records
      ensures Consistent() && State() == old(State()) && (old(Valid()) ==> Valid())
      ensures r == if id !in old(records.Edges()) then Err(EdgeNotFound)
                   else if !Acceptable(EdgeFields(), old(records.Edges())[id].view.typeId, props) then Err(ValidationError)
                   else Ok(())
      ensures records.Edges() == (if r.Ok?
        then old(records.Edges())[id := old(records.Edges())[id].(view := old(records.Edges())[id].view.(props := props))]
        else old(records.Edges()))
    {
      hide RecordStore.Nodes, RecordStore.Edges, RecordStore.Valid, LabelsOk, UniqueOk, EdgesNormal, IndexOk;
      if id !in records.Edges() {
        return Err(EdgeNotFound);
      }
      if !Acceptable(EdgeFields(), records.Edges()[id].view.typeId, props) {
        return Err(ValidationError);
      }
      EdgeIs(records.Edges(), id);
      EdgePut(records.Edges(), id, records.Edges()[id].(view := records.Edges()[id].view.(props := props)));
      records.Replace(EdgeProps(id), Properties(props));
      r := Ok(());
    }

    method DeleteEdge(id: Id) returns (r: Result<()>)
      requires Consistent()
      modifies records
      ensures Consistent() && State() == old(State()) && (old(Valid()) ==> Valid())
      ensures r == if id in old(records.Edges()) then Ok(()) else Err(EdgeNotFound)
      ensures records.Edges() == old(records.Edges()) - {id}
    {
      hide RecordStore.Nodes, RecordStore.Edges, RecordStore.Valid, LabelsOk, UniqueOk, EdgesNormal, IndexOk;
      if id !in records.Edges() {
        return Err(EdgeNotFound);
      }
      FewerEdges(records.Edges(), {id});
      records.RemoveEdge(id);
      r := Ok(());
    }
  }

  method Normalize(typeId: U16, ts: seq<U16>) returns (r: seq<U16>)
    ensures r == Normalized(typeId, ts)
  {
    r := [];
    for i := 0 to |ts|
      invariant r == Normalized(typeId, ts[..i])
    {
      assert ts[..i+1][..i] == ts[..i];
      if ts[i] != typeId && ts[i] !in r {
        r := r + [ts[i]];
      }
    }
    assert ts[..|ts|] == ts;
  }

  /** Index and unique fields after a node has been added with its entries. */
  lemma NodeInserted(hash: Hash, fields: Fields, views: map<Id, View>, remains: Remains, index: set<Entry>, id: Id, view: View)
    requires IndexOk(hash, fields, views, index) && id !in views
    requires !Taken(hash, fields, views, remains, index, view.typeId, view.props, None)
    ensures NoConflict(hash, fields, views, view.typeId, view.props, None)
    ensures IndexOk(hash, fields, views[id := view], index + EntriesOf(hash, FieldsOf(fields, view.typeId), view.typeId, view.props, id))
    ensures UniqueOk(hash, fields, views) ==> UniqueOk(hash, fields, views[id := view])
  {
    IndexInserted(hash, fields, views, index, id, view);
    TakenIff(hash, fields, views, remains, index, view.typeId, view.props, None);
    hide IndexOk, Taken;
    if UniqueOk(hash, fields, views) {
      UniqueKept(hash, fields, views, id, view);
    }
  }

  lemma LabelsInserted(views: map<Id, View>, labels: multiset<(U16, Id)>, id: Id, view: View)
    requires LabelsOk(views, labels) && id !in views && view.labels == []
    ensures LabelsOk(views[id := view], labels + multiset{(view.typeId, id)})
  {
    LabelsReplaced(views, labels, labels + multiset{(view.typeId, id)}, id, view);
  }

  lemma NoEntries(hash: Hash, typeId: U16, props: Props, id: Id)
    ensures EntriesOf(hash, [], typeId, props, id) == {}
  {
  }

  lemma NodeUpdated(hash: Hash, fields: Fields, views: map<Id, View>, remains: Remains, index: set<Entry>, id: Id, props: Props)
    requires IndexOk(hash, fields, views, index) && id in views
    requires !Taken(hash, fields, views, remains, index, views[id].typeId, props, Some(id))
    ensures var typeId, view := views[id].typeId, views[id].(props := props);
      && NoConflict(hash, fields, views, typeId, props, Some(id))
      && IndexOk(hash, fields, views[id := view],
                 index - EntriesOf(hash, FieldsOf(fields, typeId), typeId, views[id].props, id)
                 + EntriesOf(hash, FieldsOf(fields, typeId), typeId, props, id))
      && (UniqueOk(hash, fields, views) ==> UniqueOk(hash, fields, views[id := view]))
  {
    var view := views[id].(props := props);
    IndexUpdated(hash, fields, views, index, id, view);
    TakenIff(hash, fields, views, remains, index, view.typeId, props, Some(id));
    hide IndexOk, Taken;
    if UniqueOk(hash, fields, views) {
      UniqueKept(hash, fields, views, id, view);
    }
  }

  lemma LabelsAre(views: map<Id, View>, labels: multiset<(U16, Id)>, id: Id)
    requires LabelsOk(views, labels) && id in views
    ensures NormalLabels(views[id])
    ensures forall t: U16 :: labels[(t, id)] == if Carries(views[id], t) then 1 else 0
  {
  }

  lemma NodeRelabelled(views: map<Id, View>, labels: multiset<(U16, Id)>, labels2: multiset<(U16, Id)>, id: Id, ts: seq<U16>)
    requires LabelsOk(views, labels) && id in views && NormalLabels(views[id].(labels := ts))
    requires forall t: U16, n: Id ::
      labels2[(t, n)] == (if n != id then labels[(t, n)]
                          else if t in views[id].labels && t !in ts then 0
                          else if t in ts && t !in views[id].labels then 1
                          else labels[(t, n)])
    ensures LabelsOk(views[id := views[id].(labels := ts)], labels2)
  {
    LabelsReplaced(views, labels, labels2, id, views[id].(labels := ts));
  }

  /** Index and uniqueness depend on types and properties only. */
  lemma SameFields(hash: Hash, fields: Fields, views: map<Id, View>, index: set<Entry>, id: Id, view: View)
    requires id in views && view.typeId == views[id].typeId && view.props == views[id].props
    ensures IndexOk(hash, fields, views, index) ==> IndexOk(hash, fields, views[id := view], index)
    ensures UniqueOk(hash, fields, views) ==> UniqueOk(hash, fields, views[id := view])
  {
  }

  /** The edges that neither start nor end at the node. */
  function Detached(edges: map<Id, EdgeView>, id: Id): map<Id, EdgeView> {
    map e | e in edges && edges[e].fromNode != id && edges[e].toNode != id :: edges[e]
  }

  lemma AllDetached(edges: map<Id, EdgeView>, seen: set<Id>, id: Id)
    requires forall e :: e in seen <==> e in edges && (edges[e].fromNode == id || edges[e].toNode == id)
    ensures edges - seen == Detached(edges, id)
    ensures forall e :: e in edges - seen ==> edges[e].fromNode != id && edges[e].toNode != id
  {
  }

  lemma LabelsDropped(views: map<Id, View>, labels: multiset<(U16, Id)>, labels2: multiset<(U16, Id)>, id: Id)
    requires LabelsOk(views, labels) && id in views
    requires var ts := [views[id].typeId] + views[id].labels;
      && (forall t: U16, n: Id :: n != id || t !in ts ==> labels2[(t, n)] == labels[(t, n)])
      && (forall t: U16 :: t in ts && labels[(t, id)] <= 1 ==> labels2[(t, id)] == 0)
    ensures LabelsOk(views - {id}, labels2)
  {
  }

  lemma ListedOnce(views: map<Id, View>, labels: multiset<(U16, Id)>, typeId: U16, ids: seq<Id>)
    requires LabelsOk(views, labels) && forall n: Id :: multiset(ids)[n] == labels[(typeId, n)]
    ensures forall id: Id :: id in ids <==> id in views && Carries(views[id], typeId)
    ensures EachOnce(ids)
  {
    forall id: Id ensures id in ids <==> id in views && Carries(views[id], typeId) {
      assert id in ids <==> id in multiset(ids);
    }
    forall i, j | 0 <= i < j < |ids| ensures ids[i] != ids[j] {
      CountedTwice(ids, i, j);
    }
  }

  lemma CountedTwice(ids: seq<Id>, i: nat, j: nat)
    requires i < j < |ids|
    ensures ids[i] == ids[j] ==> 2 <= multiset(ids)[ids[i]]
  {
    assert ids == ids[..j] + ids[j..];
    assert ids[..j][i] in multiset(ids[..j]) && ids[j..][0] in multiset(ids[j..]);
  }

  /** Edges carry normalised label lists too. */
  ghost predicate EdgesNormal(edges: map<Id, EdgeView>) {
    forall e :: e in edges ==> NormalLabels(edges[e].view)
  }

  lemma EdgeIs(edges: map<Id, EdgeView>, id: Id)
    requires EdgesNormal(edges) && id in edges
    ensures NormalLabels(edges[id].view)
  {
  }

  lemma EdgePut(edges: map<Id, EdgeView>, id: Id, edge: EdgeView)
    requires EdgesNormal(edges) && NormalLabels(edge.view)
    ensures EdgesNormal(edges[id := edge])
  {
  }

  lemma FewerEdges(edges: map<Id, EdgeView>, gone: set<Id>)
    requires EdgesNormal(edges)
    ensures EdgesNormal(edges - gone)
  {
  }
}
