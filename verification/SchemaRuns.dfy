/**
 * Runs of writes and schema changes over the nodes of a database (chiffondb-core/src/db.rs): which
 * write a stored value comes from, and that removing and adding a field never brings old data back.
 * The operations of `Database` and `SchemaChanges` are steps of such runs.
 */
module SchemaRuns {
  import opened Types
  import opened Convert
  import opened Records
  import opened Indexing
  import opened Rewriting

  /** The declared fields and the nodes. */
  datatype Contents = Contents(fields: Fields, views: map<Id, View>)

  datatype Change =
    | Insert(id: Id, view: View)
    | Update(id: Id, props: Props)
    | Relabel(id: Id, labels: seq<U16>)
    | Delete(id: Id)
    | Apply(fields: Fields)

  function After(s: Contents, c: Change): Contents {
    match c
    case Insert(id, view) => s.(views := s.views[id := view])
    case Update(id, props) => if id in s.views then s.(views := s.views[id := s.views[id].(props := props)]) else s
    case Relabel(id, labels) => if id in s.views then s.(views := s.views[id := s.views[id].(labels := labels)]) else s
    case Delete(id) => s.(views := s.views - {id})
    case Apply(fields2) => Contents(fields2, PurgedNodes(s.fields, fields2, s.views))
  }

  /** The contents after a run that starts without nodes. */
  function Run(fields: Fields, changes: seq<Change>): Contents {
    if changes == [] then Contents(fields, map[])
    else After(Run(fields, changes[..|changes|-1]), changes[|changes|-1])
  }

  predicate Stores(s: Contents, id: Id, k: string, v: Value) {
    id in s.views && k in s.views[id].props && s.views[id].props[k] == v
  }

  /** A reader sees a value unless the node's type is declared without its name. */
  predicate Shows(s: Contents, id: Id, k: string, v: Value) {
    Stores(s, id, k, v) && (s.views[id].typeId in s.fields ==> k in Names(s.fields[s.views[id].typeId]))
  }

  /** The properties that a step writes for the node. */
  function Written(s: Contents, c: Change, id: Id): Option<Props> {
    match c
    case Insert(n, view) => if n == id then Some(view.props) else None
    case Update(n, props) => if n == id && id in s.views then Some(props) else None
    case _ => None
  }

  /** The step leaves the node's value of the name in place: it does not write or delete the node, nor is
      it a schema that changes the field names of the node's type and lacks the name, or had lacked it. */
  predicate Keeps(s: Contents, c: Change, id: Id, k: string) {
    && Written(s, c, id).None? && c != Delete(id)
    && (c.Apply? && id in s.views && Changes(s.fields, c.fields, s.views[id].typeId) ==>
          k in Names(s.fields[s.views[id].typeId]) * Names(c.fields[s.views[id].typeId]))
  }

  /** Step `w` of the run wrote the value, and every later step kept it. */
  ghost predicate Source(fields: Fields, changes: seq<Change>, w: nat, id: Id, k: string, v: Value) {
    && w < |changes|
    && Written(Run(fields, changes[..w]), changes[w], id).Some?
    && k in Written(Run(fields, changes[..w]), changes[w], id).value
    && Written(Run(fields, changes[..w]), changes[w], id).value[k] == v
    && forall i :: w < i < |changes| ==> Keeps(Run(fields, changes[..i]), changes[i], id, k)
  }

  lemma StepStores(s: Contents, c: Change, id: Id, k: string, v: Value)
    ensures Stores(After(s, c), id, k, v) <==>
      if Written(s, c, id).Some? then k in Written(s, c, id).value && Written(s, c, id).value[k] == v
      else Stores(s, id, k, v) && Keeps(s, c, id, k)
  {
    if c.Apply? && id in s.views {
      PurgedValue(s.fields, c.fields, s.views[id], k);
    }
    hide Purged, Names;
  }

  /** The sources in a run are those in the run before, as far as the last step keeps them, or the last step. */
  lemma SourceStep(fields: Fields, changes: seq<Change>, w: nat, id: Id, k: string, v: Value)
    requires w < |changes|
    ensures var n := |changes| - 1;
      var s := Run(fields, changes[..n]);
      Source(fields, changes, w, id, k, v) <==>
        if w == n then Written(s, changes[n], id).Some? && k in Written(s, changes[n], id).value && Written(s, changes[n], id).value[k] == v
        else Source(fields, changes[..n], w, id, k, v) && Keeps(s, changes[n], id, k)
  {
    hide Run, Written, Keeps;
    var n := |changes| - 1;
    assert forall i :: 0 <= i <= n ==> changes[..n][..i] == changes[..i];
    if w < n {
      assert forall i :: 0 <= i < n ==> changes[..n][i] == changes[i];
    }
  }

  /** A node holds a value after a run exactly when some step wrote it and no later one replaced or
      dropped it. */
  lemma {:induction false} StoredIff(fields: Fields, changes: seq<Change>, id: Id, k: string, v: Value)
    ensures Stores(Run(fields, changes), id, k, v) <==> exists w: nat :: Source(fields, changes, w, id, k, v)
  {
    hide Keeps, Written, After, Stores;
    if changes == [] {
      NothingStored(fields, id, k, v);
    } else {
      var n := |changes| - 1;
      var s := Run(fields, changes[..n]);
      StoredIff(fields, changes[..n], id, k, v);
      StepStores(s, changes[n], id, k, v);
      if Stores(Run(fields, changes), id, k, v) {
        var w: nat := n;
        if Written(s, changes[n], id).None? {
          w :| Source(fields, changes[..n], w, id, k, v);
        }
        SourceStep(fields, changes, w, id, k, v);
        assert Source(fields, changes, w, id, k, v);
      }
      if w: nat :| Source(fields, changes, w, id, k, v) {
        SourceStep(fields, changes, w, id, k, v);
        if w < n {
          KeepsMeans(s, changes[n], id, k);
        }
      }
    }
  }

  lemma NothingStored(fields: Fields, id: Id, k: string, v: Value)
    ensures !Stores(Run(fields, []), id, k, v)
  {
  }

  lemma KeepsMeans(s: Contents, c: Change, id: Id, k: string)
    requires Keeps(s, c, id, k)
    ensures Written(s, c, id).None?
    ensures id in s.views && id in After(s, c).views ==> After(s, c).views[id].typeId == s.views[id].typeId
  {
    if c.Apply? && id in s.views {
      PurgedValue(s.fields, c.fields, s.views[id], k);
    }
    hide Purged, Names;
  }

  /** After the writing step the node holds the value throughout, and keeps its type. */
  lemma {:induction false} StoredSince(fields: Fields, changes: seq<Change>, w: nat, id: Id, k: string, v: Value, i: nat)
    requires Source(fields, changes, w, id, k, v) && w < i <= |changes|
    ensures Stores(Run(fields, changes[..i]), id, k, v) && Stores(Run(fields, changes), id, k, v)
    ensures Run(fields, changes[..i]).views[id].typeId == Run(fields, changes).views[id].typeId
    decreases |changes|
  {
    StoredIff(fields, changes, id, k, v);
    hide Keeps, Written, After;
    var n := |changes| - 1;
    if i == n + 1 {
      assert changes[..i] == changes;
    } else {
      SourceStep(fields, changes, w, id, k, v);
      StoredSince(fields, changes[..n], w, id, k, v, i);
      assert changes[..n][..i] == changes[..i];
      KeepsMeans(Run(fields, changes[..n]), changes[n], id, k);
    }
  }

  /** The type has been declared from step `i` of the run on. */
  ghost predicate DeclaredSince(fields: Fields, changes: seq<Change>, typeId: U16, i: nat) {
    forall j :: i <= j <= |changes| ==> typeId in Run(fields, changes[..j]).fields
  }

  /** Along any run a value visible under a declared field is the one a step wrote, and no later step
      has written; and as far back towards that step as the type has been declared all along, the field
      has been: removing and adding a name never brings old data back. */
  lemma NothingResurfaces(fields: Fields, changes: seq<Change>, id: Id, k: string, v: Value)
    requires Shows(Run(fields, changes), id, k, v)
    ensures var t := Run(fields, changes).views[id].typeId;
      exists w: nat ::
        && Source(fields, changes, w, id, k, v)
        && forall i :: w < i <= |changes| && DeclaredSince(fields, changes, t, i) ==> k in Names(Run(fields, changes[..i]).fields[t])
  {
    hide Run, Names, Source;
    var t := Run(fields, changes).views[id].typeId;
    StoredIff(fields, changes, id, k, v);
    var w: nat :| Source(fields, changes, w, id, k, v);
    forall i | w < i <= |changes| && DeclaredSince(fields, changes, t, i) ensures k in Names(Run(fields, changes[..i]).fields[t]) {
      DeclaredBack(fields, changes, w, id, k, v, i);
    }
  }

  lemma {:induction false} DeclaredBack(fields: Fields, changes: seq<Change>, w: nat, id: Id, k: string, v: Value, i: nat)
    requires Shows(Run(fields, changes), id, k, v) && Source(fields, changes, w, id, k, v) && w < i <= |changes|
    requires DeclaredSince(fields, changes, Run(fields, changes).views[id].typeId, i)
    ensures var t := Run(fields, changes).views[id].typeId;
      k in Names(Run(fields, changes[..i]).fields[t])
    decreases |changes| - i
  {
    hide Names, Run, Stores, Keeps, After, Written;
    if i == |changes| {
      assert changes[..i] == changes;
      ShowsDeclared(Run(fields, changes), id, k, v);
    } else {
      DeclaredBack(fields, changes, w, id, k, v, i + 1);
      StoredSince(fields, changes, w, id, k, v, i);
      StepOf(fields, changes, i);
      StepDeclares(Run(fields, changes[..i]), changes[i], id, k, v);
    }
  }

  lemma ShowsDeclared(s: Contents, id: Id, k: string, v: Value)
    requires Shows(s, id, k, v)
    ensures s.views[id].typeId in s.fields ==> k in Names(s.fields[s.views[id].typeId])
  {
  }

  lemma StepOf(fields: Fields, changes: seq<Change>, i: nat)
    requires i < |changes|
    ensures Run(fields, changes[..i+1]) == After(Run(fields, changes[..i]), changes[i])
  {
    assert changes[..i+1][..i] == changes[..i];
  }

  lemma StepDeclares(s: Contents, c: Change, id: Id, k: string, v: Value)
    requires Stores(s, id, k, v) && Keeps(s, c, id, k)
    requires var t := s.views[id].typeId; t in s.fields && t in After(s, c).fields && k in Names(After(s, c).fields[t])
    ensures k in Names(s.fields[s.views[id].typeId])
  {
    hide Names;
  }

  /** The type has to stay declared: when it is removed and declared anew its values come back, even under
      a field that it did not declare when they were written. */
  lemma RemovedTypeReturns(before: seq<Field>, t: U16, k: string, v: Value, id: Id)
    ensures var field := Field(k, Scalar(StringType), false, false);
      var changes := [Insert(id, View(t, map[k := v], [])), Apply(map[]), Apply(map[t := [field]])];
      Shows(Run(map[t := before], changes), id, k, v)
  {
    var field := Field(k, Scalar(StringType), false, false);
    var view := View(t, map[k := v], []);
    var a, b, c := Insert(id, view), Apply(map[]), Apply(map[t := [field]]);
    OneMoreStep(map[t := before], [], a);
    assert [] + [a] == [a];
    OneMoreStep(map[t := before], [a], b);
    OneMoreStep(map[t := before], [a] + [b], c);
    assert [a] + [b] + [c] == [a, b, c];
    assert field.name in Names([field]);
  }

  lemma OneMoreStep(fields: Fields, changes: seq<Change>, c: Change)
    ensures Run(fields, []) == Contents(fields, map[])
    ensures Run(fields, changes + [c]) == After(Run(fields, changes), c)
  {
    assert (changes + [c])[..|changes|] == changes;
  }
}
