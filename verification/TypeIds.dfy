/**
 * Persistent type ids (chiffondb-core/src/schema/store.rs): the names of a schema keep the ids that
 * earlier schemas gave them, and new names take the next id of a counter that never goes back.
 */
module TypeIds {
  import opened Types

  datatype Kind = Node | Edge

  /** A definition of the schema; only its kind and name matter here. */
  datatype Definition = Definition(kind: Kind, name: string)

  type Assignments = seq<(string, U16)>

  /** The ids of one kind: name and id pairs as stored, and the next id to hand out. */
  datatype Ids = Ids(list: Assignments, next: U16)

  datatype SchemaDto = SchemaDto(definitions: seq<Definition>, nodes: Ids, edges: Ids) {
    function Of(kind: Kind): Ids {
      match kind case Node => nodes case Edge => edges
    }
  }

  const MAX_ID: U16 := 0xFFFF

  // ---- What a list of assignments means ----

  /** The registry's view of the list: a later pair overrides an earlier one. */
  function Registry(list: Assignments): map<string, U16> {
    if list == [] then map[]
    else
      var last := list[|list|-1];
      Registry(list[..|list|-1])[last.0 := last.1]
  }

  /** The first pair with the name, which is where registration looks. */
  function FirstId(list: Assignments, name: string): Option<U16> {
    if list == [] then None
    else if list[0].0 == name then Some(list[0].1)
    else FirstId(list[1..], name)
  }

  /** Different names have different ids, and every id has been handed out. */
  ghost predicate Distinct(ids: Ids) {
    && 1 <= ids.next
    && (forall i :: 0 <= i < |ids.list| ==> 1 <= ids.list[i].1 < ids.next)
    && forall i, j :: 0 <= i < |ids.list| && 0 <= j < |ids.list| && ids.list[i].1 == ids.list[j].1 ==>
         ids.list[i].0 == ids.list[j].0
  }

  lemma {:induction false} RegistryFinds(list: Assignments, name: string)
    ensures name in Registry(list) <==> exists i :: 0 <= i < |list| && list[i].0 == name
    ensures name in Registry(list) ==> (name, Registry(list)[name]) in list
  {
    if list != [] {
      var n := |list| - 1;
      RegistryFinds(list[..n], name);
      if name in Registry(list[..n]) {
        var i :| 0 <= i < n && list[..n][i].0 == name;
        assert list[i].0 == name;
        assert (name, Registry(list[..n])[name]) in list[..n];
      }
      assert list[n] == (list[n].0, list[n].1);
      if i: nat :| i < |list| && list[i].0 == name {
        assert i < n ==> list[..n][i].0 == name;
      }
    }
  }

  lemma Single(name: string, id: U16)
    ensures Registry([(name, id)]) == map[name := id]
  {
    var list: Assignments := [(name, id)];
    assert list[..0] == [];
  }

  lemma {:induction false} RegistryAppend(a: Assignments, b: Assignments, name: string)
    ensures name in Registry(a + b) <==> name in Registry(a) || name in Registry(b)
    ensures name in Registry(b) ==> Registry(a + b)[name] == Registry(b)[name]
    ensures name in Registry(a) && name !in Registry(b) ==> Registry(a + b)[name] == Registry(a)[name]
    decreases |b|
  {
    if b == [] {
      assert a + b == a;
    } else {
      var n := |b| - 1;
      assert (a + b)[..|a|+n] == a + b[..n] && (a + b)[|a|+n] == b[n];
      RegistryAppend(a, b[..n], name);
    }
  }

  // ---- Assigning ids to a schema ----

  /** The names of one kind, in the order of their definitions. */
  function Names(definitions: seq<Definition>, kind: Kind): (names: seq<string>) {
    if definitions == [] then []
    else
      var d := definitions[|definitions|-1];
      Names(definitions[..|definitions|-1], kind) + if d.kind == kind then [d.name] else []
  }

  /** Inherited or new ids for the names, in order. The counter is a 16-bit number; it wraps where the
      program is built without overflow checks, and stops the program otherwise. */
  function Minted(names: seq<string>, prev: map<string, U16>, next: U16): Ids {
    if names == [] then Ids([], next)
    else
      var n := |names| - 1;
      var rest := Minted(names[..n], prev, next);
      if names[n] in prev then rest.(list := rest.list + [(names[n], prev[names[n]])])
      else Ids(rest.list + [(names[n], rest.next)], (rest.next + 1) % 0x1_0000)
  }

  /** The assignments whose names have no definition. */
  function Undefined(list: Assignments, names: seq<string>): Assignments {
    if list == [] then []
    else
      var last := list[|list|-1];
      Undefined(list[..|list|-1], names) + if last.0 in names then [] else [last]
  }

  function Max1(x: U16): U16 {
    if x == 0 then 1 else x
  }

  /** The ids of one kind after a schema with these names has been saved over `prev`. */
  function Assigned(names: seq<string>, prev: Ids): Ids {
    var minted := Minted(names, Registry(prev.list), Max1(prev.next));
    minted.(list := minted.list + Undefined(prev.list, names))
  }

  const NO_IDS := Ids([], 1)

  function PreviousIds(stored: Option<SchemaDto>, kind: Kind): Ids {
    if stored.None? then NO_IDS else stored.value.Of(kind)
  }

  /** What saving a schema leaves in the database. */
  function Saved(definitions: seq<Definition>, stored: Option<SchemaDto>): SchemaDto {
    SchemaDto(definitions,
              Assigned(Names(definitions, Node), PreviousIds(stored, Node)),
              Assigned(Names(definitions, Edge), PreviousIds(stored, Edge)))
  }

  /** The number of new ids that the names take. */
  function Fresh(names: seq<string>, prev: map<string, U16>): nat {
    if names == [] then 0
    else Fresh(names[..|names|-1], prev) + if names[|names|-1] in prev then 0 else 1
  }

  // ---- Registering a name without a definition ----

  function WithIds(dto: SchemaDto, kind: Kind, ids: Ids): SchemaDto {
    match kind case Node => dto.(nodes := ids) case Edge => dto.(edges := ids)
  }

  function Registered(ids: Ids, name: string): Ids {
    if FirstId(ids.list, name).Some? || Max1(ids.next) == MAX_ID then ids
    else Ids(ids.list + [(name, Max1(ids.next))], Max1(ids.next) + 1)
  }

  // ---- The store ----

  class SchemaStore {
    var stored: Option<SchemaDto>

    constructor ()
      ensures stored == None
    {
      stored := None;
    }

    /** Saves a schema that passed the migration check. */
    method SaveSchema(definitions: seq<Definition>)
      modifies this
      ensures stored == Some(Saved(definitions, old(stored)))
    {
      var nodes, edges := AssignTypeIds(definitions, stored);
      stored := Some(SchemaDto(definitions, nodes, edges));
    }

    /** The id of the name, and whether it is new. */
    method RegisterDynamicType(kind: Kind, name: string) returns (r: Result<(U16, bool)>)
      modifies this
      ensures match old(stored)
        case None => r == Err(SchemaError) && stored == None
        case Some(dto) =>
          var ids := dto.Of(kind);
          && stored == Some(WithIds(dto, kind, Registered(ids, name)))
          && r == if FirstId(ids.list, name).Some? then Ok((FirstId(ids.list, name).value, false))
                  else if Max1(ids.next) == MAX_ID then Err(SchemaError)
                  else Ok((Max1(ids.next), true))
    {
      if stored.None? {
        return Err(SchemaError);
      }
      var dto := stored.value;
      var ids := dto.Of(kind);
      for i := 0 to |ids.list|
        invariant stored == old(stored)
        invariant FirstId(ids.list, name) == FirstId(ids.list[i..], name)
      {
        if ids.list[i].0 == name {
          return Ok((ids.list[i].1, false));
        }
        assert ids.list[i..][1..] == ids.list[i+1..];
      }
      var id := Max1(ids.next);
      if id == MAX_ID {
        return Err(SchemaError);
      }
      ids := Ids(ids.list + [(name, id)], id + 1);
      stored := Some(WithIds(dto, kind, ids));
      r := Ok((id, true));
    }
  }

  /** The map that the source collects from the stored pairs. */
  method CollectIds(list: Assignments) returns (m: map<string, U16>)
    ensures m == Registry(list)
  {
    m := map[];
    for i := 0 to |list|
      invariant m == Registry(list[..i])
    {
      assert list[..i+1][..i] == list[..i];
      m := m[list[i].0 := list[i].1];
    }
    assert list[..|list|] == list;
  }

  method AssignTypeIds(definitions: seq<Definition>, previous: Option<SchemaDto>) returns (nodes: Ids, edges: Ids)
    ensures nodes == Saved(definitions, previous).nodes && edges == Saved(definitions, previous).edges
  {
    hide Minted, Names, Registry, Undefined;
    NothingMinted();
    var prevNodes: map<string, U16>, prevEdges: map<string, U16> := map[], map[];
    var nextNode: U16, nextEdge: U16 := 1, 1;
    if previous.Some? {
      prevNodes := CollectIds(previous.value.nodes.list);
      prevEdges := CollectIds(previous.value.edges.list);
      nextNode, nextEdge := Max1(previous.value.nodes.next), Max1(previous.value.edges.next);
    }
    ghost var nextNode0, nextEdge0 := nextNode, nextEdge;
    var nodeIds: Assignments, edgeIds: Assignments := [], [];
    for i := 0 to |definitions|
      invariant Ids(nodeIds, nextNode) == Minted(Names(definitions[..i], Node), prevNodes, nextNode0)
      invariant Ids(edgeIds, nextEdge) == Minted(Names(definitions[..i], Edge), prevEdges, nextEdge0)
    {
      var d := definitions[i];
      NamesNext(definitions, i);
      MintedNext(Names(definitions[..i], Node), d.name, prevNodes, nextNode0);
      MintedNext(Names(definitions[..i], Edge), d.name, prevEdges, nextEdge0);
      match d.kind
      case Node =>
        if d.name in prevNodes {
          nodeIds := nodeIds + [(d.name, prevNodes[d.name])];
        } else {
          nodeIds, nextNode := nodeIds + [(d.name, nextNode)], (nextNode + 1) % 0x1_0000;
        }
      case Edge =>
        if d.name in prevEdges {
          edgeIds := edgeIds + [(d.name, prevEdges[d.name])];
        } else {
          edgeIds, nextEdge := edgeIds + [(d.name, nextEdge)], (nextEdge + 1) % 0x1_0000;
        }
    }
    assert definitions[..|definitions|] == definitions;
    if previous.Some? {
      nodeIds := KeepUndefined(nodeIds, previous.value.nodes.list, Names(definitions, Node));
      edgeIds := KeepUndefined(edgeIds, previous.value.edges.list, Names(definitions, Edge));
    }
    nodes, edges := Ids(nodeIds, nextNode), Ids(edgeIds, nextEdge);
  }

  lemma NothingMinted()
    ensures forall prev: map<string, U16>, next: U16 :: Minted([], prev, next) == Ids([], next)
    ensures Names([], Node) == [] && Names([], Edge) == []
    ensures Registry([]) == map[] && forall names: seq<string> :: Undefined([], names) == []
  {
  }

  lemma NamesNext(definitions: seq<Definition>, i: nat)
    requires i < |definitions|
    ensures forall kind :: Names(definitions[..i+1], kind)
                           == if definitions[i].kind == kind then Names(definitions[..i], kind) + [definitions[i].name]
                              else Names(definitions[..i], kind)
  {
    assert definitions[..i+1][..i] == definitions[..i];
  }

  lemma MintedNext(names: seq<string>, name: string, prev: map<string, U16>, next: U16)
    ensures var rest := Minted(names, prev, next);
      Minted(names + [name], prev, next)
      == if name in prev then rest.(list := rest.list + [(name, prev[name])])
         else Ids(rest.list + [(name, rest.next)], (rest.next + 1) % 0x1_0000)
  {
    assert (names + [name])[..|names|] == names;
  }

  /** Appends the pairs of the previous list whose names the new schema does not define. */
  method KeepUndefined(ids: Assignments, list: Assignments, names: seq<string>) returns (r: Assignments)
    ensures r == ids + Undefined(list, names)
  {
    r := ids;
    for i := 0 to |list|
      invariant r == ids + Undefined(list[..i], names)
    {
      assert list[..i+1][..i] == list[..i];
      if list[i].0 !in names {
        r := r + [list[i]];
      }
    }
    assert list[..|list|] == list;
  }

  // ---- Ids are never shared ----

  lemma DistinctPart(ids: Ids, list: Assignments)
    requires Distinct(ids) && forall i :: 0 <= i < |list| ==> list[i] in ids.list
    ensures Distinct(Ids(list, ids.next))
  {
    forall i | 0 <= i < |list| ensures 1 <= list[i].1 < ids.next {
      var k :| 0 <= k < |ids.list| && ids.list[k] == list[i];
    }
    forall i, j | 0 <= i < |list| && 0 <= j < |list| && list[i].1 == list[j].1 ensures list[i].0 == list[j].0 {
      var k :| 0 <= k < |ids.list| && ids.list[k] == list[i];
      var l :| 0 <= l < |ids.list| && ids.list[l] == list[j];
      assert ids.list[k].1 == ids.list[l].1;
    }
  }

  lemma DistinctNew(ids: Ids, name: string)
    requires Distinct(ids) && ids.next < MAX_ID
    ensures Distinct(Ids(ids.list + [(name, ids.next)], ids.next + 1))
  {
  }

  lemma {:induction false} MintedDistinct(names: seq<string>, prev: Ids)
    requires Distinct(prev) && prev.next + Fresh(names, Registry(prev.list)) <= MAX_ID
    ensures var minted := Minted(names, Registry(prev.list), prev.next);
      && Distinct(Ids(prev.list + minted.list, minted.next))
      && minted.next == prev.next + Fresh(names, Registry(prev.list))
  {
    hide Distinct, Registry;
    if names == [] {
      assert prev.list + [] == prev.list;
    } else {
      var n := |names| - 1;
      MintedDistinct(names[..n], prev);
      RegistryFinds(prev.list, names[n]);
      var minted := Minted(names[..n], Registry(prev.list), prev.next);
      var all := prev.list + minted.list;
      if names[n] in Registry(prev.list) {
        var kept := (names[n], Registry(prev.list)[names[n]]);
        assert kept in all;
        DistinctPart(Ids(all, minted.next), all + [kept]);
        assert all + [kept] == prev.list + (minted.list + [kept]);
      } else {
        DistinctNew(Ids(all, minted.next), names[n]);
        assert all + [(names[n], minted.next)] == prev.list + (minted.list + [(names[n], minted.next)]);
      }
    }
  }

  lemma ModNext(x: nat)
    ensures (x % 0x1_0000 + 1) % 0x1_0000 == (x + 1) % 0x1_0000
    ensures x == MAX_ID ==> x % 0x1_0000 == MAX_ID
  {
  }

  /** A wrapped counter leaves an id that it has not reached. */
  lemma {:induction false} MintedWraps(names: seq<string>, prev: map<string, U16>, next: U16)
    ensures Minted(names, prev, next).next == (next + Fresh(names, prev)) % 0x1_0000
    ensures MAX_ID < next + Fresh(names, prev) ==>
      exists i :: 0 <= i < |Minted(names, prev, next).list| && Minted(names, prev, next).list[i].1 == MAX_ID
  {
    if names != [] {
      var n := |names| - 1;
      MintedWraps(names[..n], prev, next);
      ModNext(next + Fresh(names[..n], prev));
      var rest, all := Minted(names[..n], prev, next).list, Minted(names, prev, next).list;
      if MAX_ID < next + Fresh(names[..n], prev) {
        var i :| 0 <= i < |rest| && rest[i].1 == MAX_ID;
        assert all[i].1 == MAX_ID;
      } else if MAX_ID < next + Fresh(names, prev) {
        assert all[|rest|].1 == MAX_ID;
      }
    }
  }

  lemma {:induction false} UndefinedPart(list: Assignments, names: seq<string>)
    ensures forall i :: 0 <= i < |Undefined(list, names)| ==>
      Undefined(list, names)[i] in list && Undefined(list, names)[i].0 !in names
  {
    if list != [] {
      UndefinedPart(list[..|list|-1], names);
    }
  }

  /** Saving a schema keeps every id below the counter, which keeps those of later names apart, exactly
      when the counter does not run out. */
  lemma SavingKeepsDistinctIff(names: seq<string>, prev: Ids)
    requires Distinct(prev)
    ensures Distinct(Assigned(names, prev)) <==> prev.next + Fresh(names, Registry(prev.list)) <= MAX_ID
  {
    var minted := Minted(names, Registry(prev.list), prev.next);
    var kept := Undefined(prev.list, names);
    if prev.next + Fresh(names, Registry(prev.list)) <= MAX_ID {
      MintedDistinct(names, prev);
      UndefinedPart(prev.list, names);
      DistinctPart(Ids(prev.list + minted.list, minted.next), minted.list + kept);
    } else {
      MintedWraps(names, Registry(prev.list), prev.next);
      var i :| 0 <= i < |minted.list| && minted.list[i].1 == MAX_ID;
      assert Assigned(names, prev).list[i] == minted.list[i];
    }
  }

  lemma RegisteringKeepsDistinct(ids: Ids, name: string)
    requires Distinct(ids)
    ensures Distinct(Registered(ids, name)) && ids.next <= Registered(ids, name).next
  {
  }

  // ---- Names keep their ids ----

  lemma {:induction false} MintedKeeps(names: seq<string>, prev: map<string, U16>, next: U16, name: string)
    ensures var list := Minted(names, prev, next).list;
      && (name in Registry(list) <==> name in names)
      && (name in names && name in prev ==> Registry(list)[name] == prev[name])
  {
    if names != [] {
      var n := |names| - 1;
      MintedKeeps(names[..n], prev, next, name);
      var list := Minted(names, prev, next).list;
      assert list[..|list|-1] == Minted(names[..n], prev, next).list;
      assert name in names <==> name in names[..n] || name == names[n];
    }
  }

  lemma {:induction false} UndefinedKeeps(list: Assignments, names: seq<string>, name: string)
    ensures name in Registry(Undefined(list, names)) <==> name in Registry(list) && name !in names
    ensures name in Registry(list) && name !in names ==> Registry(Undefined(list, names))[name] == Registry(list)[name]
  {
    if list != [] {
      var n := |list| - 1;
      UndefinedKeeps(list[..n], names, name);
      RegistryAppend(Undefined(list[..n], names), if list[n].0 in names then [] else [list[n]], name);
      Single(list[n].0, list[n].1);
    }
  }

  /** Every name that has an id keeps it, whether or not the new schema still defines it, and every
      defined name has one. */
  lemma SavingKeepsIds(names: seq<string>, prev: Ids, name: string)
    ensures var after := Registry(Assigned(names, prev).list);
      && (name in after <==> name in names || name in Registry(prev.list))
      && (name in Registry(prev.list) ==> after[name] == Registry(prev.list)[name])
  {
    var minted := Minted(names, Registry(prev.list), Max1(prev.next)).list;
    MintedKeeps(names, Registry(prev.list), Max1(prev.next), name);
    UndefinedKeeps(prev.list, names, name);
    RegistryAppend(minted, Undefined(prev.list, names), name);
  }

  /** After a save of each kind exactly the defined names and those that had an id have one, and an id that
      there was stays; the definitions are stored as they are. */
  lemma SavedIds(definitions: seq<Definition>, stored: Option<SchemaDto>, name: string)
    ensures var dto := Saved(definitions, stored);
      && dto.definitions == definitions
      && (name in Registry(dto.nodes.list) <==>
            Definition(Node, name) in definitions || (stored.Some? && name in Registry(stored.value.nodes.list)))
      && (name in Registry(dto.edges.list) <==>
            Definition(Edge, name) in definitions || (stored.Some? && name in Registry(stored.value.edges.list)))
      && (stored.Some? && name in Registry(stored.value.nodes.list) ==>
            Registry(dto.nodes.list)[name] == Registry(stored.value.nodes.list)[name])
      && (stored.Some? && name in Registry(stored.value.edges.list) ==>
            Registry(dto.edges.list)[name] == Registry(stored.value.edges.list)[name])
  {
    SavingKeepsIds(Names(definitions, Node), PreviousIds(stored, Node), name);
    SavingKeepsIds(Names(definitions, Edge), PreviousIds(stored, Edge), name);
    NamesAre(definitions, Node, name);
    NamesAre(definitions, Edge, name);
    hide Assigned;
  }

  lemma {:induction false} NamesAre(definitions: seq<Definition>, kind: Kind, name: string)
    ensures name in Names(definitions, kind) <==> Definition(kind, name) in definitions
  {
    if definitions != [] {
      var n := |definitions| - 1;
      NamesAre(definitions[..n], kind, name);
      assert definitions == definitions[..n] + [definitions[n]];
    }
  }

  lemma {:induction false} FirstIdFinds(list: Assignments, name: string)
    ensures FirstId(list, name).Some? <==> name in Registry(list)
  {
    RegistryFinds(list, name);
    if list != [] && list[0].0 != name {
      FirstIdFinds(list[1..], name);
      RegistryFinds(list[1..], name);
      if i :| 0 <= i < |list| && list[i].0 == name {
        assert list[1..][i-1] == list[i];
      }
      if i :| 0 <= i < |list[1..]| && list[1..][i].0 == name {
        assert list[i+1].0 == name;
      }
    } else if list != [] {
      assert list[0].0 == name;
    }
  }

  /** Registration leaves every id, and gives the name one unless the ids have run out. */
  lemma RegisteringKeepsIds(ids: Ids, name: string, other: string)
    ensures var after := Registry(Registered(ids, name).list);
      && (name in after <==> name in Registry(ids.list) || Max1(ids.next) != MAX_ID)
      && (other in Registry(ids.list) ==> other in after && after[other] == Registry(ids.list)[other])
  {
    FirstIdFinds(ids.list, name);
    Single(name, Max1(ids.next));
    RegistryAppend(ids.list, [(name, Max1(ids.next))], name);
    RegistryAppend(ids.list, [(name, Max1(ids.next))], other);
  }

  // ---- Runs ----

  datatype Op = Save(definitions: seq<Definition>) | Register(kind: Kind, name: string)

  function Step(stored: Option<SchemaDto>, op: Op): Option<SchemaDto> {
    match op
    case Save(definitions) => Some(Saved(definitions, stored))
    case Register(kind, name) =>
      match stored
      case None => None
      case Some(dto) => Some(WithIds(dto, kind, Registered(dto.Of(kind), name)))
  }

  function Run(stored: Option<SchemaDto>, ops: seq<Op>): Option<SchemaDto>
    decreases |ops|
  {
    if ops == [] then stored else Run(Step(stored, ops[0]), ops[1..])
  }

  /** No save of the run uses up the ids. Registration checks this by itself. */
  predicate InRange(stored: Option<SchemaDto>, ops: seq<Op>)
    decreases |ops|
  {
    if ops == [] then true
    else
      && (ops[0].Save? ==> forall kind ::
            var prev := PreviousIds(stored, kind);
            prev.next + Fresh(Names(ops[0].definitions, kind), Registry(prev.list)) <= MAX_ID)
      && InRange(Step(stored, ops[0]), ops[1..])
  }

  /** From one state to a later one: ids are kept apart, no name changes its id, no counter goes back. */
  ghost predicate Extends(before: Ids, after: Ids) {
    && Distinct(after)
    && before.next <= after.next
    && forall name :: name in Registry(before.list) ==>
         name in Registry(after.list) && Registry(after.list)[name] == Registry(before.list)[name]
  }

  lemma SaveExtends(names: seq<string>, before: Ids)
    requires Distinct(before) && before.next + Fresh(names, Registry(before.list)) <= MAX_ID
    ensures Extends(before, Assigned(names, before))
  {
    hide Registry, Undefined;
    SavingKeepsDistinctIff(names, before);
    MintedWraps(names, Registry(before.list), before.next);
    forall name | name in Registry(before.list)
      ensures name in Registry(Assigned(names, before).list)
      ensures Registry(Assigned(names, before).list)[name] == Registry(before.list)[name]
    {
      SavingKeepsIds(names, before, name);
    }
  }

  lemma RegisterExtends(ids: Ids, name: string)
    requires Distinct(ids)
    ensures Extends(ids, Registered(ids, name))
  {
    hide Registry;
    RegisteringKeepsDistinct(ids, name);
    forall other | other in Registry(ids.list)
      ensures other in Registry(Registered(ids, name).list)
      ensures Registry(Registered(ids, name).list)[other] == Registry(ids.list)[other]
    {
      RegisteringKeepsIds(ids, name, other);
    }
  }

  lemma StepExtends(stored: Option<SchemaDto>, op: Op, kind: Kind)
    requires forall k :: Distinct(PreviousIds(stored, k))
    requires InRange(stored, [op])
    ensures Extends(PreviousIds(stored, kind), PreviousIds(Step(stored, op), kind))
  {
    hide Distinct, Registry, Assigned, Registered;
    match op
    case Save(definitions) => SaveExtends(Names(definitions, kind), PreviousIds(stored, kind));
    case Register(k, name) =>
      if stored.Some? && k == kind {
        RegisterExtends(PreviousIds(stored, kind), name);
      }
  }

  /** Along any run within the id range, from an empty database on: two names of a kind never share an
      id, a name keeps its id for ever, even without a definition, and the counters never go back. */
  lemma {:induction false} RunExtends(stored: Option<SchemaDto>, ops: seq<Op>, kind: Kind)
    requires forall k :: Distinct(PreviousIds(stored, k))
    requires InRange(stored, ops)
    ensures Extends(PreviousIds(stored, kind), PreviousIds(Run(stored, ops), kind))
    decreases |ops|
  {
    hide Distinct, Step, Registry;
    if ops != [] {
      var next := Step(stored, ops[0]);
      InRangeFirst(stored, ops);
      forall k ensures Distinct(PreviousIds(next, k)) {
        StepExtends(stored, ops[0], k);
      }
      StepExtends(stored, ops[0], kind);
      RunExtends(next, ops[1..], kind);
    }
  }

  lemma InRangeFirst(stored: Option<SchemaDto>, ops: seq<Op>)
    requires ops != [] && InRange(stored, ops)
    ensures InRange(stored, [ops[0]])
  {
    assert [ops[0]][1..] == [];
  }

  /** An id once held by a name never belongs to another. */
  lemma IdsAreNeverReused(stored: Option<SchemaDto>, ops: seq<Op>, kind: Kind, a: string, b: string)
    requires forall k :: Distinct(PreviousIds(stored, k))
    requires InRange(stored, ops)
    requires a in Registry(PreviousIds(stored, kind).list)
    requires b in Registry(PreviousIds(Run(stored, ops), kind).list)
    requires Registry(PreviousIds(Run(stored, ops), kind).list)[b] == Registry(PreviousIds(stored, kind).list)[a]
    ensures a == b
  {
    RunExtends(stored, ops, kind);
    var list := PreviousIds(Run(stored, ops), kind).list;
    RegistryFinds(list, a);
    RegistryFinds(list, b);
    var i :| 0 <= i < |list| && list[i] == (a, Registry(list)[a]);
    var j :| 0 <= j < |list| && list[j] == (b, Registry(list)[b]);
  }

  /** Without the bound an id is handed out twice: two new names make the counter wrap past the last id
      to 0 and on to 1, and the name that the next schema adds gets id 1, whoever holds it already. */
  lemma WrappedCounterReissues(prev: Ids, a: string, b: string, c: string)
    requires prev.next == MAX_ID && a != b && a != c && b != c
    requires forall i :: 0 <= i < |prev.list| ==> prev.list[i].0 !in [a, b, c]
    ensures Assigned([a, b], prev).next == 1
    ensures (c, 1) in Assigned([c], Assigned([a, b], prev)).list
    ensures forall entry :: entry in prev.list ==> entry in Assigned([c], Assigned([a, b], prev)).list
  {
    WrapsTo1(prev, a, b);
    var first := Assigned([a, b], prev);
    RegistryFinds(prev.list, c);
    SavingKeepsIds([a, b], prev, c);
    AllIn(first, c);
  }

  lemma WrapsTo1(prev: Ids, a: string, b: string)
    requires prev.next == MAX_ID && a != b
    requires forall i :: 0 <= i < |prev.list| ==> prev.list[i].0 !in [a, b]
    ensures Assigned([a, b], prev) == Ids([(a, MAX_ID), (b, 0)] + prev.list, 1)
  {
    hide Registry;
    RegistryFinds(prev.list, a);
    RegistryFinds(prev.list, b);
    MintedNext([], a, Registry(prev.list), MAX_ID);
    MintedNext([a], b, Registry(prev.list), MAX_ID);
    assert [] + [a] == [a] && [a] + [b] == [a, b];
    AllUndefined(prev.list, [a, b]);
  }

  /** A new name takes the next id, and every other name keeps its pair. */
  lemma AllIn(first: Ids, c: string)
    requires c !in Registry(first.list) && first.next == 1
    ensures (c, 1) in Assigned([c], first).list
    ensures forall entry :: entry in first.list ==> entry in Assigned([c], first).list
  {
    MintedNext([], c, Registry(first.list), 1);
    assert [] + [c] == [c];
    RegistryFinds(first.list, c);
    hide Registry;
    forall i | 0 <= i < |first.list| ensures first.list[i].0 !in [c] {
    }
    AllUndefined(first.list, [c]);
  }

  lemma {:induction false} AllUndefined(list: Assignments, names: seq<string>)
    requires forall i :: 0 <= i < |list| ==> list[i].0 !in names
    ensures Undefined(list, names) == list
  {
    if list != [] {
      AllUndefined(list[..|list|-1], names);
    }
  }

  // ---- When two names share an id ----

  ghost predicate SharesIds(list: Assignments) {
    exists i, j :: 0 <= i < |list| && 0 <= j < |list| && list[i].1 == list[j].1 && list[i].0 != list[j].0
  }

  /** The number that the counter gives to the `k`-th new name. */
  function NewId(next: U16, k: nat): U16 {
    (next + k) % 0x1_0000
  }

  predicate IsNew(names: seq<string>, prev: map<string, U16>, i: nat) {
    i < |names| && names[i] !in prev
  }

  /** How many new names stand before place `i`. */
  function Rank(names: seq<string>, prev: map<string, U16>, i: nat): nat {
    if i <= |names| then Fresh(names[..i], prev) else 0
  }

  predicate Holds(list: Assignments, name: string, id: U16) {
    (name, id) in list
  }

  /** A stored pair that a save takes over: an undefined name keeps all it has, a defined one its id. */
  ghost predicate IsKept(names: seq<string>, prev: Ids, name: string, id: U16) {
    Holds(prev.list, name, id) && (name in names && name in Registry(prev.list) ==> Registry(prev.list)[name] == id)
  }

  /** A pair that a save adds. */
  ghost predicate IsAdded(names: seq<string>, prev: Ids, name: string, id: U16) {
    exists i: nat :: AddedAt(names, prev, name, id, i)
  }

  ghost predicate AddedAt(names: seq<string>, prev: Ids, name: string, id: U16, i: nat) {
    IsNew(names, Registry(prev.list), i) && name == names[i] && id == NewId(prev.next, Rank(names, Registry(prev.list), i))
  }

  /** The counter has come around to the id of a kept pair. */
  ghost predicate ReachesKept(names: seq<string>, prev: Ids) {
    exists name: string, id: U16 ::
      IsKept(names, prev, name, id) && id + 0x1_0000 < prev.next + Fresh(names, Registry(prev.list))
  }

  /** Two different new names stand a multiple of 0x1_0000 new names apart. */
  ghost predicate NewNamesMeet(names: seq<string>, prev: map<string, U16>) {
    exists i: nat, j: nat :: IsNew(names, prev, i) && IsNew(names, prev, j) && names[i] != names[j]
                             && Rank(names, prev, i) % 0x1_0000 == Rank(names, prev, j) % 0x1_0000
  }

  lemma {:induction false} MintedLength(names: seq<string>, prev: map<string, U16>, next: U16)
    ensures |Minted(names, prev, next).list| == |names|
  {
    if names != [] {
      MintedLength(names[..|names|-1], prev, next);
    }
  }

  lemma {:induction false} MintedAt(names: seq<string>, prev: map<string, U16>, next: U16, i: nat)
    requires i < |names|
    ensures |Minted(names, prev, next).list| == |names|
    ensures Minted(names, prev, next).list[i]
            == (names[i], if names[i] in prev then prev[names[i]] else NewId(next, Rank(names, prev, i)))
    ensures IsNew(names, prev, i) ==> Rank(names, prev, i) < Fresh(names, prev)
  {
    var n := |names| - 1;
    MintedLength(names, prev, next);
    MintedLength(names[..n], prev, next);
    if i < n {
      MintedAt(names[..n], prev, next, i);
      assert names[..n][..i] == names[..i];
    } else {
      MintedWraps(names[..n], prev, next);
    }
  }

  /** The definitions of the kind before place `i` whose names have no id yet. */
  function NewBefore(definitions: seq<Definition>, kind: Kind, prev: map<string, U16>, i: nat): set<nat> {
    set k: nat | k < i && k < |definitions| && definitions[k].kind == kind && definitions[k].name !in prev
  }

  lemma NewBeforeNext(definitions: seq<Definition>, kind: Kind, prev: map<string, U16>, i: nat)
    requires i < |definitions|
    ensures NewBefore(definitions, kind, prev, i + 1)
            == NewBefore(definitions, kind, prev, i) + if definitions[i].kind == kind && definitions[i].name !in prev then {i} else {}
    ensures i !in NewBefore(definitions, kind, prev, i)
  {
  }

  lemma CountNext(s: set<nat>, i: nat)
    requires i !in s
    ensures |s + {i}| == |s| + 1 && |s + {}| == |s|
  {
    assert s + {} == s;
  }

  lemma FreshNext(names: seq<string>, name: string, prev: map<string, U16>)
    ensures Fresh(names + [name], prev) == Fresh(names, prev) + if name in prev then 0 else 1
  {
    assert (names + [name])[..|names|] == names;
  }

  lemma {:induction false} NewBeforeCounts(definitions: seq<Definition>, kind: Kind, prev: map<string, U16>, i: nat)
    requires i <= |definitions|
    ensures |NewBefore(definitions, kind, prev, i)| == Fresh(Names(definitions[..i], kind), prev)
  {
    if i == 0 {
      assert NewBefore(definitions, kind, prev, 0) == {};
    } else {
      hide NewBefore, Fresh, Names;
      NewBeforeCounts(definitions, kind, prev, i - 1);
      NamesNext(definitions, i - 1);
      NewBeforeNext(definitions, kind, prev, i - 1);
      CountNext(NewBefore(definitions, kind, prev, i - 1), i - 1);
      FreshNext(Names(definitions[..i-1], kind), definitions[i-1].name, prev);
    }
  }

  lemma {:induction false} NamesFrom(definitions: seq<Definition>, kind: Kind, i: nat)
    requires i <= |definitions|
    ensures Names(definitions[..i], kind) <= Names(definitions, kind)
    decreases |definitions| - i
  {
    if i < |definitions| {
      NamesFrom(definitions, kind, i + 1);
      NamesNext(definitions, i);
    } else {
      assert definitions[..i] == definitions;
    }
  }

  /** A name that has no id takes the next one: the counter, which starts at 1, plus the number of such
      definitions of its kind before it. The counter moves on by the number of all of them. */
  lemma NewNamesInOrder(definitions: seq<Definition>, stored: Option<SchemaDto>, i: nat)
    requires i < |definitions|
    ensures var d := definitions[i];
      var next := if stored.None? || stored.value.Of(d.kind).next == 0 then 1 else stored.value.Of(d.kind).next;
      var prev := if stored.None? then map[] else Registry(stored.value.Of(d.kind).list);
      var ids := Saved(definitions, stored).Of(d.kind);
      && (d.name !in prev ==> (d.name, (next + |NewBefore(definitions, d.kind, prev, i)|) % 0x1_0000) in ids.list)
      && ids.next == (next + |NewBefore(definitions, d.kind, prev, |definitions|)|) % 0x1_0000
  {
    hide NewBefore, Fresh, Registry, Names, Minted, Undefined;
    var d, n := definitions[i], |definitions|;
    var ids := PreviousIds(stored, d.kind);
    var names, prev, next := Names(definitions, d.kind), Registry(ids.list), Max1(ids.next);
    NothingMinted();
    NewBeforeCounts(definitions, d.kind, prev, i);
    NewBeforeCounts(definitions, d.kind, prev, n);
    assert definitions[..n] == definitions;
    MintedWraps(names, prev, next);
    if d.name !in prev {
      NewNameAt(definitions, d.kind, prev, next, i);
      assert Assigned(names, ids).list == Minted(names, prev, next).list + Undefined(ids.list, names);
    }
  }

  lemma NewNameAt(definitions: seq<Definition>, kind: Kind, prev: map<string, U16>, next: U16, i: nat)
    requires i < |definitions| && definitions[i].kind == kind && definitions[i].name !in prev
    ensures var names := Names(definitions, kind);
      (definitions[i].name, (next + Fresh(Names(definitions[..i], kind), prev)) % 0x1_0000) in Minted(names, prev, next).list
  {
    hide Fresh, Names, Minted;
    var names, m := Names(definitions, kind), |Names(definitions[..i], kind)|;
    NamesNext(definitions, i);
    NamesFrom(definitions, kind, i);
    NamesFrom(definitions, kind, i + 1);
    assert names[m] == definitions[i].name && names[..m] == Names(definitions[..i], kind);
    MintedAt(names, prev, next, m);
  }

  /** Every rank below the number of new names belongs to one of them. */
  lemma {:induction false} RankTaken(names: seq<string>, prev: map<string, U16>, k: nat) returns (i: nat)
    requires k < Fresh(names, prev)
    ensures IsNew(names, prev, i) && Rank(names, prev, i) == k
  {
    var n := |names| - 1;
    if k < Fresh(names[..n], prev) {
      i := RankTaken(names[..n], prev, k);
      assert names[..n][..i] == names[..i];
    } else {
      i := n;
    }
  }

  lemma {:induction false} UndefinedHolds(list: Assignments, names: seq<string>, name: string, id: U16)
    ensures Holds(Undefined(list, names), name, id) <==> Holds(list, name, id) && name !in names
  {
    if list != [] {
      var n := |list| - 1;
      UndefinedHolds(list[..n], names, name, id);
      assert list == list[..n] + [list[n]];
    }
  }

  lemma HeldName(list: Assignments, name: string, id: U16)
    requires Holds(list, name, id)
    ensures name in Registry(list)
  {
    RegistryFinds(list, name);
    var i: nat :| i < |list| && list[i] == (name, id);
    assert list[i].0 == name;
  }

  /** What the first part of the list holds: the pairs of defined names. */
  lemma MintedHolds(names: seq<string>, prev: Ids, name: string, id: U16)
    ensures Holds(Minted(names, Registry(prev.list), prev.next).list, name, id)
      <==> IsAdded(names, prev, name, id)
           || (name in names && name in Registry(prev.list) && Registry(prev.list)[name] == id)
  {
    hide Registry, Fresh, Rank, NewId, Minted;
    var registry := Registry(prev.list);
    var minted := Minted(names, registry, prev.next).list;
    MintedLength(names, registry, prev.next);
    forall i: nat | i < |names|
      ensures minted[i] == (names[i], if names[i] in registry then registry[names[i]] else NewId(prev.next, Rank(names, registry, i)))
    {
      MintedAt(names, registry, prev.next, i);
    }
    if Holds(minted, name, id) {
      var i: nat :| i < |minted| && minted[i] == (name, id);
      assert names[i] == name;
      assert name !in registry ==> AddedAt(names, prev, name, id, i);
    }
    if IsAdded(names, prev, name, id) {
      var i: nat :| AddedAt(names, prev, name, id, i);
      assert minted[i] == (name, id);
    }
    if name in names && name in registry && registry[name] == id {
      var i: nat :| i < |names| && names[i] == name;
      assert minted[i] == (name, id);
    }
  }

  /** The pairs after a save: the kept ones and the added ones. */
  lemma AssignedHolds(names: seq<string>, prev: Ids, name: string, id: U16)
    requires Distinct(prev)
    ensures Holds(Assigned(names, prev).list, name, id) <==> IsKept(names, prev, name, id) || IsAdded(names, prev, name, id)
  {
    MintedHolds(names, prev, name, id);
    UndefinedHolds(prev.list, names, name, id);
    RegistryFinds(prev.list, name);
    if Holds(prev.list, name, id) {
      HeldName(prev.list, name, id);
    }
    hide Registry, Minted, Undefined, IsAdded;
    assert Max1(prev.next) == prev.next;
  }

  /** The counter comes to an id below it exactly by coming around. */
  lemma ComesAround(next: U16, id: U16, k: nat)
    requires id < next
    ensures NewId(next, k) == id ==> id + 0x1_0000 <= next + k
    ensures next + k == id + 0x1_0000 ==> NewId(next, k) == id
  {
  }

  lemma SameRemainder(next: U16, k: nat, l: nat)
    ensures NewId(next, k) == NewId(next, l) <==> k % 0x1_0000 == l % 0x1_0000
  {
    NewIdOf(next, k);
    NewIdOf(next, l);
    hide NewId;
  }

  lemma NewIdOf(next: U16, k: nat)
    ensures var r := k % 0x1_0000;
      NewId(next, k) == if next + r < 0x1_0000 then next + r else next + r - 0x1_0000
  {
  }

  lemma Shared(list: Assignments, name: string, name2: string, id: U16)
    requires Holds(list, name, id) && Holds(list, name2, id) && name != name2
    ensures SharesIds(list)
  {
    var i :| 0 <= i < |list| && list[i] == (name, id);
    var j :| 0 <= j < |list| && list[j] == (name2, id);
    assert list[i].1 == list[j].1 && list[i].0 != list[j].0;
  }

  lemma KeptIsBelow(names: seq<string>, prev: Ids, name: string, id: U16)
    requires Distinct(prev) && IsKept(names, prev, name, id)
    ensures id < prev.next && name in Registry(prev.list)
  {
    HeldName(prev.list, name, id);
    var i: nat :| i < |prev.list| && prev.list[i] == (name, id);
    assert prev.list[i].1 == id;
  }

  /** An added pair has the id of a kept one only when the counter has come around to it. */
  lemma KeptIsReached(names: seq<string>, prev: Ids, name: string, added: string, id: U16)
    requires Distinct(prev) && IsKept(names, prev, name, id) && IsAdded(names, prev, added, id)
    ensures ReachesKept(names, prev)
  {
    KeptIsBelow(names, prev, name, id);
    hide Registry, Rank, NewId, Fresh, Distinct, IsKept;
    var registry := Registry(prev.list);
    var i: nat :| AddedAt(names, prev, added, id, i);
    MintedAt(names, registry, prev.next, i);
    ComesAround(prev.next, id, Rank(names, registry, i));
  }

  lemma HeldByOne(ids: Ids, name: string, name2: string, id: U16)
    requires Distinct(ids) && name != name2
    ensures !Holds(ids.list, name, id) || !Holds(ids.list, name2, id)
  {
    forall i, j | 0 <= i < |ids.list| && 0 <= j < |ids.list| && ids.list[i] == (name, id)
      ensures ids.list[j] != (name2, id)
    {
      assert ids.list[j].1 == ids.list[i].1 ==> ids.list[j].0 == ids.list[i].0;
    }
  }

  lemma SharingIsMeeting(names: seq<string>, prev: Ids, name: string, name2: string, id: U16)
    requires Distinct(prev) && name != name2
    requires Holds(Assigned(names, prev).list, name, id) && Holds(Assigned(names, prev).list, name2, id)
    ensures ReachesKept(names, prev) || NewNamesMeet(names, Registry(prev.list))
  {
    AssignedHolds(names, prev, name, id);
    AssignedHolds(names, prev, name2, id);
    HeldByOne(prev, name, name2, id);
    if IsKept(names, prev, name, id) {
      KeptIsReached(names, prev, name, name2, id);
    } else if IsKept(names, prev, name2, id) {
      KeptIsReached(names, prev, name2, name, id);
    } else {
      hide Registry, Rank, NewId, Assigned, Fresh, Distinct, IsKept;
      var i: nat :| AddedAt(names, prev, name, id, i);
      var j: nat :| AddedAt(names, prev, name2, id, j);
      SameRemainder(prev.next, Rank(names, Registry(prev.list), i), Rank(names, Registry(prev.list), j));
    }
  }

  /** After a save two different names share an id exactly when the counter has come around to the id
      of a name that keeps it, or so many names are new that two of them meet. */
  lemma SavingSharesIff(names: seq<string>, prev: Ids)
    requires Distinct(prev)
    ensures SharesIds(Assigned(names, prev).list) <==>
      ReachesKept(names, prev) || NewNamesMeet(names, Registry(prev.list))
  {
    hide Registry, Rank, NewId, Assigned, Fresh, IsKept, Distinct;
    var registry, list := Registry(prev.list), Assigned(names, prev).list;
    if SharesIds(list) {
      var i, j :| 0 <= i < |list| && 0 <= j < |list| && list[i].1 == list[j].1 && list[i].0 != list[j].0;
      assert list[i] == (list[i].0, list[i].1) && list[j] == (list[j].0, list[j].1);
      SharingIsMeeting(names, prev, list[i].0, list[j].0, list[i].1);
    }
    if ReachesKept(names, prev) {
      var name: string, id: U16 :| IsKept(names, prev, name, id) && id + 0x1_0000 < prev.next + Fresh(names, registry);
      KeptIsBelow(names, prev, name, id);
      var i := RankTaken(names, registry, id + 0x1_0000 - prev.next);
      ComesAround(prev.next, id, id + 0x1_0000 - prev.next);
      assert AddedAt(names, prev, names[i], id, i);
      AssignedHolds(names, prev, name, id);
      AssignedHolds(names, prev, names[i], id);
      Shared(list, name, names[i], id);
    }
    if NewNamesMeet(names, registry) {
      var i: nat, j: nat :| IsNew(names, registry, i) && IsNew(names, registry, j) && names[i] != names[j]
                            && Rank(names, registry, i) % 0x1_0000 == Rank(names, registry, j) % 0x1_0000;
      SameRemainder(prev.next, Rank(names, registry, i), Rank(names, registry, j));
      var id := NewId(prev.next, Rank(names, registry, i));
      assert AddedAt(names, prev, names[i], id, i) && AddedAt(names, prev, names[j], id, j);
      AssignedHolds(names, prev, names[i], id);
      AssignedHolds(names, prev, names[j], id);
      Shared(list, names[i], names[j], id);
    }
  }

  // ---- Registration against the registry ----

  /** Registration answers with the id that the registry knows. */
  ghost predicate Agrees(list: Assignments, name: string) {
    name in Registry(list) ==> FirstId(list, name) == Some(Registry(list)[name])
  }

  /** A name without an id is defined at two places. */
  ghost predicate DefinesFreshTwice(names: seq<string>, prev: map<string, U16>, name: string) {
    name !in prev && exists i, j :: 0 <= i < j < |names| && names[i] == name && names[j] == name
  }

  lemma {:induction false} FirstIdAppend(a: Assignments, b: Assignments, name: string)
    ensures FirstId(a + b, name) == if FirstId(a, name).Some? then FirstId(a, name) else FirstId(b, name)
    decreases |a|
  {
    if a == [] {
      assert a + b == b;
    } else {
      assert (a + b)[1..] == a[1..] + b;
      FirstIdAppend(a[1..], b, name);
    }
  }

  lemma {:induction false} UndefinedFirst(list: Assignments, names: seq<string>, name: string)
    ensures FirstId(Undefined(list, names), name) == if name in names then None else FirstId(list, name)
  {
    if list != [] {
      var n := |list| - 1;
      UndefinedFirst(list[..n], names, name);
      FirstIdAppend(list[..n], [list[n]], name);
      assert list[..n] + [list[n]] == list;
      FirstIdAppend(Undefined(list[..n], names), if list[n].0 in names then [] else [list[n]], name);
    }
  }

  /** The first and the last id minted for a name are the same unless the name is fresh and defined twice. */
  lemma {:induction false} MintedOrder(names: seq<string>, prev: map<string, U16>, next: U16, name: string)
    requires name in names && next + Fresh(names, prev) <= MAX_ID
    ensures var minted := Minted(names, prev, next);
      && name in Registry(minted.list) && FirstId(minted.list, name).Some?
      && var first, last := FirstId(minted.list, name).value, Registry(minted.list)[name];
         if name in prev then first == last
         else first <= last < minted.next && (first < last <==> DefinesFreshTwice(names, prev, name))
  {
    hide Registry, FirstId, DefinesFreshTwice;
    var n := |names| - 1;
    var rest := Minted(names[..n], prev, next);
    var entry := (names[n], if names[n] in prev then prev[names[n]] else rest.next);
    assert Minted(names, prev, next).list == rest.list + [entry];
    MintedKeeps(names[..n], prev, next, name);
    EntryAdded(rest.list, entry.0, entry.1, name);
    MintedWraps(names[..n], prev, next);
    assert name in names <==> name in names[..n] || name == names[n];
    if name in names[..n] {
      MintedOrder(names[..n], prev, next, name);
      TwiceNext(names, prev, name);
    } else {
      OnlyOnce(names, prev, name);
    }
  }

  lemma EntryAdded(list: Assignments, entry: string, id: U16, name: string)
    ensures var list2 := list + [(entry, id)];
      && (name in Registry(list2) <==> name in Registry(list) || entry == name)
      && (name in Registry(list2) ==> Registry(list2)[name] == if entry == name then id else Registry(list)[name])
      && FirstId(list2, name) == (if name in Registry(list) then FirstId(list, name)
                                  else if entry == name then Some(id) else None)
    ensures name in Registry(list) <==> FirstId(list, name).Some?
  {
    Single(entry, id);
    RegistryAppend(list, [(entry, id)], name);
    FirstIdAppend(list, [(entry, id)], name);
    FirstIdFinds(list, name);
  }

  lemma OnlyOnce(names: seq<string>, prev: map<string, U16>, name: string)
    requires names != [] && name !in names[..|names|-1]
    ensures !DefinesFreshTwice(names, prev, name)
  {
  }

  lemma TwiceNext(names: seq<string>, prev: map<string, U16>, name: string)
    requires names != [] && name in names[..|names|-1]
    ensures DefinesFreshTwice(names, prev, name) <==>
      DefinesFreshTwice(names[..|names|-1], prev, name) || (name !in prev && names[|names|-1] == name)
  {
  }

  /** After a save, registration and the registry agree on a name exactly when the schema did not define
      it twice before it had an id. */
  lemma RegistrationAgreesIff(names: seq<string>, prev: Ids, name: string)
    requires Distinct(prev) && Agrees(prev.list, name)
    requires prev.next + Fresh(names, Registry(prev.list)) <= MAX_ID
    ensures Agrees(Assigned(names, prev).list, name) <==> !DefinesFreshTwice(names, Registry(prev.list), name)
  {
    var minted := Minted(names, Registry(prev.list), prev.next).list;
    var kept := Undefined(prev.list, names);
    MintedKeeps(names, Registry(prev.list), prev.next, name);
    FirstIdFinds(minted, name);
    UndefinedKeeps(prev.list, names, name);
    UndefinedFirst(prev.list, names, name);
    RegistryAppend(minted, kept, name);
    FirstIdAppend(minted, kept, name);
    if name in names {
      MintedOrder(names, Registry(prev.list), prev.next, name);
    }
  }

  /** Registering any name keeps the agreement on every name. */
  lemma RegisteringAgrees(ids: Ids, name: string, other: string)
    requires Agrees(ids.list, other)
    ensures Agrees(Registered(ids, name).list, other)
  {
    var entry: Assignments := [(name, Max1(ids.next))];
    FirstIdFinds(ids.list, other);
    FirstIdFinds(ids.list, name);
    Single(name, Max1(ids.next));
    RegistryAppend(ids.list, entry, other);
    FirstIdAppend(ids.list, entry, other);
  }
}
