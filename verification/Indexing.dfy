/**
 * What the indexes of a database must say about its records (chiffondb-core/src/db.rs,
 * chiffondb-core/src/storage/index.rs): the property index holds one entry per indexed scalar, keyed by
 * hashes that may collide; the label sets hold every node under each of its types; and unique fields
 * hold different values.
 */
module Indexing {
  import opened Types
  import opened Floats
  import opened Convert
  import opened Records

  // ---- Equality of values and of index keys ----

  /** Equality of JSON values: floats compare by value, so that the two zeros are equal. */
  predicate Same(a: Value, b: Value) {
    a == b || (a.Num? && a.num.Float? && b.Num? && b.num.Float? && Scaled(a.num.f) == Scaled(b.num.f))
  }

  /** The bytes an index key is made from: floats contribute their bits. */
  datatype Key = BoolKey(b: bool) | IntKey(i: I64) | FloatKey(f: F64) | StrKey(s: string) | OtherKey(v: Value)

  function Encode(v: Value): Key {
    match v
    case Bool(b) => BoolKey(b)
    case Num(n) =>
      if n.NegInt? then IntKey(n.i)
      else if n.PosInt? && n.n < TWO63 then IntKey(n.n)
      else FloatKey(AsF64(n))
    case Str(s) => StrKey(s)
    case _ => OtherKey(v)
  }

  /** Scalars are indexed; null, arrays and objects are not. */
  predicate Indexable(v: Value) {
    v.Bool? || v.Num? || v.Str?
  }

  predicate IsZero(v: Value) {
    v.Num? && v.num.Float? && Scaled(v.num.f) == 0
  }

  lemma MagnitudeUnique(f: F64, g: F64)
    requires Magnitude(f) == Magnitude(g)
    ensures f.man == g.man && f.exp == g.exp
  {
    if f.exp < g.exp {
      HigherIsLarger(g, f);
    } else if g.exp < f.exp {
      HigherIsLarger(f, g);
    } else {
      SameFactor(f.man, g.man, Pow2(f.exp - MIN_EXP));
    }
  }

  lemma SameFactor(a: nat, b: nat, p: nat)
    requires 1 <= p && a * p == b * p
    ensures a == b
  {
    QuotientUnique(p, a, 0, b, 0);
  }

  lemma HigherIsLarger(f: F64, g: F64)
    requires g.exp < f.exp
    ensures Magnitude(g) < Magnitude(f)
  {
    var p, q := Pow2(g.exp - MIN_EXP), Pow2(f.exp - g.exp);
    Pow2Add(f.exp - g.exp, g.exp - MIN_EXP);
    assert q == 2 * Pow2(f.exp - g.exp - 1);
    MulMono(2, q, p);
    MulMono(TWO52, f.man, q * p);
    MulMono(2 * p, q * p, TWO52);
    MulMono(g.man + 1, TWO53, p);
  }

  /** Values are equal without being the same only if they are the two zeros; their keys differ then. */
  lemma SameOrZeros(a: Value, b: Value)
    ensures Same(a, b) && a != b ==> IsZero(a) && IsZero(b) && a.num.f.neg != b.num.f.neg && Encode(a) != Encode(b)
    ensures IsZero(a) && IsZero(b) ==> Same(a, b)
  {
    if Same(a, b) && a != b {
      var f, g := a.num.f, b.num.f;
      hide Magnitude;
      MagnitudeUnique(f, g);
    }
  }

  /** Different values have different keys, but for numbers of which one lies beyond the signed range: these
      are kept as the nearest float. */
  lemma KeysTellApart(a: Value, b: Value)
    requires Encode(a) == Encode(b)
    ensures a == b || (a.Num? && b.Num? && (IsHuge(a.num) || IsHuge(b.num)) && AsF64(a.num) == AsF64(b.num))
  {
    hide Round;
  }

  predicate IsHuge(n: Number) {
    n.PosInt? && TWO63 <= n.n
  }

  // ---- The property index ----

  datatype FieldType =
    | Scalar(ty: ScalarType)
    | Json
    | Blob
    | Vector(size: nat)
    | ListOf(item: FieldType)
    | MapOf(key: FieldType, item: FieldType)
    | NodeRef(name: string)
    | EdgeRef(name: string)
    | Named(name: string)

  datatype Field = Field(name: string, ty: FieldType, indexed: bool, unique: bool) {
    /** A unique field is indexed too. */
    predicate HasIndex() {
      indexed || unique
    }
  }

  /** The declared fields of each type id. */
  type Fields = map<U16, seq<Field>>

  function FieldsOf(fields: Fields, typeId: U16): seq<Field> {
    if typeId in fields then fields[typeId] else []
  }

  /** Hashes of field names and of encoded values; nothing is known about collisions. */
  datatype Hash = Hash(path: string -> int, value: Key -> int)

  datatype Entry = Entry(typeId: U16, pathHash: int, valueHash: int, id: Id)

  function EntryOf(hash: Hash, typeId: U16, name: string, v: Value, id: Id): Entry {
    Entry(typeId, hash.path(name), hash.value(Encode(v)), id)
  }

  /** The entries that a record calls for. */
  function EntriesOf(hash: Hash, fields: seq<Field>, typeId: U16, props: Props, id: Id): set<Entry> {
    set f | f in fields && f.HasIndex() && f.name in props && Indexable(props[f.name]) ::
      EntryOf(hash, typeId, f.name, props[f.name], id)
  }

  function EntriesOfView(hash: Hash, fields: Fields, view: View, id: Id): set<Entry> {
    EntriesOf(hash, FieldsOf(fields, view.typeId), view.typeId, view.props, id)
  }

  /** The index holds the entries of the live records, and no others. */
  ghost predicate IndexOk(hash: Hash, fields: Fields, views: map<Id, View>, index: set<Entry>) {
    forall e: Entry :: e in index <==> e.id in views && e in EntriesOfView(hash, fields, views[e.id], e.id)
  }

  lemma EntriesHaveId(hash: Hash, fields: seq<Field>, typeId: U16, props: Props, id: Id)
    ensures forall e :: e in EntriesOf(hash, fields, typeId, props, id) ==> e.id == id && e.typeId == typeId
  {
  }

  lemma IndexInserted(hash: Hash, fields: Fields, views: map<Id, View>, index: set<Entry>, id: Id, view: View)
    requires IndexOk(hash, fields, views, index) && id !in views
    ensures IndexOk(hash, fields, views[id := view], index + EntriesOfView(hash, fields, view, id))
  {
    EntriesHaveId(hash, FieldsOf(fields, view.typeId), view.typeId, view.props, id);
    hide EntriesOf;
  }

  /** Dropping all old entries and adding all new ones is right whatever collides. */
  lemma IndexUpdated(hash: Hash, fields: Fields, views: map<Id, View>, index: set<Entry>, id: Id, view: View)
    requires IndexOk(hash, fields, views, index) && id in views
    ensures IndexOk(hash, fields, views[id := view],
                    index - EntriesOfView(hash, fields, views[id], id) + EntriesOfView(hash, fields, view, id))
  {
    EntriesHaveId(hash, FieldsOf(fields, view.typeId), view.typeId, view.props, id);
    EntriesHaveId(hash, FieldsOf(fields, views[id].typeId), views[id].typeId, views[id].props, id);
    hide EntriesOf;
  }

  lemma IndexRemoved(hash: Hash, fields: Fields, views: map<Id, View>, index: set<Entry>, id: Id)
    requires IndexOk(hash, fields, views, index) && id in views
    ensures IndexOk(hash, fields, views - {id}, index - EntriesOfView(hash, fields, views[id], id))
  {
    EntriesHaveId(hash, FieldsOf(fields, views[id].typeId), views[id].typeId, views[id].props, id);
    hide EntriesOf;
  }

  lemma EntriesNext(hash: Hash, fields: seq<Field>, i: nat, typeId: U16, props: Props, id: Id)
    requires i < |fields|
    ensures var f, before := fields[i], EntriesOf(hash, fields[..i], typeId, props, id);
      EntriesOf(hash, fields[..i+1], typeId, props, id)
      == if f.HasIndex() && f.name in props && Indexable(props[f.name])
         then before + {EntryOf(hash, typeId, f.name, props[f.name], id)} else before
  {
    hide EntryOf, Indexable;
    assert fields[..i+1] == fields[..i] + [fields[i]];
  }

  // ---- Finding by the index and by scanning ----

  /** Truth values, numbers and strings are in the index, nothing else. */
  lemma OnlyScalars(hash: Hash, f: Field, typeId: U16, v: Value, id: Id)
    requires f.indexed || f.unique
    ensures EntryOf(hash, typeId, f.name, v, id) in EntriesOf(hash, [f], typeId, map[f.name := v], id) <==> v.Bool? || v.Num? || v.Str?
    ensures EntriesOf(hash, [f.(indexed := false, unique := false)], typeId, map[f.name := v], id) == {}
  {
    assert f in [f];
  }

  /** What a scan over the live records finds. */
  predicate Scanned(views: map<Id, View>, typeId: U16, name: string, v: Value, id: Id) {
    id in views && views[id].typeId == typeId && name in views[id].props && Same(views[id].props[name], v)
  }

  /** What reading a slot gives that no live record is in: leftovers, or an error. */
  type Remains = Id -> Result<Props>

  function ReadAt(views: map<Id, View>, remains: Remains, id: Id): Result<Props> {
    if id in views then Ok(views[id].props) else remains(id)
  }

  /** What the index finds: a candidate whose value has been confirmed. */
  predicate Found(hash: Hash, views: map<Id, View>, remains: Remains, index: set<Entry>, typeId: U16, name: string, v: Value, id: Id) {
    && EntryOf(hash, typeId, name, v, id) in index
    && var r := ReadAt(views, remains, id);
       r.Ok? && name in r.value && Same(r.value[name], v)
  }

  /** A candidate that cannot be read. */
  predicate Unread(hash: Hash, views: map<Id, View>, remains: Remains, index: set<Entry>, typeId: U16, name: string, v: Value, id: Id) {
    EntryOf(hash, typeId, name, v, id) in index && ReadAt(views, remains, id).Err?
  }

  /** Equal values whose keys have the same hash: what the index takes for equal. */
  predicate SameKeyed(hash: Hash, a: Value, b: Value) {
    Same(a, b) && hash.value(Encode(a)) == hash.value(Encode(b))
  }

  /** Apart from the two zeros that is equality, for all hashes. */
  lemma KeyedUpToZeros(hash: Hash, a: Value, b: Value)
    ensures SameKeyed(hash, a, b) ==> Same(a, b)
    ensures a == b ==> SameKeyed(hash, a, b)
    ensures Same(a, b) && !SameKeyed(hash, a, b) ==> IsZero(a) && IsZero(b) && a.num.f.neg != b.num.f.neg
    ensures SameKeyed(hash, a, b) && a != b ==>
      IsZero(a) && IsZero(b) && Encode(a) != Encode(b) && hash.value(Encode(a)) == hash.value(Encode(b))
  {
    SameOrZeros(a, b);
  }

  /** The live node of the type holds what the index takes for the value. */
  predicate Holds(hash: Hash, views: map<Id, View>, typeId: U16, name: string, v: Value, id: Id) {
    id in views && views[id].typeId == typeId && name in views[id].props && SameKeyed(hash, views[id].props[name], v)
  }

  /** The type's indexed fields have different name hashes. */
  ghost predicate PathsDiffer(hash: Hash, fields: seq<Field>) {
    forall f, g :: f in fields && g in fields && f.HasIndex() && g.HasIndex() && hash.path(f.name) == hash.path(g.name) ==>
      f.name == g.name
  }

  /** Collisions never add a result, a record holding the value is never missed, and if the hashes tell
      the field names apart nothing else is found. */
  lemma FoundIsScanned(hash: Hash, fields: Fields, views: map<Id, View>, remains: Remains, index: set<Entry>, typeId: U16,
                       f: Field, v: Value, id: Id)
    requires IndexOk(hash, fields, views, index) && f in FieldsOf(fields, typeId) && f.HasIndex() && Indexable(v)
    ensures Found(hash, views, remains, index, typeId, f.name, v, id) ==> Scanned(views, typeId, f.name, v, id)
    ensures Holds(hash, views, typeId, f.name, v, id) ==> Found(hash, views, remains, index, typeId, f.name, v, id)
    ensures PathsDiffer(hash, FieldsOf(fields, typeId)) ==>
      (Found(hash, views, remains, index, typeId, f.name, v, id) <==> Holds(hash, views, typeId, f.name, v, id))
  {
  }

  /** A record of the type holds the zero of the other sign, and the hashes tell the two apart. */
  predicate HoldsOtherZero(hash: Hash, views: map<Id, View>, typeId: U16, name: string, v: Value, id: Id) {
    && id in views && views[id].typeId == typeId && name in views[id].props
    && IsZero(v) && IsZero(views[id].props[name])
    && hash.value(Encode(views[id].props[name])) != hash.value(Encode(v))
  }

  /** For every scalar, the index finds a record exactly when the scan does and the record does not hold
      the zero of the other sign: one direction for all hashes, the other when the hashes tell the
      type's field names apart. */
  lemma IndexEqualsScanIff(hash: Hash, fields: Fields, views: map<Id, View>, remains: Remains, index: set<Entry>, typeId: U16,
                           f: Field, v: Value, id: Id)
    requires IndexOk(hash, fields, views, index) && f in FieldsOf(fields, typeId) && f.HasIndex() && Indexable(v)
    ensures Scanned(views, typeId, f.name, v, id) && !HoldsOtherZero(hash, views, typeId, f.name, v, id) ==>
      Found(hash, views, remains, index, typeId, f.name, v, id)
    ensures Found(hash, views, remains, index, typeId, f.name, v, id) ==> Scanned(views, typeId, f.name, v, id)
    ensures PathsDiffer(hash, FieldsOf(fields, typeId)) ==>
      (Found(hash, views, remains, index, typeId, f.name, v, id) <==>
       Scanned(views, typeId, f.name, v, id) && !HoldsOtherZero(hash, views, typeId, f.name, v, id))
  {
    FoundIsScanned(hash, fields, views, remains, index, typeId, f, v, id);
    if id in views && f.name in views[id].props {
      KeyedUpToZeros(hash, views[id].props[f.name], v);
      SameOrZeros(views[id].props[f.name], v);
    }
  }

  /** Null, arrays and objects are never in the index: it finds nothing where the scan may. */
  lemma NonScalarsAreNotFound(hash: Hash, fields: Fields, views: map<Id, View>, remains: Remains, index: set<Entry>, typeId: U16,
                              f: Field, v: Value, id: Id)
    requires IndexOk(hash, fields, views, index) && PathsDiffer(hash, FieldsOf(fields, typeId))
    requires f in FieldsOf(fields, typeId) && f.HasIndex() && (v.Null? || v.Arr? || v.Obj?)
    ensures !Found(hash, views, remains, index, typeId, f.name, v, id)
  {
  }

  // ---- Unique fields ----

  /** No two records of a type hold the same scalar in a unique field. */
  ghost predicate UniqueOk(hash: Hash, fields: Fields, views: map<Id, View>) {
    forall a, b, f :: a in views && b in views && a != b && views[a].typeId == views[b].typeId ==>
      (f in FieldsOf(fields, views[a].typeId) && f.unique ==> Differ(hash, views, f.name, a, b))
  }

  predicate Differ(hash: Hash, views: map<Id, View>, name: string, a: Id, b: Id)
    requires a in views && b in views
  {
    name in views[a].props && name in views[b].props && Indexable(views[a].props[name]) ==>
      !SameKeyed(hash, views[a].props[name], views[b].props[name])
  }

  lemma UniqueIfDiffer(hash: Hash, fields: Fields, views: map<Id, View>)
    requires forall a, b, f | a in views && b in views && a != b && views[a].typeId == views[b].typeId
                              && f in FieldsOf(fields, views[a].typeId) && f.unique :: Differ(hash, views, f.name, a, b)
    ensures UniqueOk(hash, fields, views)
  {
  }

  /** Under the constraint two equal values can only be the two zeros, which the hashes tell apart. */
  lemma UniqueUpToZeros(hash: Hash, fields: Fields, views: map<Id, View>, a: Id, b: Id, f: Field)
    requires UniqueOk(hash, fields, views)
    requires a in views && b in views && a != b && views[a].typeId == views[b].typeId
    requires f in FieldsOf(fields, views[a].typeId) && f.unique
    requires f.name in views[a].props && f.name in views[b].props && Indexable(views[a].props[f.name])
    ensures var x, y := views[a].props[f.name], views[b].props[f.name];
      Same(x, y) <==> IsZero(x) && IsZero(y) && hash.value(Encode(x)) != hash.value(Encode(y))
  {
    assert Differ(hash, views, f.name, a, b);
    KeyedUpToZeros(hash, views[a].props[f.name], views[b].props[f.name]);
    SameOrZeros(views[a].props[f.name], views[b].props[f.name]);
  }

  /** The record's scalars in the given unique fields belong to no other record of its type. */
  ghost predicate NoConflictIn(hash: Hash, fields: seq<Field>, views: map<Id, View>, typeId: U16, props: Props, id: Option<Id>) {
    forall n, f :: n in views && views[n].typeId == typeId && id != Some(n) && f in fields && f.unique ==>
      !Conflicts(hash, views, f.name, props, n)
  }

  ghost predicate NoConflict(hash: Hash, fields: Fields, views: map<Id, View>, typeId: U16, props: Props, id: Option<Id>) {
    NoConflictIn(hash, FieldsOf(fields, typeId), views, typeId, props, id)
  }

  /** Record `n` holds the same scalar in the field. */
  predicate Conflicts(hash: Hash, views: map<Id, View>, name: string, props: Props, n: Id) {
    && n in views && name in props && Indexable(props[name])
    && name in views[n].props && SameKeyed(hash, views[n].props[name], props[name])
  }

  /** The index finds another record holding one of the scalars in a unique field. */
  ghost predicate Taken(hash: Hash, fields: Fields, views: map<Id, View>, remains: Remains, index: set<Entry>, typeId: U16,
                        props: Props, id: Option<Id>) {
    exists n, f :: f in FieldsOf(fields, typeId) && f.unique && TakenBy(hash, views, remains, index, typeId, f.name, props, id, n)
  }

  predicate TakenBy(hash: Hash, views: map<Id, View>, remains: Remains, index: set<Entry>, typeId: U16, name: string,
                    props: Props, id: Option<Id>, n: Id) {
    name in props && Indexable(props[name]) && id != Some(n) && Found(hash, views, remains, index, typeId, name, props[name], n)
  }

  /** Looking for the scalars in unique fields meets a candidate that cannot be read. */
  ghost predicate Blocked(hash: Hash, fields: Fields, views: map<Id, View>, remains: Remains, index: set<Entry>, typeId: U16,
                          props: Props) {
    exists n, f :: f in FieldsOf(fields, typeId) && f.unique && BlockedBy(hash, views, remains, index, typeId, f.name, props, n)
  }

  predicate BlockedBy(hash: Hash, views: map<Id, View>, remains: Remains, index: set<Entry>, typeId: U16, name: string,
                      props: Props, n: Id) {
    name in props && Indexable(props[name]) && Unread(hash, views, remains, index, typeId, name, props[name], n)
  }

  /** A right index names live records only. */
  lemma NothingUnread(hash: Hash, fields: Fields, views: map<Id, View>, remains: Remains, index: set<Entry>, typeId: U16, props: Props)
    requires IndexOk(hash, fields, views, index)
    ensures forall e :: e in index ==> e.id in views
    ensures !Blocked(hash, fields, views, remains, index, typeId, props)
  {
  }

  /** What the check refuses if the index is right: always where there is a conflict, and only there if
      the hashes tell the type's field names apart. */
  lemma TakenIff(hash: Hash, fields: Fields, views: map<Id, View>, remains: Remains, index: set<Entry>, typeId: U16,
                 props: Props, id: Option<Id>)
    requires IndexOk(hash, fields, views, index)
    ensures !NoConflict(hash, fields, views, typeId, props, id) ==> Taken(hash, fields, views, remains, index, typeId, props, id)
    ensures PathsDiffer(hash, FieldsOf(fields, typeId)) ==>
      (Taken(hash, fields, views, remains, index, typeId, props, id) <==> !NoConflict(hash, fields, views, typeId, props, id))
  {
    hide IndexOk, PathsDiffer, SameKeyed;
    if !NoConflict(hash, fields, views, typeId, props, id) {
      var n, f :| n in views && views[n].typeId == typeId && id != Some(n) && f in FieldsOf(fields, typeId) && f.unique
                  && Conflicts(hash, views, f.name, props, n);
      FoundIsScanned(hash, fields, views, remains, index, typeId, f, props[f.name], n);
      assert TakenBy(hash, views, remains, index, typeId, f.name, props, id, n);
    }
    if PathsDiffer(hash, FieldsOf(fields, typeId)) && Taken(hash, fields, views, remains, index, typeId, props, id) {
      var n, f :| f in FieldsOf(fields, typeId) && f.unique && TakenBy(hash, views, remains, index, typeId, f.name, props, id, n);
      FoundIsScanned(hash, fields, views, remains, index, typeId, f, props[f.name], n);
      assert Conflicts(hash, views, f.name, props, n);
    }
  }

  lemma UniqueKept(hash: Hash, fields: Fields, views: map<Id, View>, id: Id, view: View)
    requires UniqueOk(hash, fields, views) && NoConflict(hash, fields, views, view.typeId, view.props, Some(id))
    ensures UniqueOk(hash, fields, views[id := view])
  {
  }

  lemma UniqueFewer(hash: Hash, fields: Fields, views: map<Id, View>, gone: set<Id>)
    requires UniqueOk(hash, fields, views)
    ensures UniqueOk(hash, fields, views - gone)
  {
  }

  // ---- Label sets ----

  predicate Carries(view: View, t: U16) {
    t == view.typeId || t in view.labels
  }

  /** Additional labels neither repeat nor name the primary type. */
  ghost predicate NormalLabels(view: View) {
    && view.typeId !in view.labels
    && forall i, j :: 0 <= i < j < |view.labels| ==> view.labels[i] != view.labels[j]
  }

  /** Every label set lists the live nodes that carry the label, each once. */
  ghost predicate LabelsOk(views: map<Id, View>, labels: multiset<(U16, Id)>) {
    && (forall n :: n in views ==> NormalLabels(views[n]))
    && forall t: U16, n: Id :: labels[(t, n)] == if n in views && Carries(views[n], t) then 1 else 0
  }

  // ---- Changes to the label sets ----

  /** The pairs of one node. */
  function LabelPairs(ts: seq<U16>, id: Id): (m: multiset<(U16, Id)>)
    ensures forall t: U16, n: Id :: m[(t, n)] == if n == id then multiset(ts)[t] else 0
  {
    if ts == [] then multiset{}
    else
      assert ts == ts[..|ts|-1] + [ts[|ts|-1]];
      LabelPairs(ts[..|ts|-1], id) + multiset{(ts[|ts|-1], id)}
  }

  /** `labels2` is `labels` with the pairs of node `id` replaced by those of `view`. */
  ghost predicate Relabelled(labels: multiset<(U16, Id)>, labels2: multiset<(U16, Id)>, id: Id, view: View) {
    forall t: U16, n: Id :: labels2[(t, n)] == if n == id then (if Carries(view, t) then 1 else 0) else labels[(t, n)]
  }

  lemma LabelsReplaced(views: map<Id, View>, labels: multiset<(U16, Id)>, labels2: multiset<(U16, Id)>, id: Id, view: View)
    requires LabelsOk(views, labels) && NormalLabels(view) && Relabelled(labels, labels2, id, view)
    ensures LabelsOk(views[id := view], labels2)
  {
  }

  /** The label lists, in input order, without repetitions and without the primary type. */
  function Normalized(typeId: U16, ts: seq<U16>): (r: seq<U16>)
    ensures typeId !in r && (forall t :: t in r <==> t in ts && t != typeId)
    ensures forall i, j :: 0 <= i < j < |r| ==> r[i] != r[j]
  {
    if ts == [] then []
    else
      var rest := Normalized(typeId, ts[..|ts|-1]);
      var last := ts[|ts|-1];
      assert forall t :: t in ts <==> t in ts[..|ts|-1] || t == last;
      if last == typeId || last in rest then rest else rest + [last]
  }

  predicate IsFirstAt(ts: seq<U16>, p: nat, t: U16) {
    p < |ts| && ts[p] == t && t !in ts[..p]
  }

  /** The labels stand in the order in which they first come up. */
  lemma {:induction false} NormalizedInOrder(typeId: U16, ts: seq<U16>, i: nat, j: nat) returns (p: nat, q: nat)
    requires i <= j < |Normalized(typeId, ts)|
    ensures IsFirstAt(ts, p, Normalized(typeId, ts)[i]) && IsFirstAt(ts, q, Normalized(typeId, ts)[j])
    ensures p <= q && (i < j ==> p < q)
  {
    var n := |ts| - 1;
    var rest := Normalized(typeId, ts[..n]);
    assert forall k :: 0 <= k <= n ==> ts[..n][..k] == ts[..k];
    if j < |rest| {
      p, q := NormalizedInOrder(typeId, ts[..n], i, j);
    } else {
      q := n;
      assert Normalized(typeId, ts)[j] == ts[n] && ts[n] !in rest && ts[n] != typeId;
      if i < |rest| {
        var p2;
        p, p2 := NormalizedInOrder(typeId, ts[..n], i, i);
      } else {
        p := n;
      }
    }
  }

  /** Every id is listed once. */
  ghost predicate EachOnce(ids: seq<Id>) {
    forall i, j :: 0 <= i < j < |ids| ==> ids[i] != ids[j]
  }

  lemma NotBefore(ids: seq<Id>, i: nat)
    requires EachOnce(ids) && i < |ids|
    ensures ids[i] !in ids[..i] && ids[i] in ids && ids[..i+1] == ids[..i] + [ids[i]]
  {
  }

  lemma OfTypeCarry(views: map<Id, View>, typeId: U16)
    ensures forall n :: n in views && views[n].typeId == typeId ==> Carries(views[n], typeId)
  {
  }
}
