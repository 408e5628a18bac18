/**
 * Whole runs of the storage engine, stops without a flush included. `Engine` is a database file on the
 * file backend: cache, log and main file, with rollback by truncating the log. `Flat` is the reference: one sequence of pages, a
 * header, and rollback by keeping copies, which is also how the memory backend works.
 */
module Engine {
  import opened Types
  import opened Lru
  import opened Header
  import opened Store

  datatype Snapshot = Snapshot(walLen: nat, count: nat, header: FileHeader)

  datatype Engine = Engine(disk: Disk, count: nat, header: FileHeader, snaps: seq<Snapshot>)

  datatype FlatSnapshot = FlatSnapshot(pages: seq<Page>, header: FileHeader)

  datatype Flat = Flat(pages: seq<Page>, header: FileHeader, snaps: seq<FlatSnapshot>)

  /** Snapshots are kept on a stack: one taken inside a transaction is dropped or restored before the
      transaction ends. `Reopen` is a stop at that point and opening the files again: cache and snapshots
      are gone, and the log is applied. */
  datatype Op =
    | Read(page: U32)
    | Write(page: U32, data: Page)
    | Append(data: Page)
    | SetHeader(header: FileHeader)
    | Flush
    | TakeSnapshot
    | DropSnapshot
    | RestoreSnapshot
    | Reopen(capacity: nat)

  datatype Output = Done | Contents(data: Page) | Fails

  function EngineStep(e: Engine, op: Op): (Engine, Output) {
    match op
    case Read(p) =>
      var (disk, r) := ReadDisk(e.disk, p);
      (e.(disk := disk), if r.Ok? then Contents(r.value) else Fails)
    case Write(p, data) => (e.(disk := WriteDisk(e.disk, p, data)), Done)
    case Append(data) =>
      if e.count < 0xFFFF_FFFF then (e.(disk := WriteDisk(e.disk, e.count, data), count := e.count + 1), Done)
      else (e, Fails)
    case SetHeader(h) => (e.(disk := WriteDisk(e.disk, 0, Serialize(h)), header := h), Done)
    case Flush => (e.(disk := FlushDisk(e.disk, e.count)), Done)
    case TakeSnapshot => (e.(snaps := e.snaps + [Snapshot(|e.disk.files.log|, e.count, e.header)]), Done)
    case DropSnapshot =>
      if e.snaps == [] then (e, Fails) else (e.(snaps := e.snaps[..|e.snaps|-1]), Done)
    case RestoreSnapshot =>
      if e.snaps == [] then (e, Fails)
      else
        var s := e.snaps[|e.snaps|-1];
        (Engine(RestoreDisk(e.disk, s.walLen), s.count, s.header, e.snaps[..|e.snaps|-1]), Done)
    case Reopen(capacity) =>
      var disk := Disk(OpenFiles(e.disk.files), [], capacity);
      var main := disk.files.main;
      if main != [] && Deserialize(main[0]).Ok? then (Engine(disk, |main|, Deserialize(main[0]).value, []), Done)
      else (e.(disk := disk, snaps := []), Fails)
  }

  function FlatStep(f: Flat, op: Op): (Flat, Output) {
    match op
    case Read(p) => (f, if p < |f.pages| then Contents(f.pages[p]) else Fails)
    case Write(p, data) => if p < |f.pages| then (f.(pages := f.pages[p := data]), Done) else (f, Fails)
    case Append(data) => if |f.pages| < 0xFFFF_FFFF then (f.(pages := f.pages + [data]), Done) else (f, Fails)
    case SetHeader(h) =>
      if 0 < |f.pages| then (f.(pages := f.pages[0 := Serialize(h)], header := h), Done) else (f, Fails)
    case Flush => (f, Done)
    case TakeSnapshot => (f.(snaps := f.snaps + [FlatSnapshot(f.pages, f.header)]), Done)
    case DropSnapshot =>
      if f.snaps == [] then (f, Fails) else (f.(snaps := f.snaps[..|f.snaps|-1]), Done)
    case RestoreSnapshot =>
      if f.snaps == [] then (f, Fails)
      else
        var s := f.snaps[|f.snaps|-1];
        (Flat(s.pages, s.header, f.snaps[..|f.snaps|-1]), Done)
    case Reopen(_) => (f.(snaps := []), Done)
  }

  function EngineRun(e: Engine, ops: seq<Op>): (Engine, seq<Output>)
    decreases |ops|
  {
    if ops == [] then (e, [])
    else
      var (e1, out) := EngineStep(e, ops[0]);
      var (e2, outs) := EngineRun(e1, ops[1..]);
      (e2, [out] + outs)
  }

  function FlatRun(f: Flat, ops: seq<Op>): (Flat, seq<Output>)
    decreases |ops|
  {
    if ops == [] then (f, [])
    else
      var (f1, out) := FlatStep(f, ops[0]);
      var (f2, outs) := FlatRun(f1, ops[1..]);
      (f2, [out] + outs)
  }

  /** What the callers of the storage layer keep to: they write existing pages only, the header goes
      through `SetHeader`, and nothing is flushed while a snapshot is held. */
  predicate Disciplined(f: Flat, op: Op) {
    match op
    case Write(p, _) => 0 < p < |f.pages|
    case SetHeader(h) => h.version == VERSION
    case Flush => f.snaps == []
    case Reopen(capacity) => 1 <= capacity
    case _ => true
  }

  predicate DisciplinedRun(f: Flat, ops: seq<Op>)
    decreases |ops|
  {
    ops == [] || (Disciplined(f, ops[0]) && DisciplinedRun(FlatStep(f, ops[0]).0, ops[1..]))
  }

  // ---- The simulation ----

  /** The state a snapshot stands for: the main file under the log it remembers. */
  ghost predicate Remembers(e: Engine, s: Snapshot, t: FlatSnapshot) {
    && s.walLen <= |e.disk.files.log|
    && s.header == t.header
    && Shows(Files(e.disk.files.main, e.disk.files.log[..s.walLen]), s.count, t.pages, t.header)
  }

  /** The files hold the pages, and page 0 holds the header. */
  ghost predicate Shows(f: Files, count: nat, pages: seq<Page>, header: FileHeader) {
    && Complete(f, count)
    && 1 <= count <= 0xFFFF_FFFF
    && View(f, count) == pages
    && pages[0] == Serialize(header)
    && header.version == VERSION
  }

  ghost predicate Simulates(e: Engine, f: Flat) {
    && Coherent(e.disk)
    && e.header == f.header
    && Shows(e.disk.files, e.count, f.pages, f.header)
    && |e.snaps| == |f.snaps|
    && (forall i :: 0 <= i < |e.snaps| ==> Remembers(e, e.snaps[i], f.snaps[i]))
    && (forall i, j :: 0 <= i < j < |e.snaps| ==> e.snaps[i].walLen <= e.snaps[j].walLen)
  }

  /** Extending the log leaves what every snapshot remembers. */
  lemma LogGrows(e: Engine, e2: Engine, f: Flat)
    requires Simulates(e, f)
    requires e2.disk.files.main == e.disk.files.main && e.disk.files.log <= e2.disk.files.log
    ensures forall i :: 0 <= i < |e.snaps| ==> Remembers(e2, e.snaps[i], f.snaps[i])
  {
    forall i | 0 <= i < |e.snaps| ensures Remembers(e2, e.snaps[i], f.snaps[i]) {
      assert Remembers(e, e.snaps[i], f.snaps[i]);
      assert e2.disk.files.log[..e.snaps[i].walLen] == e.disk.files.log[..e.snaps[i].walLen];
    }
  }

  lemma WriteSimulates(e: Engine, f: Flat, p: U32, data: Page, header: FileHeader)
    requires Simulates(e, f) && p <= e.count && (p == e.count ==> e.count < 0xFFFF_FFFF)
    requires if p == 0 then data == Serialize(header) && header.version == VERSION else header == f.header
    ensures var count2 := if p == e.count then e.count + 1 else e.count;
            var pages2 := if p == e.count then f.pages + [data] else f.pages[p := data];
            Simulates(Engine(WriteDisk(e.disk, p, data), count2, header, e.snaps), Flat(pages2, header, f.snaps))
  {
    WriteUpdatesView(e.disk, e.count, p, data);
    var count2 := if p == e.count then e.count + 1 else e.count;
    LogGrows(e, Engine(WriteDisk(e.disk, p, data), count2, header, e.snaps), f);
  }

  lemma RestoreSimulates(e: Engine, f: Flat)
    requires Simulates(e, f) && e.snaps != []
    ensures Simulates(EngineStep(e, RestoreSnapshot).0, FlatStep(f, RestoreSnapshot).0)
  {
    hide View, Complete, Serialize;
    var n := |e.snaps| - 1;
    var e2 := EngineStep(e, RestoreSnapshot).0;
    assert Remembers(e, e.snaps[n], f.snaps[n]);
    var log2 := e.disk.files.log[..e.snaps[n].walLen];
    forall i | 0 <= i < n ensures Remembers(e2, e.snaps[i], f.snaps[i]) {
      assert Remembers(e, e.snaps[i], f.snaps[i]);
      assert log2[..e.snaps[i].walLen] == e.disk.files.log[..e.snaps[i].walLen];
    }
  }

  lemma ReadSimulates(e: Engine, f: Flat, p: U32)
    requires Simulates(e, f)
    ensures Simulates(EngineStep(e, Read(p)).0, f) && EngineStep(e, Read(p)).1 == FlatStep(f, Read(p)).1
  {
    ReadReturnsDurable(e.disk, p);
    LogOrMain(e.disk.files, e.count, p);
    LogGrows(e, EngineStep(e, Read(p)).0, f);
    hide Coherent, Durable;
  }

  lemma SnapshotSimulates(e: Engine, f: Flat)
    requires Simulates(e, f)
    ensures Simulates(EngineStep(e, TakeSnapshot).0, FlatStep(f, TakeSnapshot).0)
  {
    hide Coherent, Durable, Complete;
    LogGrows(e, EngineStep(e, TakeSnapshot).0, f);
    assert e.disk.files.log[..|e.disk.files.log|] == e.disk.files.log;
  }

  lemma ReopenSimulates(e: Engine, f: Flat, capacity: nat)
    requires Simulates(e, f) && 1 <= capacity
    ensures Simulates(EngineStep(e, Reopen(capacity)).0, FlatStep(f, Reopen(capacity)).0)
    ensures EngineStep(e, Reopen(capacity)).1 == Done
  {
    OpenRecoversView(e.disk.files, e.count);
    HeaderRoundTrip(e.header);
    hide Serialize, Deserialize;
  }

  lemma StepSimulates(e: Engine, f: Flat, op: Op)
    requires Simulates(e, f) && Disciplined(f, op)
    ensures Simulates(EngineStep(e, op).0, FlatStep(f, op).0)
    ensures EngineStep(e, op).1 == FlatStep(f, op).1
  {
    match op
    case Read(p) => ReadSimulates(e, f, p);
    case Write(p, data) => WriteSimulates(e, f, p, data, f.header);
    case Append(data) =>
      if e.count < 0xFFFF_FFFF {
        WriteSimulates(e, f, e.count, data, f.header);
      }
    case SetHeader(h) => WriteSimulates(e, f, 0, Serialize(h), h);
    case Flush => FlushKeepsView(e.disk, e.count);
    case TakeSnapshot => SnapshotSimulates(e, f);
    case DropSnapshot =>
    case RestoreSnapshot =>
      if e.snaps != [] {
        RestoreSimulates(e, f);
      }
    case Reopen(capacity) => ReopenSimulates(e, f, capacity);
  }

  /** What a read gives after a step, from what it would have given before: a write or an append shows in its
      page and a header change in page 0, and nothing else shows anywhere. */
  lemma StepsRead(e: Engine, f: Flat, op: Op, q: U32)
    requires Simulates(e, f) && Disciplined(f, op) && !op.RestoreSnapshot?
    ensures var before, after := EngineStep(e, Read(q)).1, EngineStep(EngineStep(e, op).0, Read(q)).1;
      match op
      case Write(p, data) => after == if q == p then Contents(data) else before
      case Append(data) => after == if q == e.count < 0xFFFF_FFFF then Contents(data) else before
      case SetHeader(h) => after == if q == 0 then Contents(Serialize(h)) else before
      case _ => after == before
    ensures EngineStep(e, Read(q)).1.Contents? <==> q < e.count
    ensures EngineStep(e, op).0.count == if op.Append? && e.count < 0xFFFF_FFFF then e.count + 1 else e.count
    ensures EngineStep(e, op).0.header == if op.SetHeader? then op.header else e.header
  {
    StepSimulates(e, f, op);
    StepSimulates(e, f, Read(q));
    StepSimulates(EngineStep(e, op).0, FlatStep(f, op).0, Read(q));
    hide EngineStep, Coherent, Remembers, Serialize;
  }

  /** Which steps fail, and how many snapshots are held after a step. */
  lemma StepsAnswer(e: Engine, f: Flat, op: Op)
    requires Simulates(e, f) && Disciplined(f, op)
    ensures EngineStep(e, op).1 == Fails <==>
      || (op.Read? && op.page >= e.count)
      || (op.Append? && e.count == 0xFFFF_FFFF)
      || ((op.DropSnapshot? || op.RestoreSnapshot?) && e.snaps == [])
    ensures EngineStep(e, op).1.Contents? ==> op.Read?
    ensures |EngineStep(e, op).0.snaps| ==
      match op
      case TakeSnapshot => |e.snaps| + 1
      case DropSnapshot => if e.snaps == [] then 0 else |e.snaps| - 1
      case RestoreSnapshot => if e.snaps == [] then 0 else |e.snaps| - 1
      case Reopen(_) => 0
      case _ => |e.snaps|
  {
    StepSimulates(e, f, op);
    hide EngineStep, Coherent, Remembers, Serialize;
  }

  lemma {:induction false} RunSimulates(e: Engine, f: Flat, ops: seq<Op>)
    requires Simulates(e, f) && DisciplinedRun(f, ops)
    ensures Simulates(EngineRun(e, ops).0, FlatRun(f, ops).0)
    ensures EngineRun(e, ops).1 == FlatRun(f, ops).1
    decreases |ops|
  {
    if ops != [] {
      StepSimulates(e, f, ops[0]);
      RunSimulates(EngineStep(e, ops[0]).0, FlatStep(f, ops[0]).0, ops[1..]);
    }
  }

  // ---- The file backend is the memory backend ----

  /** A database just created, with a cache of `capacity` pages. */
  function NewEngine(capacity: nat): Engine {
    Engine(Disk(Files([Serialize(NEW_HEADER)], []), [], capacity), 1, NEW_HEADER, [])
  }

  function NewFlat(): Flat {
    Flat([Serialize(NEW_HEADER)], NEW_HEADER, [])
  }

  lemma NewSimulates(capacity: nat)
    requires 1 <= capacity
    ensures Simulates(NewEngine(capacity), NewFlat())
  {
    ViewOfMain([Serialize(NEW_HEADER)]);
  }

  /** For every cache capacity and every disciplined run, with stops and reopenings anywhere in it, the file
      backend answers each call exactly as one sequence of pages would, and every cached frame stays clean
      and equal to its durable copy. */
  lemma FileBackendAgreesWithMemory(capacity: nat, ops: seq<Op>)
    requires 1 <= capacity && DisciplinedRun(NewFlat(), ops)
    ensures EngineRun(NewEngine(capacity), ops).1 == FlatRun(NewFlat(), ops).1
    ensures var (e, _) := EngineRun(NewEngine(capacity), ops);
            var (f, _) := FlatRun(NewFlat(), ops);
            Coherent(e.disk) && Shows(e.disk.files, e.count, f.pages, f.header) && e.header == f.header
  {
    NewSimulates(capacity);
    RunSimulates(NewEngine(capacity), NewFlat(), ops);
  }

  /** The discipline on writes is needed: beyond the last page the file backend accepts what the
      memory backend refuses. */
  lemma WriteBeyondEndDiverges(e: Engine, f: Flat, p: U32, data: Page)
    requires Simulates(e, f) && e.count <= p
    ensures FlatStep(f, Write(p, data)).1 == Fails
    ensures EngineRun(e, [Write(p, data), Read(p)]).1 == [Done, Contents(data)]
  {
    var e1 := EngineStep(e, Write(p, data)).0;
    LatestAppend(e.disk.files.log, p, data, p);
    LookupPut(e.disk.cache, e.disk.capacity, p, data, false, p);
    assert [Write(p, data), Read(p)][1..] == [Read(p)];
    assert [Read(p)][1..] == [];
    assert EngineRun(e1, [Read(p)]).1 == [Contents(data)] + [];
  }

  // ---- Stopping without a flush ----

  lemma ReopenedRun(e: Engine, f: Flat)
    requires Simulates(e, f)
    ensures forall c: nat {:trigger Reopen(c)} :: 1 <= c ==> Simulates(EngineStep(e, Reopen(c)).0, Flat(f.pages, f.header, []))
  {
    forall c: nat | 1 <= c ensures Simulates(EngineStep(e, Reopen(c)).0, Flat(f.pages, f.header, [])) {
      ReopenSimulates(e, f, c);
    }
  }

  /** Stopping after any step of a run and reopening recovers the pages, their number and the header; what
      is reopened goes on as before, without snapshots. */
  lemma ReopenRecovers(capacity: nat, ops: seq<Op>)
    requires 1 <= capacity && DisciplinedRun(NewFlat(), ops)
    ensures var (e, _) := EngineRun(NewEngine(capacity), ops);
            var (f, _) := FlatRun(NewFlat(), ops);
            && OpenFiles(e.disk.files) == Files(f.pages, [])
            && |f.pages| == e.count >= 1
            && Deserialize(f.pages[0]) == Ok(e.header)
    ensures var (e, _) := EngineRun(NewEngine(capacity), ops);
            var (f, _) := FlatRun(NewFlat(), ops);
            forall c: nat {:trigger Reopen(c)} :: 1 <= c ==> Simulates(EngineStep(e, Reopen(c)).0, Flat(f.pages, f.header, []))
  {
    NewSimulates(capacity);
    RunSimulates(NewEngine(capacity), NewFlat(), ops);
    ReopenedRun(EngineRun(NewEngine(capacity), ops).0, FlatRun(NewFlat(), ops).0);
    FileBackendAgreesWithMemory(capacity, ops);
    var (e, _) := EngineRun(NewEngine(capacity), ops);
    OpenRecoversView(e.disk.files, e.count);
    HeaderRoundTrip(e.header);
  }

  // ---- Rollback ----

  /** No step of the run drops or restores one of the first `depth` snapshots. */
  predicate StaysAbove(f: Flat, ops: seq<Op>, depth: nat)
    decreases |ops|
  {
    depth <= |f.snaps| && (ops == [] || StaysAbove(FlatStep(f, ops[0]).0, ops[1..], depth))
  }

  lemma {:induction false} SnapshotsKept(f: Flat, ops: seq<Op>, depth: nat)
    requires StaysAbove(f, ops, depth)
    ensures var (f2, _) := FlatRun(f, ops); depth <= |f2.snaps| && f2.snaps[..depth] == f.snaps[..depth]
    decreases |ops|
  {
    if ops != [] {
      var f1 := FlatStep(f, ops[0]).0;
      SnapshotsKept(f1, ops[1..], depth);
      assert f1.snaps[..depth] == f.snaps[..depth];
    }
  }

  lemma {:induction false} RunAppend(e: Engine, f: Flat, a: seq<Op>, b: seq<Op>)
    ensures EngineRun(e, a + b).0 == EngineRun(EngineRun(e, a).0, b).0
    ensures FlatRun(f, a + b).0 == FlatRun(FlatRun(f, a).0, b).0
    ensures DisciplinedRun(f, a + b) <==> DisciplinedRun(f, a) && DisciplinedRun(FlatRun(f, a).0, b)
    decreases |a|
  {
    hide EngineStep, FlatStep, Disciplined;
    if a == [] {
      assert a + b == b;
    } else {
      RunAppend(EngineStep(e, a[0]).0, FlatStep(f, a[0]).0, a[1..], b);
      assert (a + b)[0] == a[0] && (a + b)[1..] == a[1..] + b;
    }
  }

  /** Restoring a snapshot brings back the pages, their number and the header that it was taken with,
      whatever ran in between, nested snapshots included, as long as it did not flush. */
  lemma RollbackIsExact(e: Engine, f: Flat, ops: seq<Op>)
    requires Simulates(e, f)
    requires var f1 := FlatStep(f, TakeSnapshot).0;
             && DisciplinedRun(f1, ops)
             && StaysAbove(f1, ops, |f.snaps| + 1)
             && |FlatRun(f1, ops).0.snaps| == |f.snaps| + 1
    ensures var e2 := EngineStep(EngineRun(EngineStep(e, TakeSnapshot).0, ops).0, RestoreSnapshot).0;
            && Simulates(e2, f) && e2.count == e.count && e2.header == e.header
            && Complete(e2.disk.files, e2.count) && Complete(e.disk.files, e.count) && e.count <= 0xFFFF_FFFF
            && View(e2.disk.files, e2.count) == View(e.disk.files, e.count)
  {
    hide Simulates, EngineStep, EngineRun, DisciplinedRun, StaysAbove;
    var f1, n := FlatStep(f, TakeSnapshot).0, |f.snaps|;
    StepSimulates(e, f, TakeSnapshot);
    RunSimulates(EngineStep(e, TakeSnapshot).0, f1, ops);
    StepSimulates(EngineRun(EngineStep(e, TakeSnapshot).0, ops).0, FlatRun(f1, ops).0, RestoreSnapshot);
    SnapshotsKept(f1, ops, n + 1);
    var f2 := FlatRun(f1, ops).0;
    assert f2.snaps == f1.snaps by {
      assert f2.snaps[..n+1] == f2.snaps && f1.snaps[..n+1] == f1.snaps;
    }
    assert f1.snaps[..n] == f.snaps;
    assert FlatStep(f2, RestoreSnapshot).0 == f;
    SameView(e, EngineStep(EngineRun(EngineStep(e, TakeSnapshot).0, ops).0, RestoreSnapshot).0, f);
  }

  lemma SameView(e: Engine, e2: Engine, f: Flat)
    requires Simulates(e, f) && Simulates(e2, f)
    ensures Complete(e.disk.files, e.count) && Complete(e2.disk.files, e2.count) && e.count <= 0xFFFF_FFFF
    ensures e2.count == e.count && e2.header == e.header
    ensures View(e2.disk.files, e2.count) == View(e.disk.files, e.count) == f.pages
  {
  }

  /** The state after a snapshot, a write, perhaps a flush, and the restoration of the snapshot. */
  function WriteThenRestore(e: Engine, p: U32, data: Page, flushed: bool): Engine {
    var e1 := EngineStep(EngineStep(e, TakeSnapshot).0, Write(p, data)).0;
    var e2 := if flushed then EngineStep(e1, Flush).0 else e1;
    EngineStep(e2, RestoreSnapshot).0
  }

  lemma FlushedWrite(e: Engine, f: Flat, p: U32, data: Page)
    requires Simulates(e, f) && 0 < p < e.count
    ensures var e2 := WriteThenRestore(e, p, data, true);
            && e2.disk.files.log == Truncated([], |e.disk.files.log|)
            && p < |e2.disk.files.main| && e2.disk.files.main[p] == data
  {
    hide Serialize, ApplyLog, Coherent, Durable;
    var d2 := WriteDisk(e.disk, p, data);
    WriteUpdatesView(e.disk, e.count, p, data);
    CheckpointIsView(d2.files, e.count, true);
    hide View, Complete;
  }

  /** A flush between a snapshot and its restoration breaks the rollback, for every state and every
      write that changes a page. With an empty log at the snapshot the write survives; otherwise
      resizing the emptied log grows it, and page 0 reads back as zeros, which is no header. */
  lemma FlushBreaksRollback(e: Engine, f: Flat, p: U32, data: Page)
    requires Simulates(e, f) && 0 < p < e.count && data != f.pages[p]
    ensures var files := WriteThenRestore(e, p, data, true).disk.files;
            if e.disk.files.log == [] then Durable(files, p) == Some(data)
            else Durable(files, 0) == Some(ZERO_PAGE) && ZERO_PAGE != f.pages[0]
    ensures Deserialize(ZERO_PAGE) == Err(BadMagic)
  {
    FlushedWrite(e, f, p, data);
    hide WriteThenRestore, EngineStep;
    SerializedWord(f.header, 0);
    assert ZERO_PAGE[..8][0] == 0 && MAGIC[0] != 0;
    assert Serialize(f.header)[..8] != ZERO_PAGE[..8];
    var n := |e.disk.files.log|;
    var log := Truncated([], n);
    if n > 0 {
      assert log == seq(n, i => WalEntry(0, ZERO_PAGE));
      assert log[|log|-1] == WalEntry(0, ZERO_PAGE);
    }
  }

  /** Undoing a write that changes a page is exact if and only if nothing was flushed since the snapshot. */
  lemma RollbackExactIffNotFlushed(e: Engine, f: Flat, p: U32, data: Page, flushed: bool)
    requires Simulates(e, f) && 0 < p < e.count && data != f.pages[p]
    ensures var e2 := WriteThenRestore(e, p, data, flushed);
            (forall q: U32 :: q < e.count ==> Durable(e2.disk.files, q) == Some(f.pages[q])) <==> !flushed
  {
    if flushed {
      FlushBreaksRollback(e, f, p, data);
      assert f.pages[p] != data && f.pages[0] == f.pages[0];
    } else {
      var f1 := FlatStep(f, TakeSnapshot).0;
      StepSimulates(e, f, TakeSnapshot);
      StepSimulates(EngineStep(e, TakeSnapshot).0, f1, Write(p, data));
      var f2 := FlatStep(f1, Write(p, data)).0;
      StepSimulates(EngineStep(EngineStep(e, TakeSnapshot).0, Write(p, data)).0, f2, RestoreSnapshot);
      assert FlatStep(f2, RestoreSnapshot).0.pages == f.pages;
    }
  }

  /** Every page up to the count reads as remembered. */
  ghost predicate ReadsAs(f: Files, pages: seq<Page>) {
    forall q: U32 :: q < |pages| ==> Durable(f, q) == Some(pages[q])
  }

  ghost predicate Holds(f: Files, pages: seq<Page>) {
    && Complete(f, |pages|) && |pages| <= 0xFFFF_FFFF
    && View(f, |pages|) == pages
  }

  /** A main file without a log reads as its own pages. */
  lemma MainReads(main: seq<Page>, pages: seq<Page>)
    requires |pages| <= 0xFFFF_FFFF && |main| <= 0xFFFF_FFFF
    ensures ReadsAs(Files(main, []), pages) <==> pages <= main
    ensures Holds(Files(main, []), pages) <==> pages == main
  {
    forall q: U32 ensures Durable(Files(main, []), q) == if q < |main| then Some(main[q]) else None {
    }
    if ReadsAs(Files(main, []), pages) || Holds(Files(main, []), pages) {
      forall q | 0 <= q < |pages| ensures q < |main| && pages[q] == main[q] {
        var p: U32 := q;
        assert Durable(Files(main, []), p) == Some(pages[p]);
      }
      assert pages != [] ==> pages[|pages|-1] in pages && |pages| <= |main|;
    }
    ViewOfMain(main);
  }

  /** A grown log shadows the header page with zeros. */
  lemma GrownLogReads(main: seq<Page>, n: nat, pages: seq<Page>, header: FileHeader)
    requires 0 < n && 1 <= |pages| && pages[0] == Serialize(header)
    ensures !ReadsAs(Files(main, Truncated([], n)), pages) && !Holds(Files(main, Truncated([], n)), pages)
  {
    var log := Truncated([], n);
    assert log[|log|-1] == WalEntry(0, ZERO_PAGE);
    assert Durable(Files(main, log), 0) == Some(ZERO_PAGE);
    SerializedWord(header, 0);
    assert Serialize(header)[..8] != ZERO_PAGE[..8] by {
      assert ZERO_PAGE[..8][0] == 0 && MAGIC[0] != 0;
    }
  }

  /** Restoring a snapshot across a flush that had something to do. */
  lemma RestoreAfterFlushIff(e: Engine, f: Flat, s: Snapshot, pages: seq<Page>)
    requires Simulates(e, f) && e.disk.files.log != []
    requires 1 <= |pages| <= 0xFFFF_FFFF && pages[0] == Serialize(s.header)
    ensures var files := RestoreDisk(FlushDisk(e.disk, e.count), s.walLen).files;
      && (ReadsAs(files, pages) <==> s.walLen == 0 && pages <= f.pages)
      && (Holds(files, pages) <==> s.walLen == 0 && pages == f.pages)
  {
    hide Serialize, ApplyLog, Coherent, Holds, ReadsAs;
    CheckpointIsView(e.disk.files, e.count, true);
    if s.walLen == 0 {
      MainReads(f.pages, pages);
    } else {
      GrownLogReads(f.pages, s.walLen, pages, s.header);
    }
  }

  /** After a snapshot and any run, a flush that finds something in the log, and a restoration, all pages
      are as remembered if and only if the log was empty at the snapshot and the run had left the pages,
      or put them back, as they were. Further pages behind them stay in the main file. */
  lemma RollbackAcrossFlushIff(e: Engine, f: Flat, ops: seq<Op>)
    requires Simulates(e, f)
    requires var f1 := FlatStep(f, TakeSnapshot).0;
             && DisciplinedRun(f1, ops)
             && StaysAbove(f1, ops, |f.snaps| + 1)
             && |FlatRun(f1, ops).0.snaps| == |f.snaps| + 1
    requires EngineRun(EngineStep(e, TakeSnapshot).0, ops).0.disk.files.log != []
    ensures var e2 := EngineRun(EngineStep(e, TakeSnapshot).0, ops).0;
      var f2 := FlatRun(FlatStep(f, TakeSnapshot).0, ops).0;
      var e3 := EngineStep(EngineStep(e2, Flush).0, RestoreSnapshot).0;
      && e3.count == e.count && e3.header == e.header
      && (ReadsAs(e3.disk.files, f.pages) <==> e.disk.files.log == [] && f.pages <= f2.pages)
      && (Holds(e3.disk.files, f.pages) <==> e.disk.files.log == [] && f.pages == f2.pages)
  {
    hide Serialize, DisciplinedRun, StaysAbove, Coherent, ReadsAs, Holds, FlushDisk, RestoreDisk, Durable;
    var f1, n := FlatStep(f, TakeSnapshot).0, |f.snaps|;
    var e1 := EngineStep(e, TakeSnapshot).0;
    StepSimulates(e, f, TakeSnapshot);
    RunSimulates(e1, f1, ops);
    EngineSnapshotsKept(e1, f1, ops, n + 1);
    var e2 := EngineRun(e1, ops).0;
    assert e2.snaps[n] == e2.snaps[..n+1][n] == e1.snaps[..n+1][n] == e1.snaps[n];
    RestoreAfterFlushIff(e2, FlatRun(f1, ops).0, e1.snaps[n], f.pages);
  }

  lemma {:induction false} EngineSnapshotsKept(e: Engine, f: Flat, ops: seq<Op>, depth: nat)
    requires Simulates(e, f) && DisciplinedRun(f, ops) && StaysAbove(f, ops, depth)
    ensures var e2 := EngineRun(e, ops).0;
      depth <= |e.snaps| && depth <= |e2.snaps| && e2.snaps[..depth] == e.snaps[..depth]
    decreases |ops|
  {
    hide Disciplined, ReadDisk, WriteDisk, FlushDisk, RestoreDisk;
    assert |e.snaps| == |f.snaps|;
    if ops != [] {
      StepSimulates(e, f, ops[0]);
      hide Simulates;
      EngineSnapshotsKept(EngineStep(e, ops[0]).0, FlatStep(f, ops[0]).0, ops[1..], depth);
      assert EngineStep(e, ops[0]).0.snaps[..depth] == e.snaps[..depth];
    }
  }
}
