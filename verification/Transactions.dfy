/**
 * Whole runs of transactions on the storage engine, against two copies of the pages. Work between the
 * calls may itself take and give back snapshots, as schema changes do, but never flushes. Between any
 * two calls the process may stop and the files be opened again.
 */
module Transactions {
  import opened Types
  import opened Header
  import opened Store
  import opened Engine

  datatype TxOp =
    | Begin
    | Commit
    | Rollback
    | Close
    | Work(ops: seq<Op>)
    | Stop(capacity: nat)

  datatype TxOutput = Success | Refused(error: GraphError) | Worked(outputs: seq<Output>)

  /** A connection: the engine, whether it is open, and whether a snapshot is pending. */
  datatype Conn = Conn(engine: Engine, open: bool, pending: bool)

  function TxStep(c: Conn, op: TxOp): (Conn, TxOutput) {
    match op
    case Begin =>
      if c.pending then (c, Refused(TransactionInProgress))
      else if !c.open then (c, Refused(Closed))
      else (Conn(EngineStep(c.engine, TakeSnapshot).0, true, true), Success)
    case Commit =>
      if !c.pending then (c, Refused(NoTransaction))
      else (Conn(EngineRun(c.engine, [DropSnapshot, Flush]).0, true, false), Success)
    case Rollback =>
      if !c.pending then (c, Refused(NoTransaction))
      else (Conn(EngineStep(c.engine, RestoreSnapshot).0, true, false), Success)
    case Close =>
      var engine := if c.pending then EngineStep(c.engine, RestoreSnapshot).0 else c.engine;
      (Conn(if c.open then EngineStep(engine, Flush).0 else engine, false, false), Success)
    case Work(ops) =>
      if !c.open then (c, Refused(Closed))
      else
        var (engine, outs) := EngineRun(c.engine, ops);
        (c.(engine := engine), Worked(outs))
    case Stop(capacity) => (Conn(EngineStep(c.engine, Reopen(capacity)).0, true, false), Success)
  }

  /** What the pages are, and what they were at begin. */
  datatype Content = Content(pages: seq<Page>, header: FileHeader)

  datatype Shadow = Shadow(now: Content, saved: Option<Content>, open: bool)

  function Alone(c: Content): Flat {
    Flat(c.pages, c.header, [])
  }

  function ShadowStep(s: Shadow, op: TxOp): (Shadow, TxOutput) {
    match op
    case Begin =>
      if s.saved.Some? then (s, Refused(TransactionInProgress))
      else if !s.open then (s, Refused(Closed))
      else (s.(saved := Some(s.now)), Success)
    case Commit => if s.saved.None? then (s, Refused(NoTransaction)) else (s.(saved := None), Success)
    case Rollback => if s.saved.None? then (s, Refused(NoTransaction)) else (Shadow(s.saved.value, None, s.open), Success)
    case Close => (Shadow(if s.saved.Some? then s.saved.value else s.now, None, false), Success)
    case Work(ops) =>
      if !s.open then (s, Refused(Closed))
      else
        var (f, outs) := FlatRun(Alone(s.now), ops);
        (s.(now := Content(f.pages, f.header)), Worked(outs))
    case Stop(_) => (Shadow(s.now, None, true), Success)
  }

  function TxRun(c: Conn, ops: seq<TxOp>): (Conn, seq<TxOutput>)
    decreases |ops|
  {
    if ops == [] then (c, [])
    else
      var (c1, out) := TxStep(c, ops[0]);
      var (c2, outs) := TxRun(c1, ops[1..]);
      (c2, [out] + outs)
  }

  function ShadowRun(s: Shadow, ops: seq<TxOp>): (Shadow, seq<TxOutput>)
    decreases |ops|
  {
    if ops == [] then (s, [])
    else
      var (s1, out) := ShadowStep(s, ops[0]);
      var (s2, outs) := ShadowRun(s1, ops[1..]);
      (s2, [out] + outs)
  }

  // ---- What work may do ----

  /** Work writes existing pages, does not flush, and gives back every snapshot that it takes. */
  predicate IsWork(f: Flat, ops: seq<Op>)
    decreases |ops|
  {
    if ops == [] then f.snaps == []
    else
      && !ops[0].Flush? && !ops[0].Reopen? && Disciplined(f, ops[0])
      && (ops[0].DropSnapshot? || ops[0].RestoreSnapshot? ==> f.snaps != [])
      && IsWork(FlatStep(f, ops[0]).0, ops[1..])
  }

  predicate Proper(s: Shadow, op: TxOp) {
    (op.Work? && s.open ==> IsWork(Alone(s.now), op.ops)) && (op.Stop? ==> 1 <= op.capacity)
  }

  predicate ProperRun(s: Shadow, ops: seq<TxOp>)
    decreases |ops|
  {
    ops == [] || (Proper(s, ops[0]) && ProperRun(ShadowStep(s, ops[0]).0, ops[1..]))
  }

  /** The same state above older snapshots. */
  function Above(base: seq<FlatSnapshot>, f: Flat): Flat {
    f.(snaps := base + f.snaps)
  }

  /** Work does not see the snapshots below it. */
  lemma {:induction false} WorkAbove(base: seq<FlatSnapshot>, f: Flat, ops: seq<Op>)
    requires IsWork(f, ops)
    ensures FlatRun(Above(base, f), ops) == (Above(base, FlatRun(f, ops).0), FlatRun(f, ops).1)
    ensures DisciplinedRun(Above(base, f), ops)
    ensures FlatRun(f, ops).0.snaps == []
    decreases |ops|
  {
    if ops != [] {
      StepAbove(base, f, ops[0]);
      WorkAbove(base, FlatStep(f, ops[0]).0, ops[1..]);
    }
  }

  lemma StepAbove(base: seq<FlatSnapshot>, f: Flat, op: Op)
    requires !op.Flush? && !op.Reopen? && Disciplined(f, op) && (op.DropSnapshot? || op.RestoreSnapshot? ==> f.snaps != [])
    ensures FlatStep(Above(base, f), op) == (Above(base, FlatStep(f, op).0), FlatStep(f, op).1)
    ensures Disciplined(Above(base, f), op)
  {
    var n := |f.snaps|;
    match op
    case TakeSnapshot =>
      var snap := FlatSnapshot(f.pages, f.header);
      assert (base + f.snaps) + [snap] == base + (f.snaps + [snap]);
    case DropSnapshot =>
      assert (base + f.snaps)[..|base|+n-1] == base + f.snaps[..n-1];
    case RestoreSnapshot =>
      assert (base + f.snaps)[..|base|+n-1] == base + f.snaps[..n-1];
    case _ =>
  }

  // ---- Transactions keep two copies ----

  function Snapshots(s: Shadow): seq<FlatSnapshot> {
    match s.saved
    case None => []
    case Some(c) => [FlatSnapshot(c.pages, c.header)]
  }

  ghost predicate Tracks(c: Conn, s: Shadow) {
    && c.open == s.open && c.pending == s.saved.Some?
    && (c.pending ==> c.open)
    && Simulates(c.engine, Flat(s.now.pages, s.now.header, Snapshots(s)))
  }

  lemma WorkTracks(c: Conn, s: Shadow, ops: seq<Op>)
    requires Tracks(c, s) && c.open && IsWork(Alone(s.now), ops)
    ensures Tracks(TxStep(c, Work(ops)).0, ShadowStep(s, Work(ops)).0)
    ensures TxStep(c, Work(ops)).1 == ShadowStep(s, Work(ops)).1
  {
    hide Simulates, EngineRun, FlatRun, IsWork, DisciplinedRun;
    var f, base := Alone(s.now), Snapshots(s);
    assert base + [] == base;
    WorkAbove(base, f, ops);
    RunSimulates(c.engine, Above(base, f), ops);
    assert base + FlatRun(f, ops).0.snaps == base;
  }

  lemma CommitTracks(c: Conn, s: Shadow)
    requires Tracks(c, s) && c.pending
    ensures Tracks(TxStep(c, Commit).0, ShadowStep(s, Commit).0)
  {
    hide Simulates, EngineStep;
    var f := Flat(s.now.pages, s.now.header, Snapshots(s));
    var e1 := EngineStep(c.engine, DropSnapshot).0;
    StepSimulates(c.engine, f, DropSnapshot);
    StepSimulates(e1, FlatStep(f, DropSnapshot).0, Flush);
    assert [DropSnapshot, Flush][1..] == [Flush] && [Flush][1..] == [];
    assert EngineRun(e1, [Flush]).0 == EngineStep(e1, Flush).0;
  }

  lemma CloseTracks(c: Conn, s: Shadow)
    requires Tracks(c, s)
    ensures Tracks(TxStep(c, Close).0, ShadowStep(s, Close).0)
  {
    hide Simulates, EngineStep;
    var f := Flat(s.now.pages, s.now.header, Snapshots(s));
    if c.pending {
      StepSimulates(c.engine, f, RestoreSnapshot);
      StepSimulates(EngineStep(c.engine, RestoreSnapshot).0, FlatStep(f, RestoreSnapshot).0, Flush);
    } else if c.open {
      StepSimulates(c.engine, f, Flush);
    }
  }

  lemma StepTracks(c: Conn, s: Shadow, op: TxOp)
    requires Tracks(c, s) && Proper(s, op)
    ensures Tracks(TxStep(c, op).0, ShadowStep(s, op).0)
    ensures TxStep(c, op).1 == ShadowStep(s, op).1
  {
    hide Simulates, EngineStep, IsWork;
    var f := Flat(s.now.pages, s.now.header, Snapshots(s));
    match op
    case Begin =>
      if !c.pending && c.open {
        StepSimulates(c.engine, f, TakeSnapshot);
        assert FlatStep(f, TakeSnapshot).0.snaps == Snapshots(ShadowStep(s, op).0);
      }
    case Commit =>
      if c.pending {
        CommitTracks(c, s);
      }
    case Rollback =>
      if c.pending {
        StepSimulates(c.engine, f, RestoreSnapshot);
      }
    case Close => CloseTracks(c, s);
    case Work(ops) =>
      if c.open {
        WorkTracks(c, s, ops);
      }
    case Stop(capacity) => StepSimulates(c.engine, f, Reopen(capacity));
  }

  /** Every call of every run answers as the two copies would, and leaves the pages they hold. */
  lemma {:induction false} RunTracks(c: Conn, s: Shadow, ops: seq<TxOp>)
    requires Tracks(c, s) && ProperRun(s, ops)
    ensures Tracks(TxRun(c, ops).0, ShadowRun(s, ops).0)
    ensures TxRun(c, ops).1 == ShadowRun(s, ops).1
    decreases |ops|
  {
    hide Tracks, TxStep, ShadowStep, Proper;
    if ops != [] {
      StepTracks(c, s, ops[0]);
      RunTracks(TxStep(c, ops[0]).0, ShadowStep(s, ops[0]).0, ops[1..]);
    }
  }

  function NewConn(capacity: nat): Conn {
    Conn(NewEngine(capacity), true, false)
  }

  function NewShadow(): Shadow {
    Shadow(Content([Serialize(NEW_HEADER)], NEW_HEADER), None, true)
  }

  /** From a new database on, the pages, their number and the header are at every point what the two
      copies say, and reopening finds them. */
  lemma RunIsTracked(capacity: nat, ops: seq<TxOp>)
    requires 1 <= capacity && ProperRun(NewShadow(), ops)
    ensures TxRun(NewConn(capacity), ops).1 == ShadowRun(NewShadow(), ops).1
    ensures Holding(TxRun(NewConn(capacity), ops).0, ShadowRun(NewShadow(), ops).0.now)
    ensures TxRun(NewConn(capacity), ops).0.open == ShadowRun(NewShadow(), ops).0.open
    ensures TxRun(NewConn(capacity), ops).0.pending == ShadowRun(NewShadow(), ops).0.saved.Some?
  {
    NewSimulates(capacity);
    RunTracks(NewConn(capacity), NewShadow(), ops);
    TracksHolds(TxRun(NewConn(capacity), ops).0, ShadowRun(NewShadow(), ops).0);
  }

  /** The engine shows the content, and so will the files once reopened. */
  ghost predicate Holding(c: Conn, content: Content) {
    var e := c.engine;
    && Shows(e.disk.files, e.count, content.pages, content.header)
    && e.header == content.header
    && |e.disk.files.main| <= 0x1_0000_0000
    && OpenFiles(e.disk.files) == Files(content.pages, [])
    && content.pages != [] && Deserialize(content.pages[0]) == Ok(content.header)
  }

  lemma TracksHolds(c: Conn, s: Shadow)
    requires Tracks(c, s)
    ensures Holding(c, s.now)
  {
    OpenRecoversView(c.engine.disk.files, c.engine.count);
    HeaderRoundTrip(s.now.header);
  }

  // ---- What the calls answer ----

  lemma {:induction false} TxRunLast(c: Conn, ops: seq<TxOp>, op: TxOp)
    ensures TxRun(c, ops + [op]).0 == TxStep(TxRun(c, ops).0, op).0
    decreases |ops|
  {
    hide TxStep;
    if ops == [] {
      assert [] + [op] == [op] && [op][1..] == [];
    } else {
      TxRunLast(TxStep(c, ops[0]).0, ops[1..], op);
      assert (ops + [op])[0] == ops[0] && (ops + [op])[1..] == ops[1..] + [op];
    }
  }

  /** The connection is open: every close was followed by a stop, after which the files are opened again. */
  predicate IsOpened(ops: seq<TxOp>) {
    forall k :: 0 <= k < |ops| && ops[k].Close? ==> exists l :: k < l < |ops| && ops[l].Stop?
  }

  /** A begin at place `i` was followed by nothing but work and further begins. */
  predicate BegunAt(ops: seq<TxOp>, i: nat) {
    i < |ops| && ops[i].Begin? && IsOpened(ops[..i]) && IsPlain(ops[i+1..])
  }

  /** A transaction was begun and has not ended: nothing but work, and begins that are refused, came after. */
  ghost predicate InTransaction(ops: seq<TxOp>) {
    exists i: nat :: BegunAt(ops, i)
  }

  predicate IsPlain(ops: seq<TxOp>) {
    forall op :: op in ops ==> op.Begin? || op.Work?
  }

  lemma OpenedNext(ops: seq<TxOp>, op: TxOp)
    ensures IsOpened(ops + [op]) <==> op.Stop? || (!op.Close? && IsOpened(ops))
  {
    var n := |ops|;
    assert (ops + [op])[n] == op;
    if !op.Stop? && IsOpened(ops + [op]) {
      forall k | 0 <= k < n && ops[k].Close? ensures exists l :: k < l < n && ops[l].Stop? {
        assert (ops + [op])[k] == ops[k];
        var l :| k < l <= n && (ops + [op])[l].Stop?;
        assert ops[l].Stop?;
      }
    }
    if !op.Close? && IsOpened(ops) {
      forall k | 0 <= k <= n && (ops + [op])[k].Close? ensures exists l :: k < l <= n && (ops + [op])[l].Stop? {
        var l :| k < l < n && ops[l].Stop?;
        assert (ops + [op])[l] == ops[l];
      }
    }
  }

  lemma PlainNext(ops: seq<TxOp>, op: TxOp)
    ensures IsPlain(ops + [op]) <==> IsPlain(ops) && (op.Begin? || op.Work?)
  {
    assert (ops + [op])[|ops|] == op;
    if IsPlain(ops + [op]) {
      forall o | o in ops ensures o.Begin? || o.Work? {
        assert o in ops + [op];
      }
    }
  }

  lemma BegunAtNext(ops: seq<TxOp>, op: TxOp, i: nat)
    ensures i < |ops| ==> (BegunAt(ops + [op], i) <==> BegunAt(ops, i) && (op.Begin? || op.Work?))
    ensures BegunAt(ops + [op], |ops|) <==> op.Begin? && IsOpened(ops)
  {
    hide IsOpened, IsPlain;
    var all := ops + [op];
    assert all[..|ops|] == ops && all[|ops|+1..] == [] && all[|ops|] == op;
    assert IsPlain([]) by {
      NothingIsPlain();
    }
    if i < |ops| {
      assert all[i+1..] == ops[i+1..] + [op] && all[..i] == ops[..i] && all[i] == ops[i];
      PlainNext(ops[i+1..], op);
    }
  }

  lemma NothingIsPlain()
    ensures IsPlain([])
  {
  }

  lemma InTransactionNext(ops: seq<TxOp>, op: TxOp)
    ensures InTransaction(ops + [op]) <==> (op.Begin? && IsOpened(ops)) || ((op.Begin? || op.Work?) && InTransaction(ops))
  {
    hide IsOpened, BegunAt;
    BegunAtNext(ops, op, 0);
    if InTransaction(ops + [op]) {
      var i: nat :| BegunAt(ops + [op], i);
      BegunAtNext(ops, op, i);
      assert i <= |ops| by {
        BegunBefore(ops + [op], i);
      }
    }
    if (op.Begin? || op.Work?) && InTransaction(ops) {
      var i: nat :| BegunAt(ops, i);
      BegunBefore(ops, i);
      BegunAtNext(ops, op, i);
    }
  }

  lemma BegunBefore(ops: seq<TxOp>, i: nat)
    requires BegunAt(ops, i)
    ensures i < |ops|
  {
  }

  lemma {:induction false} CallsLeave(capacity: nat, ops: seq<TxOp>)
    ensures var c := TxRun(NewConn(capacity), ops).0;
      c.open == IsOpened(ops) && c.pending == InTransaction(ops) && (c.pending ==> c.open)
    decreases |ops|
  {
    hide EngineStep, EngineRun, IsOpened, InTransaction;
    if ops == [] {
      assert IsOpened([]) && !InTransaction([]) by {
        OpenedAtFirst();
      }
    } else {
      var n := |ops| - 1;
      assert ops == ops[..n] + [ops[n]];
      CallsLeave(capacity, ops[..n]);
      TxRunLast(NewConn(capacity), ops[..n], ops[n]);
      OpenedNext(ops[..n], ops[n]);
      InTransactionNext(ops[..n], ops[n]);
    }
  }

  lemma OpenedAtFirst()
    ensures IsOpened([]) && !InTransaction([])
  {
  }

  /** What any call after any run answers: begin succeeds on an open connection outside a transaction,
      commit and rollback inside one, and what is refused changes nothing. */
  lemma CallsAnswer(capacity: nat, ops: seq<TxOp>, op: TxOp)
    ensures var c := TxRun(NewConn(capacity), ops).0;
      && (TxStep(c, op).1.Refused? ==> TxStep(c, op).0 == c)
      && match op
         case Begin =>
           TxStep(c, op).1 == if InTransaction(ops) then Refused(TransactionInProgress)
                              else if IsOpened(ops) then Success else Refused(Closed)
         case Commit => TxStep(c, op).1 == if InTransaction(ops) then Success else Refused(NoTransaction)
         case Rollback => TxStep(c, op).1 == if InTransaction(ops) then Success else Refused(NoTransaction)
         case Work(_) => if IsOpened(ops) then TxStep(c, op).1.Worked? else TxStep(c, op).1 == Refused(Closed)
         case _ => TxStep(c, op).1 == Success
  {
    hide EngineStep, EngineRun, IsOpened, InTransaction;
    CallsLeave(capacity, ops);
  }

  // ---- Rollback, close and commit ----

  lemma {:induction false} ShadowRunAppend(s: Shadow, a: seq<TxOp>, b: seq<TxOp>)
    ensures ShadowRun(s, a + b).0 == ShadowRun(ShadowRun(s, a).0, b).0
    decreases |a|
  {
    hide ShadowStep;
    if a == [] {
      assert a + b == b;
    } else {
      ShadowRunAppend(ShadowStep(s, a[0]).0, a[1..], b);
      assert (a + b)[0] == a[0] && (a + b)[1..] == a[1..] + b;
    }
  }

  predicate OnlyWork(ops: seq<TxOp>) {
    forall op :: op in ops ==> op.Work?
  }

  /** Work changes the pages, in the same way inside and outside a transaction, and nothing else. */
  lemma {:induction false} WorkKeepsSaved(s: Shadow, saved: Option<Content>, works: seq<TxOp>)
    requires OnlyWork(works)
    ensures ShadowRun(s.(saved := saved), works).0 == ShadowRun(s, works).0.(saved := saved)
    ensures ShadowRun(s, works).0.saved == s.saved && ShadowRun(s, works).0.open == s.open
    decreases |works|
  {
    hide FlatRun;
    if works != [] {
      assert works[0] in works;
      WorkKeepsSaved(ShadowStep(s, works[0]).0, saved, works[1..]);
    }
  }

  lemma {:induction false} ProperRunPrefix(s: Shadow, ops: seq<TxOp>, op: TxOp)
    requires ProperRun(s, ops + [op])
    ensures ProperRun(s, ops)
    decreases |ops|
  {
    hide Proper, ShadowStep;
    if ops != [] {
      assert (ops + [op])[0] == ops[0] && (ops + [op])[1..] == ops[1..] + [op];
      ProperRunPrefix(ShadowStep(s, ops[0]).0, ops[1..], op);
    }
  }

  lemma EndingEmptiesLog(c: Conn, op: TxOp)
    requires (op.Commit? && c.pending) || (op.Close? && c.open) || op.Stop?
    ensures TxStep(c, op).0.engine.disk.files.log == []
  {
    if op.Commit? {
      var e1 := EngineStep(c.engine, DropSnapshot).0;
      assert [DropSnapshot, Flush][1..] == [Flush] && [Flush][1..] == [];
      assert EngineRun(e1, [Flush]).0 == EngineStep(e1, Flush).0;
    }
  }

  lemma HoldingFlushed(c: Conn, content: Content)
    requires Holding(c, content) && c.engine.disk.files.log == []
    ensures c.engine.disk.files == Files(content.pages, [])
  {
    hide Shows;
  }

  /** A transaction begun in any state that a run reaches: a rollback restores exactly the pages, the
      page count and the header held at begin; closing does the same and leaves them in the files; a
      commit leaves the pages as the same work does outside a transaction, and the main file holds them.
      So does a stop: the work of a transaction that has not ended is in the log, and is there when the
      files are opened again. */
  lemma TransactionEnds(capacity: nat, before: seq<TxOp>, works: seq<TxOp>, last: TxOp)
    requires 1 <= capacity && OnlyWork(works)
    requires ProperRun(NewShadow(), before + [Begin] + works + [last])
    requires var s := ShadowRun(NewShadow(), before).0; s.open && s.saved == None
    ensures var content := ShadowRun(NewShadow(), before).0.now;
      var worked := ShadowRun(NewShadow(), before + works).0.now;
      var c := TxRun(NewConn(capacity), before + [Begin] + works + [last]).0;
      match last
      case Rollback => Holding(c, content) && c.open && !c.pending
      case Close => Holding(c, content) && !c.open && c.engine.disk.files == Files(content.pages, [])
      case Commit => Holding(c, worked) && c.open && !c.pending && c.engine.disk.files == Files(worked.pages, [])
      case Stop(_) => Holding(c, worked) && c.open && !c.pending && c.engine.disk.files == Files(worked.pages, [])
      case _ => true
  {
    hide ProperRun, Holding, FlatRun, EngineStep, EngineRun;
    var s := ShadowRun(NewShadow(), before).0;
    var s1 := s.(saved := Some(s.now));
    ShadowRunAppend(NewShadow(), before, works);
    ShadowRunAppend(NewShadow(), before, [Begin]);
    ShadowRunAppend(NewShadow(), before + [Begin], works);
    ShadowRunAppend(NewShadow(), before + [Begin] + works, [last]);
    assert [Begin][1..] == [] && [last][1..] == [];
    assert ShadowRun(NewShadow(), before + [Begin]).0 == s1;
    WorkKeepsSaved(s, Some(s.now), works);
    RunIsTracked(capacity, before + [Begin] + works + [last]);
    if last.Close? || last.Commit? || last.Stop? {
      ProperRunPrefix(NewShadow(), before + [Begin] + works, last);
      RunIsTracked(capacity, before + [Begin] + works);
      TxRunLast(NewConn(capacity), before + [Begin] + works, last);
      EndingEmptiesLog(TxRun(NewConn(capacity), before + [Begin] + works).0, last);
      HoldingFlushed(TxRun(NewConn(capacity), before + [Begin] + works + [last]).0,
                     ShadowRun(NewShadow(), before + [Begin] + works + [last]).0.now);
    }
  }
}
