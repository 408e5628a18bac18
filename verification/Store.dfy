/**
 * The storage backends as values: what one call of the file backend does to its main file, its
 * write-ahead log and its page cache, and the view of the pages that callers see. The classes of
 * `Backends` implement these functions.
 */
module Store {
  import opened Types
  import opened Lru

  datatype WalEntry = WalEntry(page: U32, data: Page)

  /** The durable part of a file-backed database: the main file and the log. */
  datatype Files = Files(main: seq<Page>, log: seq<WalEntry>)

  datatype Disk = Disk(files: Files, cache: seq<Entry<Page>>, capacity: nat)

  /** The latest logged contents of a page. */
  function Latest(log: seq<WalEntry>, p: U32): Option<Page> {
    if log == [] then None
    else if log[|log|-1].page == p then Some(log[|log|-1].data)
    else Latest(log[..|log|-1], p)
  }

  /** What a reader that finds nothing in the cache gets. */
  function Durable(f: Files, p: U32): Option<Page> {
    match Latest(f.log, p)
    case Some(data) => Some(data)
    case None => if p < |f.main| then Some(f.main[p]) else None
  }

  /** Writing at a page offset; a file that is too short grows, with zeros in the gap. */
  function WriteAt(main: seq<Page>, p: nat, data: Page): (r: seq<Page>)
    ensures |r| == if p < |main| then |main| else p + 1
    ensures r[p] == data
    ensures forall q :: 0 <= q < |main| && q != p ==> r[q] == main[q]
    ensures forall q :: |main| <= q < p ==> r[q] == ZERO_PAGE
  {
    if p < |main| then main[p := data]
    else main + seq(p - |main|, i => ZERO_PAGE) + [data]
  }

  /** The main file after a checkpoint: every logged write in order. */
  function ApplyLog(main: seq<Page>, log: seq<WalEntry>): seq<Page> {
    if log == [] then main
    else WriteAt(ApplyLog(main, log[..|log|-1]), log[|log|-1].page, log[|log|-1].data)
  }

  function Padded(main: seq<Page>, count: nat): (r: seq<Page>)
    ensures |r| == if |main| < count then count else |main|
    ensures main <= r
    ensures forall q :: |main| <= q < |r| ==> r[q] == ZERO_PAGE
  {
    if |main| < count then main + seq(count - |main|, i => ZERO_PAGE) else main
  }

  /** Resizing the log file. Growing it appends zero bytes, which read back as valid entries: page 0
      with zero contents and the checksum 0 of those. */
  function Truncated(log: seq<WalEntry>, n: nat): seq<WalEntry> {
    if n <= |log| then log[..n] else log + seq(n - |log|, i => WalEntry(0, ZERO_PAGE))
  }

  /** What no one wrote is zero bytes: the gap before a page written beyond the end, the pages that pad the
      main file, and what a log that is made longer goes on with, which are entries of page 0. */
  lemma GapsAreZeros(main: seq<Page>, data: Page, log: seq<WalEntry>, n: nat, q: nat, k: nat)
    requires k < PAGE_SIZE
    ensures |main| <= q < n ==> WriteAt(main, n, data)[q][k] == 0 && Padded(main, n)[q][k] == 0
    ensures |Truncated(log, n)| == n
    ensures q < n && q < |log| ==> Truncated(log, n)[q] == log[q]
    ensures |log| <= q < n ==> Truncated(log, n)[q].page == 0 && Truncated(log, n)[q].data[k] == 0
  {
  }

  // ---- The file backend ----

  function ReadDisk(d: Disk, p: U32): (Disk, Result<Page>) {
    match Lookup(d.cache, p)
    case Some(e) => (d.(cache := Touch(d.cache, p)), Ok(e.data))
    case None =>
      match Durable(d.files, p)
      case Some(data) => (d.(cache := Put(d.cache, d.capacity, p, data, false)), Ok(data))
      case None => (d, Err(IoError))
  }

  function WriteDisk(d: Disk, p: U32, data: Page): Disk {
    Disk(Files(d.files.main, d.files.log + [WalEntry(p, data)]),
         Put(d.cache, d.capacity, p, data, false), d.capacity)
  }

  function FlushDisk(d: Disk, count: nat): Disk {
    if d.files.log == [] then d
    else d.(files := Files(ApplyLog(Padded(d.files.main, count), d.files.log), []))
  }

  function RestoreDisk(d: Disk, walLen: nat): Disk {
    Disk(Files(d.files.main, Truncated(d.files.log, walLen)), [], d.capacity)
  }

  /** Opening checkpoints the log, without padding, before anything is read. */
  function OpenFiles(f: Files): Files {
    Files(ApplyLog(f.main, f.log), [])
  }

  // ---- The view of the pages ----

  /** Every page below `count` is in the main file or in the log, and nothing is logged beyond. */
  ghost predicate Complete(f: Files, count: nat) {
    && |f.main| <= count
    && (forall i :: 0 <= i < |f.log| ==> f.log[i].page < count)
    && (forall p: U32 :: p < count ==> Durable(f, p).Some?)
  }

  ghost function View(f: Files, count: nat): (v: seq<Page>)
    requires Complete(f, count) && count <= 0x1_0000_0000
    ensures |v| == count
    ensures forall p: U32 {:trigger v[p]} :: p < count ==> Durable(f, p) == Some(v[p])
  {
    seq(count, p requires 0 <= p < count && Complete(f, count) => Durable(f, p).value)
  }

  /** Every cached frame is clean and equal to its durable copy. */
  ghost predicate Coherent(d: Disk) {
    && Distinct(d.cache)
    && |d.cache| <= d.capacity
    && 1 <= d.capacity
    && forall i :: 0 <= i < |d.cache| ==> !d.cache[i].dirty && Durable(d.files, d.cache[i].page) == Some(d.cache[i].data)
  }

  ghost predicate Sound(d: Disk, count: nat) {
    Complete(d.files, count) && Coherent(d) && count <= 0x1_0000_0000
  }

  // ---- One step ----

  lemma LatestAppend(log: seq<WalEntry>, p: U32, data: Page, q: U32)
    ensures Latest(log + [WalEntry(p, data)], q) == if q == p then Some(data) else Latest(log, q)
  {
    assert (log + [WalEntry(p, data)])[..|log|] == log;
  }

  lemma {:induction false} LatestPage(log: seq<WalEntry>, p: U32) returns (i: nat)
    ensures Latest(log, p).Some? ==> i < |log| && log[i].page == p
    ensures Latest(log, p).None? ==> forall k :: 0 <= k < |log| ==> log[k].page != p
  {
    i := 0;
    if log != [] {
      var n := |log| - 1;
      i := n;
      if log[n].page != p {
        i := LatestPage(log[..n], p);
        assert forall k :: 0 <= k < n ==> log[..n][k] == log[k];
      }
    }
  }

  /** The cache keeps coherent entries coherent when they are reordered or dropped, and when a page
      is put with its durable contents. */
  lemma CachePut(d: Disk, files: Files, p: U32, data: Page)
    requires Coherent(d)
    requires Durable(files, p) == Some(data)
    requires forall q: U32 :: q != p ==> Durable(files, q) == Durable(d.files, q)
    ensures Coherent(Disk(files, Put(d.cache, d.capacity, p, data, false), d.capacity))
    ensures Evicted(d.cache, d.capacity, p) == None
  {
    PutDistinct(d.cache, d.capacity, p, data, false);
    var i := LookupPosition(d.cache, p);
    if Lookup(d.cache, p).Some? {
      AtPosition(d.cache, i);
      hide Lookup, Without, Durable, Distinct;
    }
  }

  lemma CacheTouch(d: Disk, p: U32)
    requires Coherent(d)
    ensures Coherent(d.(cache := Touch(d.cache, p)))
    ensures Lookup(d.cache, p).Some? ==> Durable(d.files, p) == Some(Lookup(d.cache, p).value.data)
  {
    var i := LookupPosition(d.cache, p);
    if Lookup(d.cache, p).Some? {
      AtPosition(d.cache, i);
    }
  }

  /** Whatever the cache holds, a read returns the durable page, and an error exactly when there is none. */
  lemma ReadReturnsDurable(d: Disk, p: U32)
    requires Coherent(d)
    ensures var (d2, r) := ReadDisk(d, p);
      && Coherent(d2) && d2.files == d.files && d2.capacity == d.capacity
      && (r.Ok? <==> Durable(d.files, p).Some?)
      && (r.Ok? ==> Durable(d.files, p) == Some(r.value))
  {
    CacheTouch(d, p);
    if Lookup(d.cache, p).None? && Durable(d.files, p).Some? {
      CachePut(d, d.files, p, Durable(d.files, p).value);
    }
  }

  /** A write of page `p` below `count`, or an append at `count`, changes that page of the view only. */
  lemma WriteUpdatesView(d: Disk, count: nat, p: U32, data: Page)
    requires Sound(d, count) && p <= count && (p == count ==> count < 0x1_0000_0000)
    ensures var count2 := if p == count then count + 1 else count;
      && Sound(WriteDisk(d, p, data), count2)
      && View(WriteDisk(d, p, data).files, count2) ==
           (if p == count then View(d.files, count) + [data] else View(d.files, count)[p := data])
      && Evicted(d.cache, d.capacity, p) == None
  {
    var d2 := WriteDisk(d, p, data);
    var count2 := if p == count then count + 1 else count;
    forall q: U32 ensures Durable(d2.files, q) == if q == p then Some(data) else Durable(d.files, q) {
      LatestAppend(d.files.log, p, data, q);
    }
    CachePut(d, d2.files, p, data);
    var v2 := if p == count then View(d.files, count) + [data] else View(d.files, count)[p := data];
    forall q: U32 | q < count2 ensures Durable(d2.files, q) == Some(v2[q]) {
    }
    assert View(d2.files, count2) == v2;
  }

  // ---- Checkpoints ----

  /** A checkpoint moves exactly the durable contents of every page into the main file. */
  lemma {:induction false} ApplyLogIsDurable(main: seq<Page>, log: seq<WalEntry>, p: U32)
    ensures Durable(Files(main, log), p).Some? ==>
      p < |ApplyLog(main, log)| && Durable(Files(main, log), p) == Some(ApplyLog(main, log)[p])
  {
    if log != [] {
      ApplyLogIsDurable(main, log[..|log|-1], p);
    }
  }

  lemma {:induction false} ApplyLogSize(main: seq<Page>, log: seq<WalEntry>, count: nat)
    requires |main| <= count && forall i :: 0 <= i < |log| ==> log[i].page < count
    ensures |main| <= |ApplyLog(main, log)| <= count
  {
    if log != [] {
      var n := |log| - 1;
      assert forall i :: 0 <= i < n ==> log[..n][i] == log[i];
      assert log[n].page < count;
      ApplyLogSize(main, log[..n], count);
    }
  }

  /** Checkpointing a complete store, with or without the padding of a flush, yields a main file that
      is the view itself. */
  lemma CheckpointIsView(f: Files, count: nat, padded: bool)
    requires Complete(f, count) && count <= 0x1_0000_0000
    ensures ApplyLog(if padded then Padded(f.main, count) else f.main, f.log) == View(f, count)
  {
    var main := if padded then Padded(f.main, count) else f.main;
    ApplyLogSize(main, f.log, count);
    forall p: U32 | p < count
      ensures p < |ApplyLog(main, f.log)| && ApplyLog(main, f.log)[p] == View(f, count)[p]
    {
      assert Durable(f, p) == Some(View(f, count)[p]);
      ApplyLogIsDurable(main, f.log, p);
    }
    if count > 0 {
      var last: U32 := count - 1;
      assert Durable(f, last) == Some(View(f, count)[last]);
      assert last < |ApplyLog(main, f.log)|;
    }
  }

  lemma ViewOfMain(main: seq<Page>)
    requires |main| <= 0x1_0000_0000
    ensures Complete(Files(main, []), |main|) && View(Files(main, []), |main|) == main
  {
  }

  /** A flush changes no page, keeps the cache coherent and empties the log. */
  lemma FlushKeepsView(d: Disk, count: nat)
    requires Sound(d, count)
    ensures Sound(FlushDisk(d, count), count)
    ensures View(FlushDisk(d, count).files, count) == View(d.files, count)
    ensures FlushDisk(d, count).files.log == []
  {
    if d.files.log != [] {
      CheckpointIsView(d.files, count, true);
      ViewOfMain(View(d.files, count));
      forall i | 0 <= i < |d.cache| ensures Durable(FlushDisk(d, count).files, d.cache[i].page) == Some(d.cache[i].data) {
        var p := d.cache[i].page;
        LogOrMain(d.files, count, p);
        assert Durable(d.files, p) == Some(View(d.files, count)[p]);
      }
    }
  }

  /** Only pages below `count` are durable. */
  lemma LogOrMain(f: Files, count: nat, p: U32)
    requires Complete(f, count)
    ensures Durable(f, p).Some? <==> p < count
  {
    var i := LatestPage(f.log, p);
  }

  /** Opening after a stop at any point recovers the view, and the length of the file is the number of pages. */
  lemma OpenRecoversView(f: Files, count: nat)
    requires Complete(f, count) && count <= 0x1_0000_0000
    ensures OpenFiles(f) == Files(View(f, count), [])
    ensures Complete(OpenFiles(f), |OpenFiles(f).main|) && |OpenFiles(f).main| == count
    ensures View(OpenFiles(f), count) == View(f, count)
  {
    CheckpointIsView(f, count, false);
    ViewOfMain(View(f, count));
  }
}
