/**
 * The write-ahead log (chiffondb-core/src/storage/wal.rs) and the two storage backends
 * (chiffondb-core/src/storage/file.rs): a main file behind a log and a cache, and one byte vector.
 */
module Backends {
  import opened Types
  import opened Lru
  import opened Store
  import PageCache

  /** `offsets` leads to the latest entry of each logged page. */
  ghost predicate Offsets(entries: seq<WalEntry>, offsets: map<U32, nat>) {
    forall p: U32 {:trigger p in offsets} {:trigger Latest(entries, p)} ::
      && (p in offsets <==> Latest(entries, p).Some?)
      && (p in offsets ==> offsets[p] < |entries| && entries[offsets[p]].page == p
                           && Latest(entries, p) == Some(entries[offsets[p]].data))
  }

  lemma OffsetsAppend(entries: seq<WalEntry>, offsets: map<U32, nat>, e: WalEntry)
    requires Offsets(entries, offsets)
    ensures Offsets(entries + [e], offsets[e.page := |entries|])
  {
  }

  /** The log file, with an index from each page to its latest entry. */
  class Wal {
    var entries: seq<WalEntry>
    var offsets: map<U32, nat>

    ghost predicate Valid()
      reads this
    {
      Offsets(entries, offsets)
    }

    constructor (contents: seq<WalEntry>)
      ensures Valid() && entries == contents
    {
      entries, offsets := contents, map[];
      new;
      LoadIndex();
    }

    /** Rebuilds the index by scanning the entries in order. */
    method LoadIndex()
      modifies `offsets
      ensures Valid()
    {
      offsets := map[];
      var i := 0;
      while i < |entries|
        invariant 0 <= i <= |entries|
        invariant Offsets(entries[..i], offsets)
      {
        assert entries[..i+1] == entries[..i] + [entries[i]];
        OffsetsAppend(entries[..i], offsets, entries[i]);
        offsets := offsets[entries[i].page := i];
        i := i + 1;
      }
      assert entries[..i] == entries;
    }

    method ReadEntry(p: U32) returns (r: Option<Page>)
      requires Valid()
      ensures r == Latest(entries, p)
    {
      if p !in offsets {
        return None;
      }
      r := Some(entries[offsets[p]].data);
    }

    method WriteEntry(p: U32, data: Page)
      requires Valid()
      modifies this
      ensures Valid() && entries == old(entries) + [WalEntry(p, data)]
    {
      OffsetsAppend(entries, offsets, WalEntry(p, data));
      offsets := offsets[p := |entries|];
      entries := entries + [WalEntry(p, data)];
    }

    method IsEmpty() returns (b: bool)
      requires Valid()
      ensures b <==> entries == []
    {
      b := offsets == map[];
      if entries != [] {
        var p := entries[|entries|-1].page;
        assert Latest(entries, p).Some?;
        assert p in offsets;
      } else {
        assert forall p: U32 :: p in offsets <==> Latest(entries, p).Some?;
      }
    }

    /** Resizes the log file and rebuilds the index from what is left. */
    method TruncateTo(n: nat)
      modifies this
      ensures Valid() && entries == Truncated(old(entries), n)
    {
      entries := if n <= |entries| then entries[..n]
                 else entries + seq(n - |entries|, _ => WalEntry(0, ZERO_PAGE));
      LoadIndex();
    }

    /** Writes the latest entry of every logged page to the main file, in no particular order, and
        empties the log. The result is the main file after all the logged writes in order. */
    method Checkpoint(main: seq<Page>) returns (r: seq<Page>)
      requires Valid() && |main| <= 0x1_0000_0000
      modifies this
      ensures Valid() && entries == []
      ensures r == ApplyLog(main, old(entries)) && |r| <= 0x1_0000_0000
    {
      hide Merged, WriteAt, ApplyLog, Offsets, Latest;
      var log, index := entries, offsets;
      MergeNone(main, log);
      var pending := index.Keys;
      ghost var done: set<U32> := {};
      r := main;
      while pending != {}
        invariant pending + done == index.Keys && pending !! done
        invariant Merged(main, log, done, r)
        decreases |pending|
      {
        var p :| p in pending;
        EntryOf(log, index, p);
        MergeOne(main, log, done, r, p, log[index[p]].data);
        r := WriteAt(r, p, log[index[p]].data);
        pending, done := pending - {p}, done + {p};
      }
      MergedAll(main, log, index, r);
      entries, offsets := [], map[];
      OffsetsEmpty();
    }
  }

  lemma OffsetsEmpty()
    ensures Offsets([], map[])
  {
  }

  // ---- The order of a checkpoint does not matter ----

  /** `r` is the main file with the latest contents of the pages `done` written into it. */
  ghost predicate Merged(main: seq<Page>, log: seq<WalEntry>, done: set<U32>, r: seq<Page>) {
    && |main| <= |r| <= 0x1_0000_0000
    && (forall p :: p in done ==> p < |r| && Latest(log, p) == Some(r[p]))
    && (forall q: U32 {:trigger r[q]} :: q < |r| && q !in done ==> r[q] == if q < |main| then main[q] else ZERO_PAGE)
    && (|main| < |r| ==> |r| - 1 in done)
  }

  lemma EntryOf(log: seq<WalEntry>, index: map<U32, nat>, p: U32)
    requires Offsets(log, index) && p in index.Keys
    ensures index[p] < |log| && Latest(log, p) == Some(log[index[p]].data)
  {
    assert p in index;
  }

  lemma MergeNone(main: seq<Page>, log: seq<WalEntry>)
    requires |main| <= 0x1_0000_0000
    ensures Merged(main, log, {}, main)
  {
  }

  lemma MergeOne(main: seq<Page>, log: seq<WalEntry>, done: set<U32>, r: seq<Page>, p: U32, data: Page)
    requires Merged(main, log, done, r) && p !in done && Latest(log, p) == Some(data)
    ensures Merged(main, log, done + {p}, WriteAt(r, p, data))
  {
  }

  lemma {:induction false} AppliedIsMerged(main: seq<Page>, log: seq<WalEntry>, done: set<U32>)
    requires |main| <= 0x1_0000_0000
    requires forall p: U32 :: p in done <==> Latest(log, p).Some?
    ensures Merged(main, log, done, ApplyLog(main, log))
  {
    if log == [] {
      assert done == {};
    } else {
      var n := |log| - 1;
      var p, data := log[n].page, log[n].data;
      var before := if Latest(log[..n], p).Some? then done else done - {p};
      assert log == log[..n] + [WalEntry(p, data)];
      forall q: U32 ensures q in before <==> Latest(log[..n], q).Some?
        ensures q != p ==> Latest(log, q) == Latest(log[..n], q)
      {
        LatestAppend(log[..n], p, data, q);
      }
      AppliedIsMerged(main, log[..n], before);
      assert done == before + {p};
      MergedMore(main, log, log[..n], before, ApplyLog(main, log[..n]), p, data);
    }
  }

  lemma MergedMore(main: seq<Page>, log: seq<WalEntry>, log0: seq<WalEntry>, before: set<U32>, r: seq<Page>, p: U32, data: Page)
    requires Merged(main, log0, before, r) && Latest(log, p) == Some(data)
    requires forall q: U32 :: q != p ==> Latest(log, q) == Latest(log0, q)
    ensures Merged(main, log, before + {p}, WriteAt(r, p, data))
  {
    hide Latest;
  }

  lemma MergedAll(main: seq<Page>, log: seq<WalEntry>, index: map<U32, nat>, r: seq<Page>)
    requires Offsets(log, index) && Merged(main, log, index.Keys, r)
    ensures r == ApplyLog(main, log) && |r| <= 0x1_0000_0000
  {
    var done := index.Keys;
    forall p: U32 ensures p in done <==> Latest(log, p).Some? {
      assert p in index <==> Latest(log, p).Some?;
    }
    AppliedIsMerged(main, log, done);
    var s := ApplyLog(main, log);
    assert |r| == |s|;
    forall q: U32 | q < |r| ensures r[q] == s[q] {
      assert q in done ==> Latest(log, q) == Some(r[q]) && Latest(log, q) == Some(s[q]);
    }
  }

  // ---- The file backend ----

  class FileStore {
    var main: seq<Page>
    const wal: Wal
    const cache: PageCache.PageCache<Page>

    ghost predicate Valid()
      reads this, wal, cache
    {
      wal.Valid() && cache.Valid() && |main| <= 0x1_0000_0000
    }

    ghost function Disk(): Disk
      requires Valid()
      reads this, wal, cache
    {
      Store.Disk(Files(main, wal.entries), cache.Entries(), cache.capacity)
    }

    constructor (main: seq<Page>, wal: Wal, capacity: nat)
      requires |main| <= 0x1_0000_0000 && wal.Valid()
      ensures this.wal == wal && Valid() && fresh(cache)
      ensures Disk() == Store.Disk(Files(main, wal.entries), [], if capacity == 0 then 1 else capacity)
    {
      this.main := main;
      this.wal := wal;
      this.cache := new PageCache.PageCache<Page>(capacity);
    }

    /** Reads through the cache, the log and the main file; the page read is cached clean. */
    method ReadPage(p: U32) returns (r: Result<Page>)
      requires Valid()
      modifies cache
      ensures Valid() && (Disk(), r) == ReadDisk(old(Disk()), p)
    {
      hide PageCache.Linked, PageCache.Indexed, PageCache.FreeStack, Offsets;
      var cached := cache.Get(p);
      if cached.Some? {
        return Ok(cached.value);
      }
      var logged := wal.ReadEntry(p);
      var data;
      if logged.Some? {
        data := logged.value;
      } else if p < |main| {
        data := main[p];
      } else {
        return Err(IoError);
      }
      var victim := cache.PutPage(p, data, false);
      r := Ok(data);
    }

    /** Appends to the log and caches the page. Appending a page does the same at the new page number. */
    method WritePage(p: U32, data: Page)
      requires Valid()
      modifies wal, cache
      ensures Valid() && Disk() == WriteDisk(old(Disk()), p, data)
    {
      hide PageCache.Linked, PageCache.Indexed, PageCache.FreeStack, Offsets;
      wal.WriteEntry(p, data);
      var victim := cache.PutPage(p, data, false);
    }

    /** Extends the main file for the pages that exist only in the log, then checkpoints. */
    method Flush(count: nat)
      requires Valid() && count <= 0x1_0000_0000
      modifies this, wal
      ensures Valid() && Disk() == FlushDisk(old(Disk()), count)
    {
      hide PageCache.Linked, PageCache.Indexed, PageCache.FreeStack;
      var empty := wal.IsEmpty();
      if empty {
        return;
      }
      ghost var main0 := main;
      var filePages := |main|;
      if count > filePages {
        for i := filePages to count
          modifies `main
          invariant |main| == i && main0 <= main
          invariant forall q :: |main0| <= q < i ==> main[q] == ZERO_PAGE
        {
          main := main + [ZERO_PAGE];
        }
      }
      assert main == Padded(main0, count);
      main := wal.Checkpoint(main);
    }

    /** Discards the cache, which may hold writes made since, and truncates the log. */
    method Restore(walLen: nat)
      requires Valid()
      modifies wal, cache
      ensures Valid() && Disk() == RestoreDisk(old(Disk()), walLen)
    {
      cache.Clear();
      wal.TruncateTo(walLen);
    }
  }

  // ---- The memory backend ----

  class MemoryStore {
    var data: seq<Byte>

    ghost predicate Valid()
      reads this
    {
      |data| % PAGE_SIZE == 0
    }

    ghost function Pages(): (pages: seq<Page>)
      requires Valid()
      reads this
    {
      PagesOf(data)
    }

    constructor (page: Page)
      ensures Valid() && Pages() == [page]
    {
      data := page;
      new;
      assert data[0..PAGE_SIZE] == page;
    }

    method ReadPage(p: U32) returns (r: Result<Page>)
      requires Valid()
      ensures r == if p < |Pages()| then Ok(Pages()[p]) else Err(StorageCorrupted(p))
    {
      var offset := p * PAGE_SIZE;
      if offset + PAGE_SIZE > |data| {
        return Err(StorageCorrupted(p));
      }
      r := Ok(data[offset..offset+PAGE_SIZE]);
    }

    method WritePage(p: U32, page: Page) returns (r: Result<()>)
      requires Valid()
      modifies this
      ensures Valid()
      ensures if p < |old(Pages())| then r == Ok(()) && Pages() == old(Pages())[p := page]
              else r == Err(StorageCorrupted(p)) && Pages() == old(Pages())
    {
      var offset := p * PAGE_SIZE;
      if offset + PAGE_SIZE > |data| {
        return Err(StorageCorrupted(p));
      }
      PagesUpdate(data, p, page);
      data := data[..offset] + page + data[offset+PAGE_SIZE..];
      r := Ok(());
    }

    method AppendPage(page: Page)
      requires Valid()
      modifies this
      ensures Valid() && Pages() == old(Pages()) + [page]
    {
      PagesAppend(data, page);
      data := data + page;
    }
  }

  ghost function PagesOf(data: seq<Byte>): (pages: seq<Page>)
    requires |data| % PAGE_SIZE == 0
    ensures |pages| == |data| / PAGE_SIZE
  {
    seq(|data| / PAGE_SIZE, i requires 0 <= i < |data| / PAGE_SIZE => data[i*PAGE_SIZE..(i+1)*PAGE_SIZE])
  }

  lemma PagesAppend(data: seq<Byte>, page: Page)
    requires |data| % PAGE_SIZE == 0
    ensures PagesOf(data + page) == PagesOf(data) + [page]
  {
    var n := |data| / PAGE_SIZE;
    forall i | 0 <= i < n + 1 ensures PagesOf(data + page)[i] == (PagesOf(data) + [page])[i] {
      if i < n {
        SliceOfFirst(data, page, i * PAGE_SIZE, (i + 1) * PAGE_SIZE);
      } else {
        SliceOfSecond(data, page, n * PAGE_SIZE, (n + 1) * PAGE_SIZE);
      }
    }
  }

  lemma SliceOfFirst(a: seq<Byte>, b: seq<Byte>, from: nat, to: nat)
    requires from <= to <= |a|
    ensures (a + b)[from..to] == a[from..to]
  {
    assert forall j :: 0 <= j < to - from ==> (a + b)[from..to][j] == a[from..to][j];
  }

  lemma SliceOfSecond(a: seq<Byte>, b: seq<Byte>, from: nat, to: nat)
    requires |a| <= from <= to <= |a| + |b|
    ensures (a + b)[from..to] == b[from-|a|..to-|a|]
  {
    assert forall j :: 0 <= j < to - from ==> (a + b)[from..to][j] == b[from-|a|..to-|a|][j];
  }

  lemma SliceOfSlice(a: seq<Byte>, skip: nat, end: nat, from: nat, to: nat)
    requires skip <= end <= |a| && from <= to <= end - skip
    ensures a[skip..end][from..to] == a[skip+from..skip+to]
  {
    assert forall j :: 0 <= j < to - from ==> a[skip..end][from..to][j] == a[skip+from..skip+to][j];
  }

  lemma PagesUpdate(data: seq<Byte>, p: nat, page: Page)
    requires |data| % PAGE_SIZE == 0 && (p + 1) * PAGE_SIZE <= |data|
    ensures var data2 := data[..p*PAGE_SIZE] + page + data[(p+1)*PAGE_SIZE..];
      |data2| == |data| && p < |data| / PAGE_SIZE && PagesOf(data2) == PagesOf(data)[p := page]
  {
    var low, high := data[..p*PAGE_SIZE], data[(p+1)*PAGE_SIZE..];
    var data2 := low + page + high;
    forall i | 0 <= i < |data| / PAGE_SIZE ensures PagesOf(data2)[i] == PagesOf(data)[p := page][i] {
      var from := i * PAGE_SIZE;
      var to := from + PAGE_SIZE;
      if i < p {
        assert to <= p * PAGE_SIZE;
        SliceOfFirst(low + page, high, from, to);
        SliceOfFirst(low, page, from, to);
        SliceOfSlice(data, 0, p * PAGE_SIZE, from, to);
      } else if i > p {
        var skip := (p + 1) * PAGE_SIZE;
        assert from >= skip && |low + page| == skip;
        SliceOfSecond(low + page, high, from, to);
        SliceOfSlice(data, skip, |data|, from - skip, to - skip);
      } else {
        SliceOfFirst(low + page, high, from, to);
        SliceOfSecond(low, page, from, to);
      }
    }
  }
}
