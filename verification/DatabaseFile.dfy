/**
 * The database file (chiffondb-core/src/storage/file.rs) and the page directories it keeps
 * (chiffondb-core/src/storage/page_directory.rs), over either backend.
 */
module DatabaseFile {
  import opened Types
  import opened Header
  import opened Store
  import opened Backends
  import opened Layout
  import Directory
  import PageCache
  import Lru

  datatype StorageBackend = FileBackend(store: FileStore) | MemoryBackend(memory: MemoryStore)

  /** What a rollback needs: the length of the log, the number of pages and the header, or a copy of
      the memory backend's bytes. */
  datatype FileSnapshot = FileSnapshot(walLen: nat, count: nat, header: FileHeader, memory: Option<seq<Byte>>)

  class DatabaseFile {
    const backend: StorageBackend
    var header: FileHeader
    var logicalPageCount: nat

    /** The owners, directories and free list of the current pages. */
    ghost var layout: Layout

    ghost function Repr(): set<object> {
      {this} + Storage()
    }

    ghost function Storage(): set<object> {
      match backend
      case FileBackend(store) => {store, store.wal, store.cache}
      case MemoryBackend(memory) => {memory}
    }

    ghost predicate Valid()
      reads this, Repr()
    {
      && logicalPageCount <= 0xFFFF_FFFF
      && match backend
         case FileBackend(store) => store.Valid() && Sound(store.Disk(), logicalPageCount)
         case MemoryBackend(memory) => memory.Valid() && |memory.Pages()| == logicalPageCount
    }

    /** The pages as readers see them, the same for both backends. */
    ghost function Pages(): (pages: seq<Page>)
      requires Valid()
      reads this, Repr()
      ensures |pages| == logicalPageCount
    {
      match backend
      case FileBackend(store) => View(store.Disk().files, logicalPageCount)
      case MemoryBackend(memory) => memory.Pages()
    }

    /** `snap` stands for the given pages: restoring it would bring them back. */
    ghost predicate Remembers(snap: FileSnapshot, pages: seq<Page>)
      requires Valid()
      reads this, Repr()
    {
      && snap.count == |pages| <= 0xFFFF_FFFF
      && match backend
         case FileBackend(store) => RemembersFiles(store.Disk().files, snap, pages)
         case MemoryBackend(memory) =>
           snap.memory.Some? && |snap.memory.value| % PAGE_SIZE == 0 && PagesOf(snap.memory.value) == pages
    }

    /** Creates a database file holding the header page, with a cache of `capacity` pages. */
    constructor Create(capacity: nat)
      ensures Consistent() && header == NEW_HEADER && Pages() == [Serialize(NEW_HEADER)]
      ensures fresh(Repr())
    {
      hide Serialize, LayoutOk;
      var wal := new Wal([]);
      var store := new FileStore([Serialize(NEW_HEADER)], wal, capacity);
      backend, header, logicalPageCount := FileBackend(store), NEW_HEADER, 1;
      layout := EmptyLayout();
      new;
      ViewOfMain([Serialize(NEW_HEADER)]);
      NewLayoutOk();
    }

    constructor CreateInMemory()
      ensures Consistent() && header == NEW_HEADER && Pages() == [Serialize(NEW_HEADER)]
      ensures fresh(Repr())
    {
      var memory := new MemoryStore(Serialize(NEW_HEADER));
      backend, header, logicalPageCount := MemoryBackend(memory), NEW_HEADER, 1;
      layout := EmptyLayout();
      new;
      NewLayoutOk();
    }

    constructor Opened(main: seq<Page>, wal: Wal, capacity: nat, header: FileHeader, ghost layout: Layout)
      requires |main| <= 0xFFFF_FFFF && wal.Valid() && wal.entries == []
      ensures Valid() && Pages() == main && this.header == header && this.layout == layout
      ensures backend.FileBackend? && backend.store.wal == wal && fresh(Repr() - {wal})
    {
      var store := new FileStore(main, wal, capacity);
      this.backend, this.header, this.logicalPageCount := FileBackend(store), header, |main|;
      this.layout := layout;
      new;
      ViewOfMain(main);
    }

    /** Opens a main file and the log found beside it: the log is checkpointed before the header is read,
        and the pages are counted from the length of the file. */
    static method Open(main: seq<Page>, log: seq<WalEntry>, capacity: nat, ghost layout: Layout)
      returns (r: Result<DatabaseFile>)
      requires |main| <= 0x1_0000_0000 && |ApplyLog(main, log)| <= 0xFFFF_FFFF
      ensures r.Ok? <==> ApplyLog(main, log) != [] && Deserialize(ApplyLog(main, log)[0]).Ok?
      ensures r.Ok? ==>
        && fresh(r.value.Repr()) && r.value.Valid()
        && r.value.Pages() == ApplyLog(main, log)
        && Deserialize(r.value.Pages()[0]) == Ok(r.value.header)
        && r.value.layout == layout
    {
      hide PageCache.Linked, PageCache.Indexed, PageCache.FreeStack, Offsets, ApplyLog, Deserialize, View, Complete, Coherent, Latest, Durable, Sound;
      var wal := new Wal(log);
      var pages := main;
      NothingToApply(main);
      var empty := wal.IsEmpty();
      if !empty {
        pages := wal.Checkpoint(main);
      }
      if |pages| == 0 {
        return Err(IoError);
      }
      var header: FileHeader :- Deserialize(pages[0]);
      var file := new DatabaseFile.Opened(pages, wal, capacity, header, layout);
      r := Ok(file);
    }

    // ---- Pages ----

    method ReadPage(p: U32) returns (r: Result<Page>)
      requires Valid()
      modifies Storage()
      ensures Valid() && Pages() == old(Pages())
      ensures if p < |Pages()| then r == Ok(Pages()[p]) else r.Err?
      ensures KeepsSnapshots()
    {
      hide PageCache.Linked, PageCache.Indexed, PageCache.FreeStack, Offsets, Latest, Durable, View, Complete, Coherent, RemembersFiles, PagesOf;
      match backend
      case FileBackend(store) =>
        ghost var d := store.Disk();
        ReadReturnsDurable(d, p);
        LogOrMain(d.files, logicalPageCount, p);
        r := store.ReadPage(p);
      case MemoryBackend(memory) =>
        r := memory.ReadPage(p);
    }

    /** Overwrites an existing page. The memory backend refuses a page that does not exist; the file
        backend takes it into log and cache, and the pages are no longer those up to the count. */
    method WritePage(p: U32, data: Page) returns (r: Result<()>)
      requires Valid()
      modifies Storage()
      ensures p < |old(Pages())| ==> Valid() && KeepsSnapshots() && r == Ok(()) && Pages() == old(Pages())[p := data]
      ensures |old(Pages())| <= p && backend.MemoryBackend? ==> Valid() && KeepsSnapshots() && r.Err? && Pages() == old(Pages())
      ensures backend.FileBackend? ==>
        r == Ok(()) && backend.store.Valid() && backend.store.Disk() == WriteDisk(old(backend.store.Disk()), p, data)
    {
      hide PageCache.Linked, PageCache.Indexed, PageCache.FreeStack, Offsets, Latest, Durable, View, Complete, Coherent, RemembersFiles, PagesOf;
      match backend
      case FileBackend(store) =>
        ghost var d := store.Disk();
        if p < logicalPageCount {
          WriteUpdatesView(d, logicalPageCount, p, data);
          LogPrefixes(d.files, p, data);
        }
        store.WritePage(p, data);
        r := Ok(());
      case MemoryBackend(memory) =>
        r := memory.WritePage(p, data);
    }

    /** Appends a page behind the last one and returns its number. */
    method AppendPage(data: Page) returns (r: Result<U32>)
      requires Valid() && |Pages()| < 0xFFFF_FFFF
      modifies Storage(), `logicalPageCount
      ensures Valid() && r == Ok(|old(Pages())|) && Pages() == old(Pages()) + [data]
      ensures KeepsSnapshots()
    {
      hide PageCache.Linked, PageCache.Indexed, PageCache.FreeStack, Offsets, Latest, Durable, View, Complete, Coherent, RemembersFiles, PagesOf;
      var p: U32 := logicalPageCount;
      match backend
      case FileBackend(store) =>
        ghost var d := store.Disk();
        WriteUpdatesView(d, logicalPageCount, p, data);
        LogPrefixes(d.files, p, data);
        store.WritePage(p, data);
        logicalPageCount := logicalPageCount + 1;
        r := Ok(p);
      case MemoryBackend(memory) =>
        memory.AppendPage(data);
        logicalPageCount := logicalPageCount + 1;
        r := Ok(p);
    }

    method Flush()
      requires Valid()
      modifies Storage()
      ensures Valid() && Pages() == old(Pages())
      ensures backend.FileBackend? ==> backend.store.wal.entries == [] && backend.store.main == Pages()
    {
      hide PageCache.Linked, PageCache.Indexed, PageCache.FreeStack, Offsets, Latest, Durable, View, Complete, Coherent, RemembersFiles, PagesOf;
      match backend
      case FileBackend(store) =>
        ghost var d := store.Disk();
        FlushKeepsView(d, logicalPageCount);
        FlushedMain(d, logicalPageCount);
        store.Flush(logicalPageCount);
      case MemoryBackend(memory) =>
    }

    /** Writes the header to page 0. */
    method WriteHeader() returns (r: Result<()>)
      requires Valid() && 1 <= |Pages()|
      modifies Storage()
      ensures Valid() && r == Ok(()) && Pages() == old(Pages())[0 := Serialize(header)]
      ensures KeepsSnapshots()
    {
      hide Valid, Pages, Remembers, Serialize;
      r := WritePage(0, Serialize(header));
    }

    method TakeSnapshot() returns (snap: FileSnapshot)
      requires Valid()
      ensures snap.header == header && Remembers(snap, Pages())
    {
      match backend
      case FileBackend(store) =>
        assert store.wal.entries[..|store.wal.entries|] == store.wal.entries;
        snap := FileSnapshot(|store.wal.entries|, logicalPageCount, header, None);
      case MemoryBackend(memory) =>
        snap := FileSnapshot(0, logicalPageCount, header, Some(memory.data));
    }

    /** Brings back the pages and the header that the snapshot stands for, and keeps the older snapshots. */
    method Restore(snap: FileSnapshot, ghost pages: seq<Page>, ghost lay: Layout)
      requires Valid() && Remembers(snap, pages)
      modifies Repr()
      ensures Valid() && Pages() == pages && header == snap.header && layout == lay
      ensures forall s: FileSnapshot, ps: seq<Page> {:trigger Remembers(s, ps)} ::
        s.walLen <= snap.walLen && old(Remembers(s, ps)) ==> Remembers(s, ps)
    {
      hide PageCache.Linked, PageCache.Indexed, PageCache.FreeStack, Offsets, Latest, Durable, View, Complete, PagesOf;
      logicalPageCount, header, layout := snap.count, snap.header, lay;
      match backend
      case FileBackend(store) =>
        ghost var d := store.Disk();
        store.Restore(snap.walLen);
        OlderPrefixes(d.files, snap.walLen);
      case MemoryBackend(memory) =>
        if snap.memory.Some? {
          memory.data := snap.memory.value;
        }
    }

    // ---- Logical pages ----

    ghost function Current(): State
      requires Valid()
      reads this, Repr()
    {
      State(Pages(), header, layout)
    }

    /** The directory of a kind, rebuilt from the header. */
    method DirectoryOf(kind: Kind) returns (dir: PageDirectory)
      requires RootOf(header, kind) == NO_DIR_ROOT ==> LenOf(header, kind) == 0 && layout.Of(kind).chain == []
      requires Valid()
      ensures Valid() && Pages() == old(Pages()) && KeepsSnapshots()
      ensures fresh(dir) && dir.root == RootOf(header, kind) && dir.len == LenOf(header, kind)
      ensures dir.chain == layout.Of(kind).chain
    {
      hide PageCache.Linked, PageCache.Indexed, PageCache.FreeStack, Offsets, Latest, Durable, View, Complete, Coherent, RemembersFiles;
      var root := RootOf(header, kind);
      if root == NO_DIR_ROOT {
        dir := new PageDirectory.WithRoot(Directory.UNMAPPED, 0, []);
      } else {
        dir := new PageDirectory.WithRoot(root, LenOf(header, kind), layout.Of(kind).chain);
      }
    }

    /** Appends a page, maps the next logical page of the kind to it and stores the directory in the header. */
    method AllocMappedPage(kind: Kind, data: Page) returns (r: Result<nat>)
      requires Consistent() && HasRoom(Current())
      modifies Repr()
      ensures Consistent() && KeepsSnapshots()
      ensures r == Ok(LenOf(old(header), kind))
      ensures Preserves(old(Current()), Current()) && SparesOther(old(Current()), Current())
      ensures layout.Of(kind).ids == old(layout.Of(kind).ids) + [|old(Pages())|]
      ensures |old(Pages())| < |Pages()| && Pages()[|old(Pages())|] == data
      ensures layout.free == old(layout.free) && header.propertyFreeListHead == old(header.propertyFreeListHead)
      ensures forall k :: k != kind ==> layout.Of(k) == old(layout.Of(k))
    {
      hide Valid, Pages, Remembers, LayoutOk, Directory.Maps, Directory.Push, FreeList;
      ghost var s := Current();
      PushIsDefined(s, kind);
      ChainFrame(s, kind, data);
      var appended := AppendPage(data);
      var dir := DirectoryOf(kind);
      var pushed := dir.Push(this, appended.value, layout.Of(kind).ids);
      ghost var r1 := Directory.Pushed(Pages(), dir.root, dir.chain);
      PushGrows(s, kind, data, r1);
      ghost var dir0 := layout.Of(kind);
      ghost var lay := layout.With(kind, Dir(dir.chain, dir0.ids + [appended.value])).(
                         owners := OwnersAfter(layout.owners, kind, dir0, dir.chain));
      ghost var t := State(Pages(), WithDir(header, kind, dir.root, dir.len), lay);
      PushedGrew(s, t, kind, data, r1);
      AllocationPreserves(s, t, kind, data, Serialize(t.header));
      AllocationSpares(s, t, kind, data, Serialize(t.header));
      DirChanged(s, kind, dir.root, dir.len, Dir(dir.chain, dir0.ids + [appended.value]), lay.owners);
      StoreHeader(WithDir(header, kind, dir.root, dir.len), lay);
      r := pushed;
    }

    /** Changes the header in memory and writes it to page 0. */
    method StoreHeader(h: FileHeader, ghost lay: Layout)
      requires Valid() && 1 <= |Pages()|
      modifies Repr()
      ensures Valid() && KeepsSnapshots()
      ensures header == h && layout == lay && Pages() == old(Pages())[0 := Serialize(h)]
    {
      hide PageCache.Linked, PageCache.Indexed, PageCache.FreeStack, Offsets, Latest, Durable, View, Complete, Coherent, RemembersFiles;
      header, layout := h, lay;
      var _ := WriteHeader();
    }

    /** The physical page behind a logical one. */
    method ResolvePage(kind: Kind, logical: nat) returns (r: Result<U32>)
      requires Mapped()
      modifies Storage()
      ensures Mapped() && KeepsSnapshots() && Pages() == old(Pages())
      ensures var ids := layout.Of(kind).ids;
        r == if logical < |ids| then Ok(ids[logical]) else Err(StorageCorrupted(logical))
    {
      hide Valid, Pages, Remembers, DirsOk, Directory.Maps, Directory.Resolve, FreeList;
      ResolveLogical(Current(), kind, logical);
      var dir := DirectoryOf(kind);
      var found := dir.Resolve(this, logical);
      r := match found.value
           case Some(physical) => Ok(physical)
           case None => Err(StorageCorrupted(logical));
    }

    method ReadLogicalPage(kind: Kind, logical: nat) returns (r: Result<Page>)
      requires Mapped()
      modifies Storage()
      ensures Mapped() && KeepsSnapshots() && Pages() == old(Pages())
      ensures var ids := layout.Of(kind).ids;
        if logical < |ids| then ids[logical] < |Pages()| && r == Ok(Pages()[ids[logical]])
        else r == Err(StorageCorrupted(logical))
    {
      hide Valid, Pages, Remembers, DirsOk, Directory.Maps, FreeList;
      ResolveLogical(Current(), kind, logical);
      var physical: U32 :- ResolvePage(kind, logical);
      r := ReadPage(physical);
    }

    /** Overwrites a logical page; the free list is kept unless the page stands on it. */
    method WriteLogicalPage(kind: Kind, logical: nat, data: Page) returns (r: Result<()>)
      requires Mapped()
      modifies Storage()
      ensures Mapped() && KeepsSnapshots()
      ensures old(Consistent()) && (kind == Property ==> logical !in layout.free) ==> Consistent()
      ensures if logical < |layout.Of(kind).ids|
              then r == Ok(()) && PreservesOthers(old(Current()), Current(), kind, logical, data)
              else r == Err(StorageCorrupted(logical)) && Pages() == old(Pages())
      ensures |Pages()| == |old(Pages())| && SparesOther(old(Current()), Current())
      ensures logical < |layout.Of(kind).ids| ==>
        layout.Of(kind).ids[logical] < |Pages()| && Pages() == old(Pages())[layout.Of(kind).ids[logical] := data]
    {
      hide Valid, Pages, Remembers, DirsOk, LayoutOk, PreservesOthers, SparesOther;
      SparesItself(Current());
      var physical: U32 :- ResolvePage(kind, logical);
      DirsWritten(Current(), kind, logical, data);
      if LayoutOk(Pages(), header, layout) && (kind == Property ==> logical !in layout.free) {
        DataWritten(Current(), kind, logical, data);
      }
      r := WritePage(physical, data);
    }

    // ---- The property free list ----

    /** Pushes a property page on the free list: the page takes the free marker and the link to the head
        before it. There is a list afterwards exactly when the page was live. */
    method FreePropertyPage(logical: nat) returns (r: Result<()>)
      requires Mapped()
      modifies Repr()
      ensures Mapped() && KeepsSnapshots()
      ensures old(Consistent()) && logical < |old(layout.property.ids)| ==>
        && (Consistent() <==> logical !in old(layout.free))
        && (HasLayout(Pages(), header, old(layout)) <==> logical !in old(layout.free))
      ensures if logical < |old(layout.property.ids)|
              then && r == Ok(()) && layout == old(layout).(free := [logical] + old(layout.free))
                   && PreservesOthers(old(Current()), Current(), Property, logical,
                                      FreeImage(old(header.propertyFreeListHead)))
              else r == Err(StorageCorrupted(logical)) && Current() == old(Current())
      ensures logical !in old(layout.free) ==>
        Space(|layout.property.ids|, layout.free)
        == SpaceStep(Space(|old(layout.property.ids)|, old(layout.free)), FreeOp(logical))
      ensures SparesOther(old(Current()), Current())
    {
      hide Valid, Pages, Remembers, DirsOk, LayoutOk, FreeList, PreservesOthers, HasLayout;
      ghost var s := Current();
      var image := FreeImage(header.propertyFreeListHead);
      r := WriteLogicalPage(Property, logical, image);
      if r.Ok? {
        LogicalIsU32(s, logical);
        ghost var t := State(Pages(), header.(propertyFreeListHead := logical), layout.(free := [logical] + layout.free));
        HeadWritten(Current(), logical, t.layout.free);
        OthersThenHeader(s, Current(), t, Property, logical, image);
        HeaderSpares(Current(), Serialize(t.header));
        if LayoutOk(s.pages, s.header, s.layout) {
          FreedLayouts(s, logical);
        }
        StoreHeader(header.(propertyFreeListHead := logical), layout.(free := [logical] + layout.free));
      }
    }

    /** Pops the head of the free list; the page stays mapped, for the caller to overwrite. A head without
        the free marker means a corrupt list: it counts as empty, and nothing is reused. */
    method PopPropertyFreePage() returns (r: Result<Option<nat>>)
      requires Mapped()
      modifies Repr()
      ensures Mapped() && KeepsSnapshots()
      ensures var head, ids := old(header.propertyFreeListHead), layout.property.ids;
        if head == NO_FREE_PAGE then r == Ok(None) && Current() == old(Current())
        else if |ids| <= head then r == Err(StorageCorrupted(head)) && Current() == old(Current())
        else
          && ids[head] < |old(Pages())|
          && var image := old(Pages())[ids[head]];
             && r == (if IsMarked(image) then Ok(Some(head)) else Ok(None))
             && header == old(header).(propertyFreeListHead := if IsMarked(image) then NextFree(image) else NO_FREE_PAGE)
             && layout == old(layout).(free := if IsMarked(image) then Behind(old(layout.free)) else [])
             && Pages() == old(Pages())[0 := Serialize(header)]
      ensures layout.property == old(layout.property)
    {
      hide Valid, Pages, Remembers, DirsOk;
      if header.propertyFreeListHead == NO_FREE_PAGE {
        return Ok(None);
      }
      var head := header.propertyFreeListHead;
      var page: Page :- ReadLogicalPage(Property, head);
      if !IsMarked(page) {
        HeadWritten(Current(), NO_FREE_PAGE, []);
        StoreHeader(header.(propertyFreeListHead := NO_FREE_PAGE), layout.(free := []));
        return Ok(None);
      }
      var next := NextFree(page);
      HeadWritten(Current(), next, Behind(layout.free));
      StoreHeader(header.(propertyFreeListHead := next), layout.(free := Behind(layout.free)));
      r := Ok(Some(head));
    }

    /** Allocates a property page: the last page freed is reused in place, and only when none is left a
        page is appended. No live page is returned or altered. */
    method AllocPropertyPage(data: Page) returns (r: Result<nat>)
      requires Consistent() && HasRoom(Current())
      modifies Repr()
      ensures Consistent() && KeepsSnapshots() && r.Ok?
      ensures old(!Live(layout, r.value)) && Live(layout, r.value)
      ensures PreservesOthers(old(Current()), Current(), Property, r.value, data)
      ensures Space(|layout.property.ids|, layout.free)
              == SpaceStep(Space(|old(layout.property.ids)|, old(layout.free)), AllocOp)
      ensures r.value == if old(layout.free) == [] then |old(layout.property.ids)| else old(layout.free)[0]
      ensures old(layout.free) != [] ==> |Pages()| == |old(Pages())|
      ensures SparesOther(old(Current()), Current())
    {
      hide Valid, Pages, Remembers, DirsOk, FreeList;
      ghost var s := Current();
      HeadOfList(s);
      PushIsDefined(s, Property);
      if layout.free != [] {
        PoppedKeepsLayout(s, data);
      }
      var popped := PopPropertyFreePage();
      if popped.value.Some? {
        ghost var t := State(s.pages, header, layout);
        HeaderPreserves(s, t);
        HeaderSpares(s, Serialize(header));
        ghost var s1 := Current();
        var logical := popped.value.value;
        var _ := WriteLogicalPage(Property, logical, data);
        PreservesThenOthers(s, s1, Current(), Property, logical, data);
        return Ok(logical);
      }
      r := AllocMappedPage(Property, data);
      PreservesAndMaps(s, Current(), Property, data);
    }

    /** The directories hold, and page 0 is the header; the free list may be corrupt. */
    ghost predicate Mapped()
      reads this, Repr()
    {
      Valid() && DirsOk(Pages(), header, layout) && Pages()[0] == Serialize(header)
    }

    /** Every snapshot that could be restored before still can, with the same outcome. */
    twostate predicate KeepsSnapshots()
      requires old(Valid()) && Valid()
      reads this, Repr()
    {
      forall s: FileSnapshot, ps: seq<Page> {:trigger Remembers(s, ps)} :: old(Remembers(s, ps)) ==> Remembers(s, ps)
    }

    /** The layout holds, and page 0 is the header. */
    ghost predicate Consistent()
      reads this, Repr()
    {
      Valid() && LayoutOk(Pages(), header, layout) && Pages()[0] == Serialize(header)
    }
  }

  /** A directory as its callers hold it: the root and the mapped length, restored from the header. */
  class PageDirectory {
    var root: U32
    var len: nat

    /** The directory pages behind the root. */
    ghost var chain: seq<U32>

    constructor WithRoot(root: U32, len: nat, ghost chain: seq<U32>)
      ensures this.root == root && this.len == len && this.chain == chain
    {
      this.root, this.len, this.chain := root, len, chain;
    }

    /** The physical page behind a logical one, as the walk over the chain finds it. */
    method Resolve(file: DatabaseFile, logical: nat) returns (r: Result<Option<U32>>)
      requires file.Valid() && this !in file.Repr()
      modifies file.Storage()
      ensures file.Valid() && file.Pages() == old(file.Pages())
      ensures var spec := Directory.Resolve(file.Pages(), root, len, logical);
        if spec.Ok? then r == spec else r.Err?
      ensures file.KeepsSnapshots()
    {
      hide DatabaseFile.Valid, DatabaseFile.Pages, DatabaseFile.Remembers;
      if logical >= len {
        return Ok(None);
      }
      var dirIndex, slot := Directory.PageOf(logical), Directory.SlotOf(logical);
      var found: Option<U32> :- DirPagePid(file, dirIndex);
      if found.None? {
        return Ok(None);
      }
      var page: Page :- file.ReadPage(found.value);
      var physical := Directory.ReadEntry(page, slot);
      r := Ok(if physical == Directory.UNMAPPED then None else Some(physical));
    }

    method DirPagePid(file: DatabaseFile, dirIndex: nat) returns (r: Result<Option<U32>>)
      requires file.Valid() && this !in file.Repr()
      modifies file.Storage()
      ensures file.Valid() && file.Pages() == old(file.Pages())
      ensures var spec := Directory.NthPage(file.Pages(), root, dirIndex);
        if spec.Ok? then r == spec else r.Err?
      ensures file.KeepsSnapshots()
    {
      hide DatabaseFile.Valid, DatabaseFile.Pages, DatabaseFile.Remembers;
      if root == Directory.UNMAPPED {
        return Ok(None);
      }
      var pid := root;
      for i := 0 to dirIndex
        invariant file.Valid() && file.Pages() == old(file.Pages())
        invariant Directory.NthPage(file.Pages(), root, i) == Ok(Some(pid))
        invariant file.KeepsSnapshots()
      {
        Directory.WalkStops(file.Pages(), root, i, dirIndex);
        var page: Page :- file.ReadPage(pid);
        var next := Directory.ReadLink(page);
        if next == Directory.UNMAPPED {
          return Ok(None);
        }
        pid := next;
      }
      r := Ok(Some(pid));
    }

    /** Returns the directory page with room for the next entry, appending a blank page and linking it
        when the chain is full. */
    method EnsureDirPage(file: DatabaseFile, ghost ids: seq<U32>) returns (r: Result<U32>)
      requires file.Valid() && this !in file.Repr()
      requires Directory.Maps(file.Pages(), root, len, chain, ids)
      requires Directory.Pushable(file.Pages(), len, chain)
      modifies file.Storage(), file`logicalPageCount, `root, `chain
      ensures file.Valid() && file.KeepsSnapshots()
      ensures old(Directory.WithRoom(file.Pages(), root, len, chain)) == Directory.Pushed(file.Pages(), root, chain)
      ensures chain != [] && r == Ok(chain[|chain|-1])
    {
      hide DatabaseFile.Valid, DatabaseFile.Pages, DatabaseFile.Remembers, Directory.IsChain, Directory.EntryAt;
      var dirIndex := Directory.PageOf(len);
      Directory.RoomMaps(file.Pages(), root, len, chain, ids);
      Directory.LastIndex(len, |chain|);
      Directory.WalkEnds(file.Pages(), root, chain);
      if root == Directory.UNMAPPED {
        var appended := AppendBlankDirPage(file);
        root := appended.value;
        chain := [root];
        assert file.Pages() == old(Directory.Extended(file.Pages(), chain, Directory.BLANK));
        return Ok(root);
      }
      var pid := root;
      ghost var pages, links := file.Pages(), chain;
      for i := 0 to dirIndex
        invariant file.Valid() && file.KeepsSnapshots()
        invariant if chain == links then file.Pages() == pages && i < |links| && pid == links[i]
                  else i == dirIndex == |links| && pid == |pages| < Directory.UNMAPPED
                       && chain == links + [pid] && file.Pages() == Directory.Extended(pages, links, Directory.BLANK)
        invariant root == old(root)
      {
        Directory.LinkOf(pages, root, links, i);
        var read := file.ReadPage(pid);
        var page := read.value;
        var next := Directory.ReadLink(page);
        if next != Directory.UNMAPPED {
          pid := next;
        } else {
          var appended := AppendBlankDirPage(file);
          page := Directory.WriteLink(page, appended.value);
          var _ := file.WritePage(pid, page);
          chain := chain + [appended.value];
          pid := appended.value;
        }
      }
      r := Ok(pid);
    }

    /** Appends a directory page without a link and with every entry unmapped. */
    method AppendBlankDirPage(file: DatabaseFile) returns (r: Result<U32>)
      requires file.Valid() && this !in file.Repr() && |file.Pages()| < 0xFFFF_FFFF
      modifies file.Storage(), file`logicalPageCount
      ensures file.Valid() && r == Ok(|old(file.Pages())|)
      ensures file.Pages() == old(file.Pages()) + [Directory.BLANK]
      ensures file.KeepsSnapshots()
    {
      hide DatabaseFile.Valid, DatabaseFile.Pages, DatabaseFile.Remembers;
      var page := Directory.WriteLink(ZERO_PAGE, Directory.UNMAPPED);
      for slot := 0 to Directory.ENTRIES_PER_DIR_PAGE
        invariant forall k :: 0 <= k < Directory.EntryOffset(slot) ==> page[k] == 0xFF
      {
        page := Directory.WriteEntry(page, slot, Directory.UNMAPPED);
      }
      assert page == Directory.BLANK;
      r := file.AppendPage(page);
    }

    /** Maps the next logical page to `physical`. The id that means "no entry" is refused. */
    method Push(file: DatabaseFile, physical: U32, ghost ids: seq<U32>) returns (r: Result<nat>)
      requires file.Valid() && this !in file.Repr()
      requires Directory.Maps(file.Pages(), root, len, chain, ids)
      requires Directory.Pushable(file.Pages(), len, chain)
      modifies this, file.Storage(), file`logicalPageCount
      ensures file.Valid() && file.KeepsSnapshots()
      ensures if physical == Directory.UNMAPPED
              then r == Err(StorageCorrupted(physical)) && file.Pages() == old(file.Pages())
                   && root == old(root) && len == old(len) && chain == old(chain)
              else && r == Ok(old(len)) && len == old(len) + 1
                   && Directory.Maps(file.Pages(), root, len, chain, ids + [physical])
                   && old(Directory.Push(file.Pages(), root, len, chain, physical)) == Directory.Pushed(file.Pages(), root, chain)
    {
      hide DatabaseFile.Valid, DatabaseFile.Pages, DatabaseFile.Remembers, Directory.IsChain, Directory.EntryAt;
      if physical == Directory.UNMAPPED {
        return Err(StorageCorrupted(physical));
      }
      var logical, slot := len, Directory.SlotOf(len);
      Directory.PushMaps(file.Pages(), root, len, chain, ids, physical);
      Directory.RoomMaps(file.Pages(), root, len, chain, ids);
      var ensured := EnsureDirPage(file, ids);
      Directory.EntryAppended(file.Pages(), root, len, chain, ids, physical);
      var read := file.ReadPage(ensured.value);
      var page := Directory.WriteEntry(read.value, slot, physical);
      var _ := file.WritePage(ensured.value, page);
      len := logical + 1;
      r := Ok(logical);
    }
  }

  function LivePages(s: State): set<nat> {
    set l: nat | l < LenOf(s.header, Property) && Live(s.layout, l)
  }

  /** Every property page that the directory maps is either live or listed as free, once. */
  lemma LivePlusFree(s: State)
    requires LayoutOk(s.pages, s.header, s.layout)
    ensures |LivePages(s)| + |s.layout.free|
            == |s.layout.property.ids| == LenOf(s.header, Property)
  {
    var ids, free, n := s.layout.property.ids, s.layout.free, LenOf(s.header, Property);
    assert DirOk(s.pages, s.header, s.layout, Property) && s.layout.Of(Property) == s.layout.property;
    forall i, j | 0 <= i < j < |free| ensures free[i] != free[j] {
      FreeListIsAcyclic(s.pages, ids, s.header.propertyFreeListHead, free, i, j);
    }
    forall i | 0 <= i < |free| ensures free[i] < n {
      assert FreeAt(s.pages, ids, free, i);
    }
    PageCache.DistinctSize(free);
    hide LayoutOk, FreeList;
    var live := LivePages(s);
    var freed := Lru.Elements(free);
    assert live + freed == PageCache.UpTo(n) && live !! freed;
  }

  ghost predicate RemembersFiles(f: Files, snap: FileSnapshot, pages: seq<Page>) {
    && snap.count <= 0xFFFF_FFFF
    && snap.walLen <= |f.log|
    && Complete(Files(f.main, f.log[..snap.walLen]), snap.count)
    && View(Files(f.main, f.log[..snap.walLen]), snap.count) == pages
  }

  lemma LogPrefixes(f: Files, p: U32, data: Page)
    ensures forall snap: FileSnapshot, pages: seq<Page> {:trigger RemembersFiles(f, snap, pages)} ::
      RemembersFiles(f, snap, pages) ==> RemembersFiles(Files(f.main, f.log + [WalEntry(p, data)]), snap, pages)
  {
    hide View, Complete;
    assert forall n :: 0 <= n <= |f.log| ==> (f.log + [WalEntry(p, data)])[..n] == f.log[..n];
  }

  lemma OlderPrefixes(f: Files, n: nat)
    requires n <= |f.log|
    ensures forall snap: FileSnapshot, pages: seq<Page> {:trigger RemembersFiles(f, snap, pages)} ::
      snap.walLen <= n && RemembersFiles(f, snap, pages) ==> RemembersFiles(Files(f.main, Truncated(f.log, n)), snap, pages)
  {
    hide View, Complete;
    assert forall m :: 0 <= m <= n ==> Truncated(f.log, n)[..m] == f.log[..m];
  }

  lemma NothingToApply(main: seq<Page>)
    ensures ApplyLog(main, []) == main
  {
  }

  lemma FlushedMain(d: Disk, count: nat)
    requires Sound(d, count)
    ensures FlushDisk(d, count).files.main == View(d.files, count)
  {
    if d.files.log == [] {
      if count > 0 {
        var last: U32 := count - 1;
        assert Durable(d.files, last).Some?;
      }
      assert |d.files.main| == count;
    } else {
      CheckpointIsView(d.files, count, true);
    }
  }
}
