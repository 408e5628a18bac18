# ChiffonDB: a verified model of the storage engine and the database above it

ChiffonDB is an embedded property graph database kept in one file of 4096-byte pages. This project
models how it stores, finds, changes and rolls back data, and proves what callers rely on. Check it
with `dafny verify dfyconfig.toml`.

## The modules

**Pages.** `PageCache` is the bounded cache as the code keeps it: a slab of frames, a free stack, an
index and an intrusive doubly linked list, relinked in place. It is proved against `Lru`, a list of
pages by recency, which is proved in turn to hold the most recently used pages and to lose no unsaved
write. `Backends` has the write-ahead log, the file backend (cache over log over main file) and the
memory backend (one byte vector); `Store` gives their calls as functions on values. `Engine` is a
database file as a state machine, and the flat sequence of pages it must agree with over whole runs,
rollback and reopening included. `Header` is the serialized header page, and `PageSlots` the bitmap
allocator inside a page of records.

**The file.** `Directory` says what a chain of directory pages stands for, and `Layout` who owns each
physical page: the header, three directory chains, their data pages and the stack of freed property
pages inside those. `DatabaseFile` has the classes, with their loops over page links, over either
backend. `SchemaChain` stores the schema as a page chain behind the last page.

**Transactions.** `Connection` is the class with its begin, commit, rollback and close; `Transactions`
is the same state machine over whole runs with nested snapshots, against two plain copies of the pages.

**Types and values.** `TypeIds` is the assignment of persistent type ids, `Floats` finite binary64
numbers with their exact values, and `Convert` the conversion of stored values, exact or refused.

**The database.** `Records` has nodes and edges with references to stored properties and labels.
`Indexing` says what the property index, the label sets and unique fields must say about the records.
`Database` is the class whose operations keep that up to date. `Rewriting`, `SchemaChanges` and
`FieldChanges` apply schemas, rename fields and change their types; `SchemaRuns` follows stored values
over whole runs, of which each operation is proved to be a step; `Vacuum` copies the live contents with
the stored schema.

**The graph.** `Topology` is the store of nodes and edges with its slots and its linked lists of edges,
down to what freed and never-used slots read as; `RecordFormat` is the 64-byte encoding of its records.
`Incidence` says that these lists are the edges of the records above. `Pathfinding` searches shortest
paths over the store and builds connecting subgraphs.

## How the results are stated

Code that changes state is a class or a loop here too. Each method is proved against a function of the
old state or against the property itself, and the properties of those functions are lemmas. The
property index keys its entries by hashes; the hashes are arbitrary functions, so that what is proved
holds whatever collides. Allocators return any unused record id, so slot reuse is covered. Where a
hash map or a set is walked in the source, the loop here picks any element that is left.

A schema change can leave the property index and the unique fields wrong, so no operation requires
them to be right: contracts say what becomes of records, label sets and index entries in any consistent
database, and that what was right stays right, or exactly when it does.

## Where the code and what is written about it differ

- The comment on `compute_slot_count` promises the maximum number of slots; its loop never runs, and
  `PageSlots.GuessIsMaximalIff` says exactly when the first guess is the maximum.
- Rollback is exact only without a flush since the snapshot: `Engine.RollbackExactIffNotFlushed`. A
  flush can even cost the header page, as `Engine.FlushBreaksRollback` shows.
- The file backend accepts a write beyond the last page and the memory backend refuses it:
  `Engine.WriteBeyondEndDiverges`.
- The counter of type ids is not checked when a schema is saved and wraps at 16 bits, in builds without
  overflow checks; with them the program stops there. `TypeIds.SavingSharesIff` says exactly when two
  names then share an id, and `TypeIds.WrappedCounterReissues` shows one. Registration of a name checks
  the counter.
- A name that a schema defines twice gets two ids, and two readers of them disagree:
  `TypeIds.RegistrationAgreesIff`.
- The two zeros of binary64 are equal values with different index keys. The index finds one where a scan
  finds both, and a unique field can hold both: `Indexing.IndexEqualsScanIff`, `Indexing.UniqueUpToZeros`.
- No step builds index entries when a populated field becomes indexed, removes those of a field that is
  unmarked or whose type is removed, or looks for duplicates under a new unique mark:
  `SchemaChanges.IndexFitsIff`, `SchemaChanges.UniqueFitsIff`, `SchemaChanges.UnmarkedFieldMisleads`.
- That index can then name slots in which no live node is. Lookups and uniqueness checks read them all the
  same; what they get is a parameter (`Database.Database.FindAllNodes`).
- Vacuum builds a right index from any, but fails on a field that was made unique over duplicates, which
  applying the schema had accepted: `Vacuum.CopyLiveContentsInto`, `Vacuum.DuplicatesStopTheCopy`.
- Applying a schema is meant to keep old values from showing under a field added again with the same name.
  It does while the type stays declared; when the type is removed and declared anew its values come
  back: `SchemaRuns.NothingResurfaces`, `SchemaRuns.RemovedTypeReturns`.
- Renaming a field, or changing its type, takes an entry away that another indexed field may share, when the
  names hash alike, and looks only at the first field of a name declared twice, which no check refuses:
  `FieldChanges.RenamedIndexIff`, `FieldChanges.RenameMisses`, `FieldChanges.ConvertedIndexIff`.
- The search takes any record id and never asks whether its slot is in use. A freed node reaches nothing,
  without an error; a mapped slot that was never used reads as if it listed the first edge slot, and the
  search returns a path that does not exist: `Pathfinding.NeverUsedFollowsFirstEdge`,
  `Pathfinding.SearchIsRightIff`.
- Freeing a property page that is already free, at whatever place of the list, makes the list run in a
  circle: `Layout.FreeingKeepsListIff`.
- `ARCHITECTURE.md:36` gives version 8 for the file format, `ARCHITECTURE.md:42` and the code give 10;
  the model uses 10.

## Model

| member | source | states |
|---|---|---|
| `PageCache.PageCache.Get` | chiffondb-core/src/storage/buffer.rs:82-86 | A hit returns the cached data and moves the page to the recent end of the recency list; a miss changes nothing. |
| `PageCache.PageCache.PutPage` | chiffondb-core/src/storage/buffer.rs:95-131 | Contents, dirty mark (sticky) and `DirtyVictim` are those of the recency list: the victim is the least recently used page, returned only if dirty, with its latest bytes. |
| `PageCache.PageCache.Remove` | chiffondb-core/src/storage/buffer.rs:135-141 | The page leaves the recency list; the order of the others stays. |
| `PageCache.PageCache.Clear` | chiffondb-core/src/storage/buffer.rs:143-150 | The recency list is empty, and the cache valid. |
| `PageCache.PageCache.EvictLru` | chiffondb-core/src/storage/buffer.rs:152-170 | The head of the recency list leaves, as a victim if it is dirty. |
| `PageCache.PageCache.TouchSlot` | chiffondb-core/src/storage/buffer.rs:172-177 | Relinking a slot at the recent end moves its entry to the end of the list and keeps all others in order. |
| `PageCache.PageCache.Unlink` | chiffondb-core/src/storage/buffer.rs:179-193 | The pointers of the neighbours (or the ends) bypass the slot: the list loses exactly this entry. |
| `PageCache.PageCache.PushMru` | chiffondb-core/src/storage/buffer.rs:195-206 | The slot becomes the last entry of the list. |
| `PageCache.PageCache.Vacate` | chiffondb-core/src/storage/buffer.rs:135-141 | An unlinked slot goes to the free stack and its page out of the index; list, stack and index stay consistent. |
| `PageCache.PageCache.TakeSlot` | chiffondb-core/src/storage/buffer.rs:117-126 | The slot of a new frame comes from the free stack, or the slab grows within the capacity. |
| `PageCache.SlabIsSplit` | chiffondb-core/src/storage/buffer.rs:28-54 | The slab is exactly the linked list plus the free stack: every slot is in one of them, in none twice. |
| `Lru.HoldsMostRecentlyUsed` | chiffondb-core/src/storage/buffer.rs:95-131 | From an empty cache, after any run of uses, the cached pages are the last `capacity` distinct pages used, in order of last use. |
| `Lru.CachedIffRecentlyUsed` | chiffondb-core/src/storage/buffer.rs:95-131 | A page is cached exactly when fewer than `capacity` other pages were used since its last use. |
| `Lru.LookupPut` | chiffondb-core/src/storage/buffer.rs:95-131 | After a put the page has the new data, its old dirty mark or the new one, and every other page is unchanged unless it was evicted. |
| `Lru.DirtyPagesKept` | chiffondb-core/src/storage/buffer.rs:88-131 | One step keeps the dirty entries equal to the pages the caller still owes a save, with their latest bytes, and a victim carries the latest bytes of such a page. |
| `Lru.DirtyPagesAreOwed` | chiffondb-core/src/storage/buffer.rs:82-150 | Over any run from the empty cache the dirty entries are exactly those pages. |
| `Lru.UnsavedWriteKept` | chiffondb-core/src/storage/buffer.rs:82-150 | Over any run, what was put dirty is, until the caller writes or drops the page again, in the cache with its bytes or has been handed out as a victim with them: no unsaved write is lost. |
| `Backends.Wal.ReadEntry` | chiffondb-core/src/storage/wal.rs:77-89 | Gives the last entry logged for the page, or nothing. |
| `Backends.Wal.WriteEntry` | chiffondb-core/src/storage/wal.rs:91-105 | The log grows by one entry, which the index names. |
| `Backends.Wal.LoadIndex` | chiffondb-core/src/storage/wal.rs:171-195 | The offset map rebuilt from the log names the last entry of each page. |
| `Backends.Wal.TruncateTo` | chiffondb-core/src/storage/wal.rs:154-161 | The log is resized to the length: a prefix, or extended by zero entries when it has become shorter. |
| `Backends.Wal.Checkpoint` | chiffondb-core/src/storage/wal.rs:122-150 | Writing the latest entry of each page in any order gives the main file that results from applying the log in order, and empties the log. |
| `Backends.FileStore.ReadPage` | chiffondb-core/src/storage/file.rs:287-322 | Cache, log and main file together answer as the read function of the disk state. |
| `Backends.FileStore.WritePage` | chiffondb-core/src/storage/file.rs:324-343 | The log and the cache both take the page. |
| `Backends.FileStore.Flush` | chiffondb-core/src/storage/file.rs:364-384 | An empty log changes nothing; otherwise the main file is padded to the page count and the log applied to it. |
| `Backends.FileStore.Restore` | chiffondb-core/src/storage/file.rs:881-899 | The cache is dropped and the log resized. |
| `Backends.MemoryStore.ReadPage` | chiffondb-core/src/storage/file.rs:312-320 | The flat byte vector read as one sequence of pages; an error beyond its end. |
| `Backends.MemoryStore.WritePage` | chiffondb-core/src/storage/file.rs:333-341 | Overwriting a slice of the byte vector replaces one page of the sequence; an error beyond its end. |
| `Backends.MemoryStore.AppendPage` | chiffondb-core/src/storage/file.rs:356-360 | Extending the byte vector appends one page to the sequence. |
| `Store.CachePut` | chiffondb-core/src/storage/file.rs:308-310 | In a coherent cache every frame is clean, so that a clean put never has a victim, and the cache stays coherent. |
| `Store.ReadReturnsDurable` | chiffondb-core/src/storage/file.rs:287-322 | Whatever the cache holds, a read returns the last logged contents of the page or those of the main file, and fails exactly when there are none. |
| `Store.WriteUpdatesView` | chiffondb-core/src/storage/file.rs:324-362 | A write or an append changes one page of the view and no other. |
| `Store.ApplyLogIsDurable` | chiffondb-core/src/storage/wal.rs:122-150 | Applying a log in order leaves every page with its last entry, or as it was. |
| `Store.FlushKeepsView` | chiffondb-core/src/storage/file.rs:364-384 | A flush changes no page that a reader sees, and empties the log. |
| `Store.OpenRecoversView` | chiffondb-core/src/storage/file.rs:488-526 | Checkpointing what was found on disk gives a main file equal to the view before the stop. |
| `Store.GapsAreZeros` | chiffondb-core/src/storage/wal.rs:154-161 | What no one wrote is zero bytes: gaps and padding of the main file, and what a log made longer goes on with, which reads as entries of page 0. |
| `Engine.StepSimulates` | chiffondb-core/src/storage/file.rs:287-384 | Every step of the file backend answers like a flat sequence of pages with copied snapshots, and stays in step with it. |
| `Engine.StepsRead` | chiffondb-core/src/storage/file.rs:287-384 | What any page reads as after any step but a restore, in terms of what it read as before: the written page alone changes, an append adds one page unless the numbers are used up, a header change touches page 0, and nothing else does anything. |
| `Engine.StepsAnswer` | chiffondb-core/src/storage/file.rs:287-384 | Exactly a read beyond the end, an append when the page numbers are used up, and giving back a snapshot when none is held fail; and how many snapshots are held after each step. |
| `Engine.FileBackendAgreesWithMemory` | chiffondb-core/src/storage/file.rs:287-384 | For every cache capacity and every disciplined run of reads, writes, appends, header changes, flushes, snapshots and restores, with stops and reopenings anywhere in it, the file backend returns what the flat sequence returns, and every cached frame is clean and equal to its durable copy. |
| `Engine.WriteBeyondEndDiverges` | chiffondb-core/src/storage/file.rs:324-343 | Beyond the last page the file backend accepts a write that the memory backend refuses, in every state. |
| `Engine.ReopenRecovers` | chiffondb-core/src/storage/file.rs:488-526 | Stopping after any step without a flush and reopening gives the same pages, the same page count and the same header; what is reopened is again in step with the flat sequence, without snapshots. |
| `Engine.RollbackIsExact` | chiffondb-core/src/storage/file.rs:860-899 | Restoring a snapshot brings back the pages, the page count and the header held when it was taken, across any run with nested snapshots and no flush. |
| `Engine.FlushBreaksRollback` | chiffondb-core/src/storage/file.rs:860-899 | With a flush in between, a changed page survives the rollback, or the header page reads back as zeros, which is no header. |
| `Engine.RollbackExactIffNotFlushed` | chiffondb-core/src/schema/store.rs:271-272 | Undoing a write is exact if and only if nothing was flushed since the snapshot. |
| `Engine.RollbackAcrossFlushIff` | chiffondb-core/src/storage/file.rs:860-899 | After a snapshot, any run and a flush that found something in the log, the restored pages are as remembered if and only if the log was empty at the snapshot and the flushed pages are the remembered ones. |
| `Header.HeaderRoundTrip` | chiffondb-core/src/storage/file.rs:184-255 | A serialized header reads back as itself if it carries the current version, and is refused with its version otherwise. |
| `Header.AcceptedPage` | chiffondb-core/src/storage/file.rs:207-255 | An accepted page agrees byte for byte with the serialization of its header, the page-size word and the reserved bytes aside. |
| `Header.HeaderOffsets` | chiffondb-core/src/storage/file.rs:185-206 | Where each word of the header stands in its page, byte by byte, and that all else is zero. |
| `Header.NewHeaderIs` | chiffondb-core/src/storage/file.rs:163-183 | The header of a new file, word by word, which reads back as itself. |
| `Directory.ResolveFindsIds` | chiffondb-core/src/storage/page_directory.rs:79-99 | Below the length `resolve(i)` is the `i`-th pushed id, beyond it nothing, over any number of chained directory pages. |
| `Directory.ChainIsAcyclic` | chiffondb-core/src/storage/page_directory.rs:143-187 | A chain of directory pages that ends visits no page twice. |
| `Directory.RootDetermines` | chiffondb-core/src/storage/page_directory.rs:58-61 | Root and length alone determine the sequence and the chain. |
| `Directory.PushMaps` | chiffondb-core/src/storage/page_directory.rs:105-135 | A push appends one id, changes no page but the last of the chain, and adds at most one page. |
| `Directory.WalkStops` | chiffondb-core/src/storage/page_directory.rs:143-160 | A walk that ends or fails at a page has the same outcome for every page behind it. |
| `Directory.DirectoryFormat` | chiffondb-core/src/storage/page_directory.rs:11-33 | The link stands at byte 0 and entry `k` at byte 4 + 4k, low byte first; 1023 entries a page, split by quotient and remainder; a blank page is all ones where it is read. |
| `DatabaseFile.PageDirectory.Resolve` | chiffondb-core/src/storage/page_directory.rs:79-99 | The walk over the links returns what the chain in the pages stands for. |
| `DatabaseFile.PageDirectory.DirPagePid` | chiffondb-core/src/storage/page_directory.rs:143-160 | The `k`-th directory page as the links give it. |
| `DatabaseFile.PageDirectory.EnsureDirPage` | chiffondb-core/src/storage/page_directory.rs:165-187 | Finds the directory page for the next entry, appending and linking a blank one when the chain is full. |
| `DatabaseFile.PageDirectory.Push` | chiffondb-core/src/storage/page_directory.rs:105-135 | The pages, the root and the chain are those of one push to the sequence; the directory still maps every earlier id. |
| `DatabaseFile.DatabaseFile.Create` | chiffondb-core/src/storage/file.rs:441-466 | A new file holds its header page and satisfies the layout invariant. |
| `DatabaseFile.DatabaseFile.Open` | chiffondb-core/src/storage/file.rs:488-526 | The log is checkpointed before the header is read; the pages are those of the main file under the log, and opening fails exactly when the first page is no header. |
| `DatabaseFile.DatabaseFile.ReadPage` | chiffondb-core/src/storage/file.rs:544-547 | Reading does not change the pages, over either backend. |
| `DatabaseFile.DatabaseFile.WritePage` | chiffondb-core/src/storage/file.rs:549-552 | An existing page changes and no other, and snapshots still stand for what they stood for; beyond the end the memory backend refuses, and the file backend takes the page into log and cache. |
| `DatabaseFile.DatabaseFile.AppendPage` | chiffondb-core/src/storage/file.rs:554-560 | The page goes behind the last one, and its number is returned. |
| `DatabaseFile.DatabaseFile.Flush` | chiffondb-core/src/storage/file.rs:567-569 | No page changes, the log is empty and the main file holds the pages. |
| `DatabaseFile.DatabaseFile.TakeSnapshot` | chiffondb-core/src/storage/file.rs:860-875 | The snapshot remembers the pages, their number and the header. |
| `DatabaseFile.DatabaseFile.Restore` | chiffondb-core/src/storage/file.rs:881-899 | Pages, count and header are those remembered; older snapshots still stand for theirs. |
| `DatabaseFile.DatabaseFile.AllocMappedPage` | chiffondb-core/src/storage/file.rs:798-808 | Allocating a node, edge or property page maps the next logical number to a new physical page and leaves every logical page of every kind at its place with its contents. |
| `DatabaseFile.DatabaseFile.ResolvePage` | chiffondb-core/src/storage/file.rs:786-796 | The physical page of a mapped logical page; an error beyond the length. |
| `DatabaseFile.DatabaseFile.ReadLogicalPage` | chiffondb-core/src/storage/file.rs:822-829 | The contents of the mapped page; an error beyond the length. |
| `DatabaseFile.DatabaseFile.WriteLogicalPage` | chiffondb-core/src/storage/file.rs:811-820 | Changes one logical page of one kind and no other; the free list is kept unless the page stands on it. |
| `DatabaseFile.DatabaseFile.FreePropertyPage` | chiffondb-core/src/storage/file.rs:667-677 | The page takes the marker and the link, and every other logical page keeps its contents. There is a well-formed free list afterwards if and only if the page was live. |
| `DatabaseFile.DatabaseFile.PopPropertyFreePage` | chiffondb-core/src/storage/file.rs:679-696 | Takes the head of the stack; a head without the free marker counts as a corrupt list and empties it. |
| `DatabaseFile.DatabaseFile.AllocPropertyPage` | chiffondb-core/src/storage/file.rs:636-648 | Returns a page that was not live, reusing the last one freed before the file grows, and alters no live page. |
| `DatabaseFile.LivePlusFree` | chiffondb-core/src/storage/file.rs:636-696 | Live pages plus free pages are the mapped length of the property directory. |
| `Layout.PagesAreDisjoint` | chiffondb-core/src/storage/file.rs:722-808 | Page 0, the pages of the three chains and all data pages of all kinds are different physical pages. |
| `Layout.AllocationPreserves` | chiffondb-core/src/storage/file.rs:798-808 | An allocation followed by the header write keeps the layout and every mapped page of every kind. |
| `Layout.FreeListIsAcyclic` | chiffondb-core/src/storage/file.rs:651-696 | The free list visits no page twice. |
| `Layout.FreedKeepsLayout` | chiffondb-core/src/storage/file.rs:667-677 | Freeing a live page keeps the directories and gives a longer well-formed list. |
| `Layout.PoppedKeepsLayout` | chiffondb-core/src/storage/file.rs:636-696 | Reusing the head with new contents keeps the directories and the rest of the list. |
| `Layout.FreeingKeepsListIff` | chiffondb-core/src/storage/file.rs:667-677 | After freeing a mapped page some well-formed list has it as its head if and only if it was not on the list before, at whatever place. |
| `Layout.FreeingKeepsLayoutIff` | chiffondb-core/src/storage/file.rs:667-677 | The same of the whole file: some layout fits the pages if and only if the page was live. |
| `Layout.MappedIsHighWater` | chiffondb-core/src/storage/file.rs:636-696 | In a run without rollback the mapped length is the largest number of pages that were live at once. |
| `Layout.FreePageFormat` | chiffondb-core/src/storage/file.rs:664-696 | The bytes of a freed page: the marker, the link at byte 4, zeros elsewhere; and what is read as marker and link. |
| `Layout.DirectoryWords` | chiffondb-core/src/storage/file.rs:722-808 | Which header words are root and length of which kind of directory; changing those of one kind leaves all else. |
| `Connection.Connection.BeginTransaction` | chiffondb-core/src/api/mod.rs:703-710 | Refused inside a transaction or when closed; otherwise the snapshot stands for the present pages. |
| `Connection.Connection.CommitTransaction` | chiffondb-core/src/api/mod.rs:713-718 | The pages stay, the log is empty and the main file holds them. |
| `Connection.Connection.RollbackTransaction` | chiffondb-core/src/api/mod.rs:721-729 | Pages, header and directories are those held at begin; an error without a transaction. |
| `Connection.Connection.Close` | chiffondb-core/src/api/mod.rs:103-111 | A pending transaction is discarded; the main file holds what is left, and the connection is closed. |
| `Transactions.RunIsTracked` | chiffondb-core/src/api/mod.rs:703-729 | In every run, stops and reopenings included, every call answers like a machine that keeps two copies of the pages, and what it holds is what reopening would find at any point. |
| `Transactions.CallsAnswer` | chiffondb-core/src/api/mod.rs:703-729 | After any run: begin succeeds exactly on an open connection outside a transaction, commit and rollback exactly inside one, each other case with its own error, and a refused call changes nothing. Inside one is after a begin with nothing but work since. |
| `Transactions.TransactionEnds` | chiffondb-core/src/db.rs:2474-2492 | For a transaction begun in any reachable state, with any work that gives back its nested snapshots: rollback restores what was held at begin; close does, and the main file is exactly that; commit leaves in the main file what the same work does outside a transaction, and so does a stop inside the transaction. |
| `Transactions.WorkAbove` | chiffondb-core/src/db.rs:613-617 | Work that takes and gives back snapshots behaves the same whatever snapshots lie below. |
| `Pathfinding.Neighbors` | chiffondb-core/src/pathfinding/mod.rs:146-178 | Exactly the edges in the lists that the slot leads to, in an allowed direction with an allowed type, each with the node at its other end; an error if and only if the lists cannot be read. |
| `Pathfinding.StepsAreJoins` | chiffondb-core/src/storage/topology.rs:292-313 | From a slot that was ever used, these are the edges in use that leave or enter the node; from a freed one there are none. |
| `Pathfinding.WalksArePaths` | chiffondb-core/src/pathfinding/mod.rs:71-116 | From such a slot, whatever can be walked is a path over edges in use, and the other way round. |
| `Pathfinding.ReconstructPath` | chiffondb-core/src/pathfinding/mod.rs:188-221 | Following the visited map back and turning it around gives a real walk, as long as the distance of its end. |
| `Pathfinding.ShortestPath` | chiffondb-core/src/pathfinding/mod.rs:71-116 | Something is found if and only if the target can be walked to within the depth, nothing is shorter, and every edge has a listed type. From a slot that was ever used it is a shortest path over edges in use, found if and only if there is one, and there is no error; an error means a slot that cannot be read. |
| `Pathfinding.DirectionsMean` | chiffondb-core/src/pathfinding/mod.rs:152-178 | Outgoing follows an edge from its start to its end, incoming from its end to its start, and both is either. |
| `Pathfinding.FilterMeans` | chiffondb-core/src/pathfinding/mod.rs:180-185 | A step with a filter is a step without it over an edge of a listed type. |
| `Pathfinding.FilteredWalks` | chiffondb-core/src/pathfinding/mod.rs:180-185 | The walks with a filter are those without it whose edges all have listed types; a filter that lists every type changes nothing. |
| `Pathfinding.FreedReachesNothing` | chiffondb-core/src/pathfinding/mod.rs:71-116 | From a freed node nothing is found, without an error. |
| `Pathfinding.NeverUsedFollowsFirstEdge` | chiffondb-core/src/pathfinding/mod.rs:71-116 | From a mapped slot that was never used the search returns the first edge slot as a path, although no path exists. |
| `Pathfinding.SearchIsRightIff` | chiffondb-core/src/pathfinding/mod.rs:71-116 | For a readable slot the answers are those of the edges in use, for all targets and options, if and only if the slot was ever used. |
| `Pathfinding.ShortestIsSimple` | chiffondb-core/src/pathfinding/mod.rs:71-116 | A shortest walk repeats no node. |
| `Pathfinding.PathsStayInside` | chiffondb-core/src/pathfinding/mod.rs:92-113 | While the nodes nearer than a bound are explored, no walk up to that bound leaves the visited nodes or beats their distances. |
| `Pathfinding.ConnectingSubgraph` | chiffondb-core/src/pathfinding/mod.rs:119-143 | Exactly the requested nodes and one shortest walk, within the depth, for every pair that can be walked between, and nothing else; if all of them were ever used, shortest paths, with both endpoints of each edge. An error if and only if a slot that has to be explored cannot be read. |
| `Pathfinding.ConnectingMeans` | chiffondb-core/src/pathfinding/mod.rs:119-143 | Such a union contains the requested nodes and joins inside it every pair that can be joined. |
| `Topology.TopologyStore.AllocNode` | chiffondb-core/src/storage/topology.rs:113-131 | A node takes a slot that is not in use, with empty lists. |
| `Topology.TopologyStore.FreeNode` | chiffondb-core/src/storage/topology.rs:316-324 | A node without edges gives up its slot; its record stays. |
| `Topology.TopologyStore.InsertEdge` | chiffondb-core/src/db.rs:413-445 | An edge joins between two nodes in use, in front of both lists; otherwise an error, and nothing changes. |
| `Topology.TopologyStore.AllocEdge` | chiffondb-core/src/storage/topology.rs:163-185 | An edge takes a slot that is not in use, linked to nothing. |
| `Topology.TopologyStore.AppendEdge` | chiffondb-core/src/storage/topology.rs:218-245 | The edge goes in front of one list of its node; the lists of the other side stay. |
| `Topology.TopologyStore.RemoveFromList` | chiffondb-core/src/storage/topology.rs:392-441 | The link to the edge takes over the edge's own link; the lists of the other side stay. |
| `Topology.TopologyStore.DeleteEdge` | chiffondb-core/src/storage/topology.rs:248-268 | The edge leaves both lists and gives up its slot; every other edge stays. |
| `Topology.TopologyStore.CollectEdgeChain` | chiffondb-core/src/storage/topology.rs:292-313 | Follows the links to their end, from any slot; an error if and only if they cannot be read. |
| `Topology.NextIsNearer` | chiffondb-core/src/storage/topology.rs:248-268 | A link of an edge in use leads to an older edge in use, and a stale link of a freed edge to one in use or freed later: every walk ends. |
| `Topology.AdjacentEdges` | chiffondb-core/src/storage/topology.rs:133-145 | A node in use lists exactly its edges, a freed one none, and a slot that was never used begins with the first edge slot. |
| `Topology.ChainIsList` | chiffondb-core/src/storage/topology.rs:292-313 | Following the links from a node that was ever used gives its list, newest edge first. |
| `RecordFormat.RefRoundTripIff` | chiffondb-core/src/storage/record.rs:4-32 | An optional record id survives its seven bytes, and seven bytes survive their reading exactly when they are the absent id or end in a zero. |
| `RecordFormat.NodeFormat` | chiffondb-core/src/storage/record.rs:52-85 | Where each part of a node record stands in its 64 bytes, byte by byte, an absent id as seven bytes 0xFF. |
| `RecordFormat.NodeRoundTripIff` | chiffondb-core/src/storage/record.rs:74-104 | A node record reads back as written; any 64 bytes are what their reading writes exactly when their references have the written form and the rest is zero. |
| `RecordFormat.EdgeFormat` | chiffondb-core/src/storage/record.rs:109-148 | The same places for an edge record. |
| `RecordFormat.EdgeRoundTripIff` | chiffondb-core/src/storage/record.rs:135-175 | The same round trips for an edge record. |
| `RecordFormat.LinksAreStored` | chiffondb-core/src/storage/record.rs:52-175 | The list heads, ends and next edges that the store works with are those of the records read back from their bytes, side by side. |
| `RecordFormat.ZerosRead` | chiffondb-core/src/storage/record.rs:21-32 | A slot of zero bytes reads as links to the first slot, as the store has it for slots that were never used. |
| `RecordFormat.NumberSplits` | chiffondb-core/src/storage/page.rs:174-186 | The one number that stands for a record id elsewhere has its page and slot, and a page holds 63 records. |
| `PageSlots.GuessFits` | chiffondb-core/src/storage/page.rs:174-182 | The first count tried always fits with its bitmap, so that the loop never runs. |
| `PageSlots.GuessIsMaximalIff` | chiffondb-core/src/storage/page.rs:174-182 | That count is the largest that fits if and only if one more slot and its bitmap need more than the division left over; the comment promises it always. |
| `PageSlots.GuessExamples` | chiffondb-core/src/storage/page.rs:174-182 | It is the largest for 64-byte records, and 2048 where 3640 one-byte slots would fit. |
| `PageSlots.ComputeSlotCount` | chiffondb-core/src/storage/page.rs:174-182 | The count returned, which fits. |
| `PageSlots.SlotsAreDisjoint` | chiffondb-core/src/storage/page.rs:184-186 | Slots lie behind the bitmap and inside the page and do not overlap. |
| `PageSlots.SlotFormat` | chiffondb-core/src/storage/page.rs:184-196 | Slot i has bit i mod 8 of byte i div 8, lowest bit first, and its record i times the record size behind the bitmap. |
| `PageSlots.BitSetReads` | chiffondb-core/src/storage/page.rs:188-196 | Setting or clearing a bit of a byte leaves its seven other bits. |
| `PageSlots.SlotPage.AllocSlot` | chiffondb-core/src/storage/page.rs:119-127 | The lowest free slot becomes used, or nothing happens exactly when the page is full; no slot changes its bytes. |
| `PageSlots.SlotPage.FreeSlot` | chiffondb-core/src/storage/page.rs:130-137 | The slot is free afterwards; an error beyond the last slot; no slot changes its bytes. |
| `PageSlots.SlotPage.IsUsed` | chiffondb-core/src/storage/page.rs:140-148 | Whether the slot is in the set of used slots. |
| `PageSlots.SlotPage.WriteSlot` | chiffondb-core/src/storage/page.rs:151-162 | The slot holds the bytes, every other slot and every bit of the bitmap is unchanged; an error for a wrong size or slot. |
| `PageSlots.SlotPage.ReadSlot` | chiffondb-core/src/storage/page.rs:165-172 | The bytes of the slot. |
| `TypeIds.AssignTypeIds` | chiffondb-core/src/schema/store.rs:377-440 | The loops compute, for both kinds, inherited or newly minted ids for the defined names followed by the kept ids of undefined ones. |
| `TypeIds.SchemaStore.SaveSchema` | chiffondb-core/src/schema/store.rs:230-254 | What a save leaves in the database. |
| `TypeIds.SchemaStore.RegisterDynamicType` | chiffondb-core/src/schema/store.rs:301-325 | A known name gives its first stored id, a new one the next id, and an exhausted id space an error. |
| `TypeIds.SavingSharesIff` | chiffondb-core/src/schema/store.rs:377-440 | Two different names share an id after a save if and only if the counter has come around to an id that is kept, or two new names stand a multiple of 0x1_0000 new names apart. |
| `TypeIds.SavingKeepsDistinctIff` | chiffondb-core/src/schema/store.rs:377-440 | The counter invariant, all ids distinct, nonzero and below the counter, survives a save if and only if the new names fit below the 16-bit limit. |
| `TypeIds.SavingKeepsIds` | chiffondb-core/src/schema/store.rs:377-440 | Every name keeps its id, defined or not, and every defined name has one. |
| `TypeIds.SavedIds` | chiffondb-core/src/schema/store.rs:377-440 | After a save the named ones are those defined and those named before, of each kind apart, and a name that had an id is found with it. |
| `TypeIds.NewNamesInOrder` | chiffondb-core/src/schema/store.rs:377-440 | A name without an id takes the counter, which starts at 1, plus the number of such definitions of its kind before it, in 16 bits; the counter moves on by the number of all of them. |
| `TypeIds.RegisteringKeepsIds` | chiffondb-core/src/schema/store.rs:301-325 | Registering changes no id, and gives the name one unless the ids have run out. |
| `TypeIds.RunExtends` | chiffondb-core/src/schema/store.rs:301-440 | Along any run of saves and registrations within the limit, names of a kind never share an id, no name changes its id, counters never go back and every id lies below the counter. |
| `TypeIds.IdsAreNeverReused` | chiffondb-core/src/schema/store.rs:16-26 | An id once held by a name never belongs to another. |
| `TypeIds.WrappedCounterReissues` | chiffondb-core/src/schema/store.rs:399-416 | Without the limit the unchecked counter wraps, and a held id is handed out again. |
| `TypeIds.RegistrationAgreesIff` | chiffondb-core/src/schema/registry.rs:18-46 | Registration and the registry agree on a name after a save if and only if the schema did not define it twice before it had an id. |
| `TypeIds.RegisteringAgrees` | chiffondb-core/src/schema/store.rs:301-325 | Registering any name at run time keeps registration and registry agreeing on every name. |
| `SchemaChain.WriteBlobChain` | chiffondb-core/src/storage/property.rs:233-254 | Each page takes its link, length and chunk and keeps the rest; too few pages are refused untouched. |
| `SchemaChain.WriteSchema` | chiffondb-core/src/schema/store.rs:257-275 | The chain goes behind the last page, outside the directories, the header points at it with the next version, and no mapped page and no earlier chain changes. |
| `SchemaChain.ChainSurvives` | chiffondb-core/src/storage/file.rs:636-808 | Whatever leaves pages outside the directories alone, as every allocation, write and release of a mapped page does, leaves a stored chain alone. |
| `SchemaChain.LoadSchemaDto` | chiffondb-core/src/schema/store.rs:333-365 | What the chain stands for, or an error if there is none or it does not decode. |
| `SchemaChain.CopySchema` | chiffondb-core/src/schema/store.rs:282-285 | The destination holds the same definitions, type ids and counters as the source, and its mapped pages stay; an error if and only if the source holds none. |
| `SchemaChain.LoadChain` | chiffondb-core/src/schema/store.rs:333-361 | The bounded walk ends on any links, and returns the chain that starts at the first page. |
| `SchemaChain.ReadBlobChain` | chiffondb-core/src/storage/property.rs:257-282 | The bytes of the chain, or the error of the first bad page. |
| `SchemaChain.ChainRoundTrip` | chiffondb-core/src/schema/store.rs:333-365 | A stored chain reads back as the bytes written, wherever it stands. |
| `SchemaChain.ChainFormat` | chiffondb-core/src/storage/property.rs:233-254 | The bytes of page i of a chain: its link or the end mark, the length of its chunk, and byte 4088i + k of the data at 8 + k; every chunk but the last is full. |
| `Floats.RoundIsNearest` | chiffondb-core/src/schema/convert.rs:101-108 | The cast of an integer to binary64 gives the nearest float, with an even significand in a tie (section 4.3.1 of IEEE 754-2008). |
| `Floats.RepresentableIff` | chiffondb-core/src/schema/convert.rs:101-108 | Rounding leaves an integer exactly when some float has its value. |
| `Floats.RepresentableBits` | chiffondb-core/src/schema/convert.rs:101-108 | That is when its bits beyond the first 53 are zeros. |
| `Floats.FloatFormat` | chiffondb-core/src/schema/convert.rs:92-108 | The limits of significands, exponents and 64-bit integers are the powers of two of binary64. |
| `Convert.FloatToIntIff` | chiffondb-core/src/schema/convert.rs:92-99 | A float converts to an integer if and only if it is the value of that 64-bit integer. |
| `Convert.IntToFloatIff` | chiffondb-core/src/schema/convert.rs:101-108 | An integer converts to a float if and only if a float has exactly its value. |
| `Convert.IntFloatInt` | chiffondb-core/src/schema/convert.rs:92-108 | Int to Float and back gives the integer again. |
| `Convert.FloatIntFloat` | chiffondb-core/src/schema/convert.rs:92-108 | Every whole float from -2^63 up to 2^63 survives Float to Int to Float with its value. |
| `Convert.HugeConvertsToNeither` | chiffondb-core/src/schema/convert.rs:56-72 | An unsigned number beyond the signed range converts to neither number type. |
| `Convert.NumberToIntIff` | chiffondb-core/src/schema/convert.rs:56-62 | A number converts to Int if and only if a 64-bit integer has its value, and then to that integer. |
| `Convert.NumberToFloatIff` | chiffondb-core/src/schema/convert.rs:65-72 | A number converts to Float if and only if it is a float or a 64-bit integer whose value some float has, and the result has its value. |
| `Convert.TextConversions` | chiffondb-core/src/schema/convert.rs:51-90 | A number becomes what printing it gives, true is spelled so and false too; text becomes the number that its trimmed form parses as, or the bool that it spells, and nothing otherwise. |
| `Convert.TextRoundTrips` | chiffondb-core/src/schema/convert.rs:51-90 | Bools survive String and back when trimming leaves their spelling alone, and numbers when parsing what was printed gives them back. |
| `Convert.KindsThatConvert` | chiffondb-core/src/schema/convert.rs:51-90 | Nothing else converts: null, arrays and objects to no type, and no bool to a number. |
| `Convert.ConvertedFits` | chiffondb-core/src/schema/convert.rs:51-90 | A value that fits the type is left alone, and a converted value fits it. |
| `Convert.ConvertIsIdempotent` | chiffondb-core/src/schema/convert.rs:42-90 | Converting twice is converting once, for every target type. |
| `Convert.NumbersKeepTheirValue` | chiffondb-core/src/schema/convert.rs:46-48 | Between the number types no conversion changes the value. |
| `Rewriting.ExchangeFitsIff` | chiffondb-core/src/db.rs:1238-1262 | When records are rewritten and exchange entries, a right index stays right for the new fields if and only if every record has exchanged the entries that it calls for. |
| `Records.StoredOnce` | chiffondb-core/src/db.rs:354-408 | Every stored property map or label list belongs to exactly one record: nothing is leaked or shared. |
| `Records.RecordStore.Replace` | chiffondb-core/src/db.rs:1162-1193 | A record takes a new stored value, the old one is freed, and every other record reads what it read before. |
| `Records.RecordStore.RemoveNode` | chiffondb-core/src/db.rs:401-408 | What the node stored is freed once, then the node. |
| `Records.RecordStore.RemoveEdge` | chiffondb-core/src/db.rs:522-536 | What the edge stored is freed once, then the edge. |
| `Indexing.SameOrZeros` | chiffondb-core/src/storage/value.rs:26-65 | Equal values have equal index keys, except for the two zeros. |
| `Indexing.FoundIsScanned` | chiffondb-core/src/db.rs:1308-1329 | Hash collisions never add a result to a lookup and never hide a record that holds the value. |
| `Indexing.IndexEqualsScanIff` | chiffondb-core/src/storage/index.rs:40-62 | The index finds a record exactly when the scan does and the record does not hold the zero of the other sign. |
| `Indexing.NonScalarsAreNotFound` | chiffondb-core/src/db.rs:1997-2041 | Null, arrays and objects, by their constructors, are not found by the index, by design. |
| `Indexing.OnlyScalars` | chiffondb-core/src/db.rs:1997-2041 | A field calls for an entry exactly when it is indexed or unique and holds a bool, a number or a string. |
| `Indexing.KeysTellApart` | chiffondb-core/src/storage/value.rs:26-65 | Equal index keys come from equal values, except that integers beyond the signed range share the key of the float they are cast to. |
| `Indexing.UniqueUpToZeros` | chiffondb-core/src/db.rs:1263-1292 | Under a unique constraint two records of a type hold equal values only if they hold the two zeros. |
| `Indexing.TakenIff` | chiffondb-core/src/db.rs:1270-1292 | The uniqueness check refuses a record if and only if another record of the type holds one of its scalars, the type's field names hashing differently. |
| `Indexing.NormalizedInOrder` | chiffondb-core/src/db.rs:1793-1833 | Labels stand in the normalised list in the order of their first occurrence, each once. |
| `Database.Database.FindAllNodes` | chiffondb-core/src/db.rs:1308-1329 | By the index or by a scan: exactly the confirmed candidates, or exactly the matching live nodes, each once; an error exactly when a candidate cannot be read. Nothing is supposed of the index. |
| `Database.PathsResolve` | chiffondb-core/src/traversal/command.rs:96-115 | A flat path is a top-level key, and each further key is looked up in an object, or the path names nothing. |
| `Database.Database.CheckUnique` | chiffondb-core/src/db.rs:1270-1292 | Refuses exactly when the index finds one of the scalars of a unique field in another record or names a record that cannot be read, and says which. |
| `Database.Database.MaintainPropertyIndex` | chiffondb-core/src/db.rs:1238-1262 | Adds or removes exactly the entries that the properties call for. |
| `Database.Database.InsertNode` | chiffondb-core/src/db.rs:222-248 | Whatever the index holds, a refused insert changes nothing; otherwise the node joins, its entries are added and the label sets follow. An index that was right stays right, and then unique fields stay unique. |
| `Database.Database.UpdateNodeProperties` | chiffondb-core/src/db.rs:270-339 | Only this node's properties and its entries change, and an index that was right stays right, and then unique fields unique. An unknown node, properties that do not match the declared type, and what the uniqueness check refuses change nothing. |
| `Database.AcceptableIff` | chiffondb-core/src/schema/validate_value.rs:9-36 | Properties are accepted if and only if every name is declared and every declared name that is set has a value of its type, for each field of the name. |
| `Database.ScalarsAccepted` | chiffondb-core/src/schema/validate_value.rs:38-66 | Which values a scalar type takes: null always, integers for Int, all numbers for Float, strings for String and DateTime, bools for Boolean. |
| `Database.OthersAccepted` | chiffondb-core/src/schema/validate_value.rs:38-66 | What the other types without items take: Json anything, a blob a string or an array, a vector any number of numbers, a reference a string; and null. |
| `Database.ItemsAccepted` | chiffondb-core/src/schema/validate_value.rs:38-66 | Lists and maps take what their item type takes, item by item at any depth; the key type is not looked at. |
| `Database.ConvertedIsAccepted` | chiffondb-core/src/schema/validate_value.rs:38-66 | Whatever conversion to a scalar type gives, an update of a field of that type accepts. |
| `Database.Database.DeleteNode` | chiffondb-core/src/db.rs:342-408 | The node and exactly the edges at it go, each once, self-loops included; exactly its entries go and the label sets follow. A right index and unique fields stay so. |
| `Database.Database.SetAdditionalLabels` | chiffondb-core/src/db.rs:1793-1833 | The labels become the normalised list, and the label sets change by the difference; the index is left alone. |
| `Database.Database.InsertNodeWithLabels` | chiffondb-core/src/db.rs:1623-1634 | The node joins with its normalised labels, under the conditions of an insert. |
| `Database.Database.RidsOfType` | chiffondb-core/src/storage/index.rs:31-37 | The label set lists every live node that has the type as primary or additional label, each once. |
| `Database.Database.EndpointsAreLive` | chiffondb-core/src/db.rs:413-445 | Every live edge has live endpoints. |
| `Database.Database.InsertEdge` | chiffondb-core/src/db.rs:413-445 | The edge joins between live nodes; an error otherwise. |
| `Database.Database.InsertEdgeWithLabels` | chiffondb-core/src/db.rs:1390-1403 | The edge joins with its normalised labels. |
| `Database.Database.UpdateEdgeProperties` | chiffondb-core/src/db.rs:467-519 | Only this edge's properties change; an unknown edge and properties that do not match the declared type are refused. |
| `Database.Database.DeleteEdge` | chiffondb-core/src/db.rs:522-536 | The edge goes, and nothing else. |
| `SchemaChanges.ApplySchema` | chiffondb-core/src/db.rs:600-758 | For any schema: a node or edge keeps exactly the values of names declared before and after, if its type is declared in both with different names, and all of them otherwise; label sets stay, and the index loses exactly the entries of names no longer declared. A right index is right afterwards if and only if no scalar stands under a switched index mark; unique fields stay unique if and only if none stands twice in a newly unique field. |
| `SchemaChanges.IndexFitsIff` | chiffondb-core/src/db.rs:639-702 | The index is right for the new schema if and only if no live node holds a scalar under a name whose index mark was switched: of a field declared in both schemas, or of any field of a type declared in only one. |
| `SchemaChanges.UniqueFitsIff` | chiffondb-core/src/db.rs:639-702 | The unique fields of the new schema are unique if and only if the newly unique ones are. |
| `SchemaChanges.UnmarkedFieldMisleads` | chiffondb-core/src/db.rs:639-702 | An entry left by unmarking a field outlives its node: when the id is reused by a node of another type and the field is marked again, a lookup finds that node and a scan does not. |
| `SchemaChanges.PurgeNodeFields` | chiffondb-core/src/db.rs:705-731 | Rewrites the nodes of the type one by one, with the entries of dropped fields removed. |
| `SchemaChanges.PurgeEdgeFields` | chiffondb-core/src/db.rs:735-758 | The same for the edges, which have no index. |
| `SchemaChanges.RemoveIndexEntries` | chiffondb-core/src/db.rs:761-781 | Removes exactly the entries of the given fields. |
| `SchemaRuns.StoredIff` | chiffondb-core/src/db.rs:592-731 | After any run of inserts, updates, label changes, deletions and schema changes a node holds a value if and only if some step wrote it and every later step kept it: none wrote or deleted the node, or was a schema that changed the field names of its type without the name on both sides. |
| `SchemaRuns.NothingResurfaces` | chiffondb-core/src/db.rs:592-617 | Along any such run a value visible under a declared field was last written by one step, and as far back towards it as the type has been declared all along, the field has been declared. |
| `SchemaRuns.StepStores` | chiffondb-core/src/db.rs:600-731 | One step leaves a value in place exactly when it writes that value, or does not write the node and keeps the name. |
| `SchemaRuns.RemovedTypeReturns` | chiffondb-core/src/db.rs:639-702 | The type has to stay declared: removed and declared anew, whatever its fields were at first, it shows values under a field that it need not have declared when they were written. |
| `FieldChanges.RenameNodeField` | chiffondb-core/src/db.rs:891-962 | Fails, changing nothing, exactly for an unknown field, a taken name, or a schema that would not parse again. Otherwise the new name stands in place of the old one, with type and marks kept, in this type only; every value of the type's nodes moves to it and no other value changes, and the entry moves if the first field of the name is indexed. Unique fields stay unique; a right index is right afterwards if and only if the entries of every node fit, as they do when no name is declared twice and indexed names hash differently. |
| `FieldChanges.RenamedIndexIff` | chiffondb-core/src/db.rs:930-962 | The index fits exactly when no node shares the entry that is taken away with another indexed field, unless the same entry comes back, and no entry is left behind by a later field of the same name. |
| `FieldChanges.RenameMisses` | chiffondb-core/src/db.rs:939-955 | A shared entry is lost to the other field; and of a name declared twice, plain and then indexed, the old entry stays. |
| `FieldChanges.RenamedIs` | chiffondb-core/src/db.rs:906-928 | The schema that a rename gives: the first field of the old name has the new one, its type and marks, and every other field of every type stays. |
| `FieldChanges.ChangeNodeFieldType` | chiffondb-core/src/db.rs:964-1043 | Changes nothing, or gives the first field of the name the new type with its marks, and no other field another, and converts every non-null value of the type's nodes, entries included, so that all of them are accepted for the new type. Unless it is rejected it fails only for a unique field; it does fail when two nodes of a valid database end up with values the index takes for equal, which is equality except between the two zeros, and when the index is right and tells the names apart it fails only then. A right index is right afterwards if and only if the entries of every node fit. |
| `FieldChanges.RetypedIs` | chiffondb-core/src/db.rs:996-1002 | The schema that a type change gives: the first field of the name has the new type, its name and marks, and every other field of every type stays. |
| `FieldChanges.ConvertedAccepted` | chiffondb-core/src/db.rs:1046-1108 | After the conversion every value of the type's nodes under the name is accepted for the new type; what did not convert is null. |
| `FieldChanges.TypeNames` | chiffondb-core/src/schema/convert.rs:8-17 | Exactly the five spellings name a scalar type, each its own. |
| `FieldChanges.SupportedIff` | chiffondb-core/src/schema/convert.rs:21-41 | A change is supported exactly between scalar types of which one is String, or from Int to Float or back. |
| `FieldChanges.ConvertedIndexIff` | chiffondb-core/src/db.rs:1046-1108 | The index fits exactly when no changed value shared its entry with another indexed field, unless the same entry comes back; for a name whose first field is not indexed but a later one is, exactly when the entries left and missing are those of other fields. |
| `FieldChanges.ConvertedUniqueIff` | chiffondb-core/src/db.rs:1046-1108 | Unique fields are unique after the conversion if and only if no two values of the field, if it is unique, become equal. |
| `FieldChanges.ConvertFieldRecords` | chiffondb-core/src/db.rs:1046-1108 | The loop over the records: all of them converted and counted and their entries exchanged, or the reason why it stopped. |
| `FieldChanges.RenameFieldRecords` | chiffondb-core/src/db.rs:930-962 | Every value of the type's nodes moves, and exactly the entries of the moved values are exchanged. |
| `FieldChanges.FindFailures` | chiffondb-core/src/db.rs:1002-1021 | How many values cannot be converted, and the first hundred of their records in the order of the walk, none twice. |
| `FieldChanges.HundredReported` | chiffondb-core/src/db.rs:1002-1021 | All failures when they are at most a hundred, and else the first hundred. |
| `FieldChanges.FailingInOrder` | chiffondb-core/src/db.rs:1002-1021 | The failing records stand in the order of the walk. |
| `FieldChanges.ConvertedAndFailed` | chiffondb-core/src/db.rs:964-1043 | Converted plus failed values are all the non-null values of the type. |
| `Vacuum.CopyLiveContentsInto` | chiffondb-core/src/db.rs:2204-2246 | From any consistent database, whatever its index: the old-to-new maps are bijections on live nodes and edges; types and labels are preserved, edges join the copies of their nodes, and a copy has exactly the original's properties, those of undeclared names of a declared type aside, with equal values; definitions, type ids and counters are the same; and the copy has a right index. It fails if the stored schema cannot be read or two nodes hold the same scalar in a unique field, and, when indexed names hash differently, only then. |
| `Vacuum.VisibleIsCopy` | chiffondb-core/src/db.rs:37-53 | What filtering by the declared names leaves: everything for a type without a definition. |
| `Vacuum.CopyShowsUnique` | chiffondb-core/src/db.rs:2212-2227 | A complete copy with unique fields shows that the source had them. |
| `Vacuum.DuplicatesStopTheCopy` | chiffondb-core/src/db.rs:2204-2227 | A field made unique over a value held twice: the schema change keeps the records as they are, and the unique field is not unique, so that the copy fails. |
| `Vacuum.CopyHasRoom` | chiffondb-core/src/db.rs:2219-2224 | A copied record conflicts with none of the copies before it. |
| `Incidence.ListsAreIncident` | chiffondb-core/src/storage/topology.rs:275-313 | In a store that mirrors the records, the lists of a node give exactly the edges that start and that end at it; deleting what they give detaches the node. |
| `Incidence.MirrorSteps` | chiffondb-core/src/db.rs:222-536 | What the store does when a node or an edge comes or goes keeps it a mirror of the records. |

## Left out

- DatabaseFile.DatabaseFile.WritePage: after a write beyond the end on the file backend nothing is promised about the pages but the state of log and cache; every caller in the file writes pages it resolved or appended.
- DatabaseFile.DatabaseFile.AppendPage: below the 32-bit limit of page numbers, where the source's counter would overflow; the same limit stands in the methods that append.
- SchemaChanges.ApplySchema: the exact condition supposes that the indexed names of a type under both schemas hash differently; what becomes of records, label sets and index supposes nothing.
- FieldChanges.RenameNodeField: for nodes; the same operation on edges has no index to move and is not modelled. Whether a schema parses again is a parameter.
- FieldChanges.ChangeNodeFieldType: for nodes. That it fails only on a clash supposes that the index was right and that indexed names hash differently; what it stops on in other states depends on the order of the walk.
- Vacuum.CopyLiveContentsInto: when indexed names of a type hash alike, whether a copy without duplicates is refused depends on the order of the walk, and is left open.
- Database.Database.FindAllNodes: what reading a slot gives in which no live node is, be it an error or leftovers, is a parameter, here and wherever the index is consulted.
- SchemaRuns.StoredIff: renaming a field and changing its type are not steps of these runs.
- TypeIds.AssignTypeIds: definitions are reduced to kind and name; ids assigned anew after a stored schema fails to load are not modelled.
- Transactions.RunIsTracked: work inside a transaction writes pages that exist, appends, changes the header and nests snapshots, and does not flush; a stop falls between two calls or two pieces of work.
- SchemaChain.CopySchema: the encoding of the stored schema (JSON) is a parameter, and that it reads back what it wrote is supposed of the schema copied.
- Pathfinding.ShortestPath: which of several shortest paths is found is not fixed; it depends on the order of the adjacency lists.
- Convert.ConvertIsIdempotent: printing, parsing and trimming text are parameters, any functions at all; that parsing undoes printing is not claimed.
- Connection.Connection.RollbackTransaction: between begin and rollback stand two representative operations on pages rather than the whole query interface.
- Files and processes: advisory locks, the registry of open paths, fsync, I/O errors and torn writes; a page write is atomic.
- The byte format of the write-ahead log, with its checksums and the repair of a cut-off tail.
- Slotted property pages and the pages of the label and property indexes; the database uses what these promise: a label as a set of nodes, an index as a set of entries. The records are maps by id; `Topology` holds their links, and `Incidence` says that the two agree.
- Record ids are one unbounded number, of which `RecordFormat.NumberSplits` gives page and slot; search hints for free slots are not modelled.
- Floats inside arrays and objects are compared by their parts, without identifying the two zeros there.
- Schema text, its grammar and its validation, the migration check, and the check of field names that printing a schema needs.
- The queries on top: first match, listing and counting (listing an unknown type scans everything while counting gives 0), the Cypher subset, JSON traversals, the foreign-function layers and the command line.
- Views with lazy property caches, and memory budgets for the cache beyond its capacity in pages.
