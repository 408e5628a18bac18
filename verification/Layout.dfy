/**
 * Who owns each physical page (chiffondb-core/src/storage/file.rs): three page directories and their
 * data pages share one append tail, and freed property pages form a stack stored in the pages.
 */
module Layout {
  import opened Types
  import opened Header
  import opened Directory

  datatype Kind = Node | Edge | Property

  datatype Owner =
    | HeaderPage
    | DirPage(kind: Kind, nth: nat)
    | DataPage(kind: Kind, logical: nat)
    | OtherPage

  /** The directory pages of one kind, and the physical page of each logical page. */
  datatype Dir = Dir(chain: seq<U32>, ids: seq<U32>)

  /** `owners[p]` is the one owner of physical page `p`; `free` lists the freed property pages, the
      next one to be reused first. */
  datatype Layout = Layout(owners: seq<Owner>, node: Dir, edge: Dir, property: Dir, free: seq<nat>) {
    function Of(kind: Kind): Dir {
      match kind case Node => node case Edge => edge case Property => property
    }

    function With(kind: Kind, dir: Dir): Layout {
      match kind
      case Node => this.(node := dir)
      case Edge => this.(edge := dir)
      case Property => this.(property := dir)
    }
  }

  function RootOf(h: FileHeader, kind: Kind): U32 {
    match kind case Node => h.nodeDirRoot case Edge => h.edgeDirRoot case Property => h.propertyDirRoot
  }

  function LenOf(h: FileHeader, kind: Kind): nat {
    match kind case Node => h.nodePageCount case Edge => h.edgePageCount case Property => h.propertyDirLen
  }

  function WithDir(h: FileHeader, kind: Kind, root: U32, len: U32): FileHeader {
    match kind
    case Node => h.(nodeDirRoot := root, nodePageCount := len)
    case Edge => h.(edgeDirRoot := root, edgePageCount := len)
    case Property => h.(propertyDirRoot := root, propertyDirLen := len)
  }

  // ---- Freed property pages ----

  /** The image of a freed page: the marker, and the head of the list before it. */
  function FreeImage(next: U32): Page {
    [0xFF, 0xFF, 0, 0] + Le32(next) + seq(PAGE_SIZE - 8, _ => 0)
  }

  predicate IsMarked(page: Page) {
    page[0] == 0xFF && page[1] == 0xFF
  }

  function NextFree(page: Page): U32 {
    WordAt(page, 4)
  }

  lemma FreeImageReads(next: U32)
    ensures IsMarked(FreeImage(next)) && NextFree(FreeImage(next)) == next
  {
    assert FreeImage(next)[4..8] == Le32(next);
  }

  /** Where the mark and the link stand in a freed page; everything else is zero. */
  lemma FreePageFormat(next: U32, page: Page)
    ensures FreeImage(next)[0] == FreeImage(next)[1] == 0xFF && StoresAt(FreeImage(next), 4, next)
    ensures forall k :: 2 <= k < 4 || 8 <= k < PAGE_SIZE ==> FreeImage(next)[k] == 0
    ensures IsMarked(page) <==> page[..2] == [0xFF, 0xFF]
    ensures StoresAt(page, 4, NextFree(page))
  {
    FreeImageReads(next);
    WordIsStored(FreeImage(next), 4);
    WordIsStored(page, 4);
    assert page[..2] == [page[0], page[1]];
  }

  /** Which words of the header a directory uses; setting them leaves all others alone. */
  lemma DirectoryWords(h: FileHeader, kind: Kind, root: U32, len: U32)
    ensures RootOf(h, Node) == h.nodeDirRoot && RootOf(h, Edge) == h.edgeDirRoot && RootOf(h, Property) == h.propertyDirRoot
    ensures LenOf(h, Node) == h.nodePageCount && LenOf(h, Edge) == h.edgePageCount && LenOf(h, Property) == h.propertyDirLen
    ensures var h2 := WithDir(h, kind, root, len);
      && forall k :: RootOf(h2, k) == (if k == kind then root else RootOf(h, k)) && LenOf(h2, k) == (if k == kind then len else LenOf(h, k))
    ensures exists node: U32, edge: U32, property: U32, nodes: U32, edges: U32, properties: U32 ::
      WithDir(h, kind, root, len) == h.(nodeDirRoot := node, edgeDirRoot := edge, propertyDirRoot := property,
                                        nodePageCount := nodes, edgePageCount := edges, propertyDirLen := properties)
  {
    var h2 := WithDir(h, kind, root, len);
    assert h2 == h.(nodeDirRoot := h2.nodeDirRoot, edgeDirRoot := h2.edgeDirRoot, propertyDirRoot := h2.propertyDirRoot,
                    nodePageCount := h2.nodePageCount, edgePageCount := h2.edgePageCount, propertyDirLen := h2.propertyDirLen);
  }

  /** The list behind its head. */
  function Behind(free: seq<nat>): seq<nat> {
    if free == [] then [] else free[1..]
  }

  function HeadOf(free: seq<nat>): int {
    if free == [] then NO_FREE_PAGE else free[0]
  }

  /** The `i`-th free page is mapped, marked and linked to the next one. */
  ghost predicate FreeAt(pages: seq<Page>, ids: seq<U32>, free: seq<nat>, i: nat)
    requires i < |free|
  {
    && free[i] < |ids| && ids[free[i]] < |pages|
    && IsMarked(pages[ids[free[i]]])
    && NextFree(pages[ids[free[i]]]) == HeadOf(free[i+1..])
  }

  ghost predicate FreeList(pages: seq<Page>, ids: seq<U32>, head: U32, free: seq<nat>) {
    && |ids| <= NO_FREE_PAGE
    && head == HeadOf(free)
    && forall i :: 0 <= i < |free| ==> FreeAt(pages, ids, free, i)
  }

  /** The list ends, so it visits no page twice. */
  lemma {:induction false} FreeListIsAcyclic(pages: seq<Page>, ids: seq<U32>, head: U32, free: seq<nat>, i: nat, j: nat)
    requires FreeList(pages, ids, head, free) && i < j < |free|
    ensures free[i] != free[j]
    decreases |free| - j
  {
    assert FreeAt(pages, ids, free, i) && FreeAt(pages, ids, free, j);
    assert free[i+1..][0] == free[i+1] && FreeAt(pages, ids, free, i + 1);
    if j < |free| - 1 {
      assert free[j+1..][0] == free[j+1];
      FreeListIsAcyclic(pages, ids, head, free, i + 1, j + 1);
    }
  }

  // ---- The invariant ----

  ghost predicate ChainOwned(owners: seq<Owner>, kind: Kind, chain: seq<U32>) {
    forall i :: 0 <= i < |chain| ==> chain[i] < |owners| && owners[chain[i]] == DirPage(kind, i)
  }

  ghost predicate DataOwned(owners: seq<Owner>, kind: Kind, ids: seq<U32>) {
    forall i :: 0 <= i < |ids| ==> ids[i] < |owners| && owners[ids[i]] == DataPage(kind, i)
  }

  ghost predicate DirOk(pages: seq<Page>, h: FileHeader, lay: Layout, kind: Kind) {
    && Maps(pages, RootOf(h, kind), LenOf(h, kind), lay.Of(kind).chain, lay.Of(kind).ids)
    && ChainOwned(lay.owners, kind, lay.Of(kind).chain)
    && DataOwned(lay.owners, kind, lay.Of(kind).ids)
    && |lay.Of(kind).ids| <= |pages|
  }

  ghost predicate DirsOk(pages: seq<Page>, h: FileHeader, lay: Layout) {
    && 1 <= |pages| == |lay.owners| <= NO_FREE_PAGE
    && lay.owners[0] == HeaderPage
    && forall kind :: DirOk(pages, h, lay, kind)
  }

  ghost predicate LayoutOk(pages: seq<Page>, h: FileHeader, lay: Layout) {
    DirsOk(pages, h, lay) && FreeList(pages, lay.property.ids, h.propertyFreeListHead, lay.free)
  }

  function EmptyLayout(): Layout {
    Layout([HeaderPage], Dir([], []), Dir([], []), Dir([], []), [])
  }

  lemma NewLayoutOk()
    ensures LayoutOk([Serialize(NEW_HEADER)], NEW_HEADER, EmptyLayout())
  {
  }

  /** Two pages reached through the directories, of any kinds, are the same physical page only when
      they are the same directory page or the same logical page. */
  lemma PagesAreDisjoint(pages: seq<Page>, h: FileHeader, lay: Layout, k1: Kind, k2: Kind, i: nat, j: nat)
    requires DirsOk(pages, h, lay)
    ensures i < |lay.Of(k1).chain| ==> lay.Of(k1).chain[i] != 0
    ensures i < |lay.Of(k1).ids| ==> lay.Of(k1).ids[i] != 0
    ensures i < |lay.Of(k1).chain| && j < |lay.Of(k2).ids| ==> lay.Of(k1).chain[i] != lay.Of(k2).ids[j]
    ensures i < |lay.Of(k1).chain| && j < |lay.Of(k2).chain| && (k1, i) != (k2, j) ==> lay.Of(k1).chain[i] != lay.Of(k2).chain[j]
    ensures i < |lay.Of(k1).ids| && j < |lay.Of(k2).ids| && (k1, i) != (k2, j) ==> lay.Of(k1).ids[i] != lay.Of(k2).ids[j]
  {
    assert DirOk(pages, h, lay, k1) && DirOk(pages, h, lay, k2);
  }

  /** A write that spares the directory pages keeps the directories. */
  lemma DirsFrame(pages: seq<Page>, h: FileHeader, lay: Layout, p: U32, data: Page)
    requires DirsOk(pages, h, lay) && p < |pages| && !lay.owners[p].DirPage?
    ensures DirsOk(pages[p := data], h, lay)
  {
    var pages2 := pages[p := data];
    forall kind ensures DirOk(pages2, h, lay, kind) {
      var dir := lay.Of(kind);
      assert DirOk(pages, h, lay, kind);
      MapsFrame(pages, RootOf(h, kind), LenOf(h, kind), dir.chain, dir.ids, pages2);
    }
  }

  /** A write that spares the directory pages and the free pages keeps the layout. */
  lemma LayoutFrame(pages: seq<Page>, h: FileHeader, lay: Layout, p: U32, data: Page)
    requires LayoutOk(pages, h, lay) && p < |pages|
    requires !lay.owners[p].DirPage?
    requires forall i :: 0 <= i < |lay.free| && lay.free[i] < |lay.property.ids| ==> lay.property.ids[lay.free[i]] != p
    ensures LayoutOk(pages[p := data], h, lay)
  {
    var pages2 := pages[p := data];
    DirsFrame(pages, h, lay, p, data);
    forall i | 0 <= i < |lay.free| ensures FreeAt(pages2, lay.property.ids, lay.free, i) {
      assert FreeAt(pages, lay.property.ids, lay.free, i);
    }
  }

  // ---- Allocating a logical page ----

  datatype State = State(pages: seq<Page>, header: FileHeader, layout: Layout)

  predicate HasRoom(s: State) {
    |s.pages| + 1 < UNMAPPED
  }

  /** The directory of `kind` and the tail have room for a push. */
  lemma PushIsDefined(s: State, kind: Kind)
    requires LayoutOk(s.pages, s.header, s.layout) && HasRoom(s)
    ensures |s.layout.Of(kind).ids| == LenOf(s.header, kind) < UNMAPPED - 1
    ensures RootOf(s.header, kind) == NO_DIR_ROOT ==> LenOf(s.header, kind) == 0 && s.layout.Of(kind).chain == []
  {
    assert DirOk(s.pages, s.header, s.layout, kind);
    WalkEnds(s.pages, RootOf(s.header, kind), s.layout.Of(kind).chain);
  }

  /** Logical pages resolve to the ids of the layout. */
  lemma ResolveLogical(s: State, kind: Kind, logical: nat)
    requires DirsOk(s.pages, s.header, s.layout)
    ensures var ids := s.layout.Of(kind).ids;
      && Resolve(s.pages, RootOf(s.header, kind), LenOf(s.header, kind), logical)
         == Ok(if logical < |ids| then Some(ids[logical]) else None)
      && (logical < |ids| ==> ids[logical] < |s.pages|)
    ensures RootOf(s.header, kind) == NO_DIR_ROOT ==> LenOf(s.header, kind) == 0 && s.layout.Of(kind).chain == []
  {
    var dir := s.layout.Of(kind);
    assert DirOk(s.pages, s.header, s.layout, kind);
    ResolveFindsIds(s.pages, RootOf(s.header, kind), LenOf(s.header, kind), dir.chain, dir.ids, logical);
    WalkEnds(s.pages, RootOf(s.header, kind), dir.chain);
  }

  /** The directory is still there, and has room for a push, after a page has been appended. */
  lemma ChainFrame(s: State, kind: Kind, data: Page)
    requires LayoutOk(s.pages, s.header, s.layout) && HasRoom(s)
    ensures Maps(s.pages + [data], RootOf(s.header, kind), LenOf(s.header, kind), s.layout.Of(kind).chain, s.layout.Of(kind).ids)
    ensures Pushable(s.pages + [data], LenOf(s.header, kind), s.layout.Of(kind).chain)
  {
    var dir := s.layout.Of(kind);
    assert DirOk(s.pages, s.header, s.layout, kind);
    MapsFrame(s.pages, RootOf(s.header, kind), LenOf(s.header, kind), dir.chain, dir.ids, s.pages + [data]);
    if dir.chain != [] {
      assert LinkAt(s.pages, dir.chain, |dir.chain| - 1);
    }
  }

  /** A data page, and perhaps a directory page behind it, joined the tail. */
  ghost predicate TailGrew(owners: seq<Owner>, owners2: seq<Owner>, kind: Kind, dir: Dir, dir2: Dir) {
    && |owners| + 1 < UNMAPPED
    && dir2.ids == dir.ids + [|owners|]
    && (if dir2.chain == dir.chain then owners2 == owners + [DataPage(kind, |dir.ids|)]
        else && dir2.chain == dir.chain + [|owners| + 1]
             && owners2 == owners + [DataPage(kind, |dir.ids|), DirPage(kind, |dir.chain|)])
  }

  /** `t` is `s` after one push to the directory of `kind`. */
  ghost predicate Grew(s: State, t: State, kind: Kind, data: Page) {
    var dir, dir2 := s.layout.Of(kind), t.layout.Of(kind);
    && Maps(t.pages, RootOf(t.header, kind), LenOf(t.header, kind), dir2.chain, dir2.ids)
    && TailGrew(s.layout.owners, t.layout.owners, kind, dir, dir2)
    && |s.pages| == |s.layout.owners| && |t.pages| == |t.layout.owners|
    && t.pages[|s.pages|] == data
    && (forall p :: 0 <= p < |s.pages| && (dir.chain == [] || p != dir.chain[|dir.chain|-1]) ==> t.pages[p] == s.pages[p])
    && t.layout.free == s.layout.free
    && t.header.propertyFreeListHead == s.header.propertyFreeListHead
    && (forall k :: k != kind ==>
          && t.layout.Of(k) == s.layout.Of(k)
          && RootOf(t.header, k) == RootOf(s.header, k) && LenOf(t.header, k) == LenOf(s.header, k))
  }

  lemma TailOwned(owners: seq<Owner>, owners2: seq<Owner>, kind: Kind, dir: Dir, dir2: Dir)
    requires TailGrew(owners, owners2, kind, dir, dir2)
    ensures owners <= owners2
    ensures ChainOwned(owners, kind, dir.chain) ==> ChainOwned(owners2, kind, dir2.chain)
    ensures DataOwned(owners, kind, dir.ids) ==> DataOwned(owners2, kind, dir2.ids)
  {
  }

  lemma IdsFit(owners: seq<Owner>, owners2: seq<Owner>, kind: Kind, dir: Dir, dir2: Dir)
    requires TailGrew(owners, owners2, kind, dir, dir2) && |dir.ids| <= |owners|
    ensures |dir2.ids| <= |owners2|
  {
  }

  lemma KeptOwned(owners: seq<Owner>, owners2: seq<Owner>, kind: Kind, dir: Dir)
    requires owners <= owners2 && ChainOwned(owners, kind, dir.chain) && DataOwned(owners, kind, dir.ids)
    ensures ChainOwned(owners2, kind, dir.chain) && DataOwned(owners2, kind, dir.ids)
  {
  }

  lemma DirChanged(s: State, kind: Kind, root: U32, len: U32, dir: Dir, owners: seq<Owner>)
    ensures var lay := s.layout.With(kind, dir).(owners := owners);
      var h := WithDir(s.header, kind, root, len);
      && lay.Of(kind) == dir && lay.owners == owners && RootOf(h, kind) == root && LenOf(h, kind) == len
      && lay.free == s.layout.free && h.propertyFreeListHead == s.header.propertyFreeListHead
      && forall k :: k != kind ==> lay.Of(k) == s.layout.Of(k) && RootOf(h, k) == RootOf(s.header, k)
                                   && LenOf(h, k) == LenOf(s.header, k)
  {
  }

  /** Appending a data page and pushing its id. */
  lemma PushGrows(s: State, kind: Kind, data: Page, r: Pushed)
    requires LayoutOk(s.pages, s.header, s.layout) && HasRoom(s)
    requires var dir := s.layout.Of(kind);
      && Pushable(s.pages + [data], LenOf(s.header, kind), dir.chain)
      && r == Push(s.pages + [data], RootOf(s.header, kind), LenOf(s.header, kind), dir.chain, |s.pages|)
    ensures var dir := s.layout.Of(kind);
      && Maps(r.pages, r.root, LenOf(s.header, kind) + 1, r.chain, dir.ids + [|s.pages|])
      && (r.chain == dir.chain || r.chain == dir.chain + [|s.pages| + 1])
      && |r.pages| == |s.pages| + 1 + |r.chain| - |dir.chain|
      && r.pages[|s.pages|] == data
      && (forall p :: 0 <= p < |s.pages| && (dir.chain == [] || p != dir.chain[|dir.chain|-1]) ==> r.pages[p] == s.pages[p])
  {
    var dir, pages1 := s.layout.Of(kind), s.pages + [data];
    var root, len := RootOf(s.header, kind), LenOf(s.header, kind);
    assert DirOk(s.pages, s.header, s.layout, kind);
    MapsFrame(s.pages, root, len, dir.chain, dir.ids, pages1);
    PushMaps(pages1, root, len, dir.chain, dir.ids, |s.pages|);
    hide Maps, Push, LayoutOk;
    assert pages1[|s.pages|] == data;
  }

  ghost function OwnersAfter(owners: seq<Owner>, kind: Kind, dir: Dir, chain2: seq<U32>): seq<Owner> {
    owners + if chain2 == dir.chain then [DataPage(kind, |dir.ids|)]
             else [DataPage(kind, |dir.ids|), DirPage(kind, |dir.chain|)]
  }

  lemma PushedGrew(s: State, t: State, kind: Kind, data: Page, r: Pushed)
    requires LayoutOk(s.pages, s.header, s.layout) && HasRoom(s)
    requires var dir := s.layout.Of(kind);
      && Pushable(s.pages + [data], LenOf(s.header, kind), dir.chain)
      && LenOf(s.header, kind) + 1 < UNMAPPED
      && r == Push(s.pages + [data], RootOf(s.header, kind), LenOf(s.header, kind), dir.chain, |s.pages|)
      && t.pages == r.pages
      && t.header == WithDir(s.header, kind, r.root, LenOf(s.header, kind) + 1)
      && t.layout == s.layout.With(kind, Dir(r.chain, dir.ids + [|s.pages|])).(
                       owners := OwnersAfter(s.layout.owners, kind, dir, r.chain))
    ensures Grew(s, t, kind, data)
  {
    var dir := s.layout.Of(kind);
    PushGrows(s, kind, data, r);
    var owners2, dir2 := OwnersAfter(s.layout.owners, kind, dir, r.chain), Dir(r.chain, dir.ids + [|s.pages|]);
    DirChanged(s, kind, r.root, LenOf(s.header, kind) + 1, dir2, owners2);
    assert |s.pages| == |s.layout.owners|;
    hide Maps, Push, LayoutOk, RootOf, LenOf, WithDir, Layout.Of, Layout.With;
    assert TailGrew(s.layout.owners, owners2, kind, dir, dir2);
  }

  /** The pages that are not directory pages are as they were. */
  lemma GrewKeepsData(s: State, t: State, kind: Kind, data: Page)
    requires LayoutOk(s.pages, s.header, s.layout) && Grew(s, t, kind, data)
    ensures forall p :: 0 <= p < |s.pages| && !s.layout.owners[p].DirPage? ==> t.pages[p] == s.pages[p]
    ensures forall k, i :: k != kind && 0 <= i < |s.layout.Of(k).chain| && s.layout.Of(k).chain[i] < |s.pages| ==>
      t.pages[s.layout.Of(k).chain[i]] == s.pages[s.layout.Of(k).chain[i]]
  {
    hide Maps, FreeList;
    var chain := s.layout.Of(kind).chain;
    assert DirOk(s.pages, s.header, s.layout, kind);
    if chain != [] {
      assert s.layout.owners[chain[|chain|-1]] == DirPage(kind, |chain| - 1);
    }
    forall k, i | k != kind && 0 <= i < |s.layout.Of(k).chain| && s.layout.Of(k).chain[i] < |s.pages|
      ensures t.pages[s.layout.Of(k).chain[i]] == s.pages[s.layout.Of(k).chain[i]]
    {
      assert DirOk(s.pages, s.header, s.layout, k);
      assert s.layout.owners[s.layout.Of(k).chain[i]] == DirPage(k, i);
    }
  }

  /** An allocation keeps the layout and leaves every mapped page of every kind with its contents. */
  lemma GrewKeepsLayout(s: State, t: State, kind: Kind, data: Page)
    requires LayoutOk(s.pages, s.header, s.layout) && Grew(s, t, kind, data) && |t.pages| <= NO_FREE_PAGE
    ensures LayoutOk(t.pages, t.header, t.layout)
    ensures Preserves(s, t)
  {
    GrewKeepsData(s, t, kind, data);
    TailOwned(s.layout.owners, t.layout.owners, kind, s.layout.Of(kind), t.layout.Of(kind));
    hide Maps, FreeAt;
    forall k ensures DirOk(t.pages, t.header, t.layout, k) {
      OtherDir(s, t, kind, k, data);
    }
    assert DirOk(s.pages, s.header, s.layout, Property) && DirOk(t.pages, t.header, t.layout, Property);
    FreeListFrame(s.pages, s.layout.property.ids, s.header.propertyFreeListHead, s.layout.free, t.pages, t.layout.property.ids);
    forall k, i: nat ensures SamePage(s, t, k, i) {
      assert DirOk(s.pages, s.header, s.layout, k);
    }
  }

  lemma OtherDir(s: State, t: State, kind: Kind, k: Kind, data: Page)
    requires LayoutOk(s.pages, s.header, s.layout) && Grew(s, t, kind, data)
    ensures DirOk(t.pages, t.header, t.layout, k)
  {
    GrewKeepsData(s, t, kind, data);
    hide Maps, FreeList, RootOf, LenOf, Layout.Of, ChainOwned, DataOwned, TailGrew;
    assert DirOk(s.pages, s.header, s.layout, k) && DirOk(s.pages, s.header, s.layout, kind);
    TailOwned(s.layout.owners, t.layout.owners, kind, s.layout.Of(kind), t.layout.Of(kind));
    if k == kind {
      IdsFit(s.layout.owners, t.layout.owners, kind, s.layout.Of(kind), t.layout.Of(kind));
    } else {
      KeptOwned(s.layout.owners, t.layout.owners, k, s.layout.Of(k));
      MapsFrame(s.pages, RootOf(s.header, k), LenOf(s.header, k), s.layout.Of(k).chain, s.layout.Of(k).ids, t.pages);
    }
  }

  /** The free list depends on the free pages and their places only. */
  lemma FreeListFrame(pages: seq<Page>, ids: seq<U32>, head: U32, free: seq<nat>, pages2: seq<Page>, ids2: seq<U32>)
    requires FreeList(pages, ids, head, free) && ids <= ids2 && |pages| <= |pages2| && |ids2| <= NO_FREE_PAGE
    requires forall i :: 0 <= i < |free| && free[i] < |ids| && ids[free[i]] < |pages| ==> pages2[ids[free[i]]] == pages[ids[free[i]]]
    ensures FreeList(pages2, ids2, head, free)
  {
    forall i | 0 <= i < |free| ensures FreeAt(pages2, ids2, free, i) {
      assert FreeAt(pages, ids, free, i);
    }
  }

  /** Logical page `i`, if `s` maps it, is mapped to the same physical page in `t`. */
  ghost predicate SamePlace(s: State, t: State, kind: Kind, i: nat) {
    var ids, ids2 := s.layout.Of(kind).ids, t.layout.Of(kind).ids;
    i < |ids| ==> ids[i] < |s.pages| && i < |ids2| && ids2[i] == ids[i]
  }

  /** ... with the same contents. */
  ghost predicate SamePage(s: State, t: State, kind: Kind, i: nat) {
    var ids := s.layout.Of(kind).ids;
    SamePlace(s, t, kind, i) && (i < |ids| ==> ids[i] < |t.pages| && t.pages[ids[i]] == s.pages[ids[i]])
  }

  /** Every logical page of `s`, of every kind, is mapped to the same physical page in `t`, with the
      same contents. */
  ghost predicate Preserves(s: State, t: State) {
    forall k, i: nat :: SamePage(s, t, k, i)
  }

  /** Pages outside the directories, such as those of a stored schema, stay as they are. */
  ghost predicate SparesOther(s: State, t: State) {
    && |s.layout.owners| <= |t.layout.owners| && |s.pages| <= |t.pages|
    && forall p :: 0 <= p < |s.layout.owners| && p < |s.pages| && s.layout.owners[p].OtherPage? ==>
         t.layout.owners[p].OtherPage? && t.pages[p] == s.pages[p]
  }

  lemma SparesItself(s: State)
    ensures SparesOther(s, s)
  {
  }

  /** Property data pages are mapped to distinct physical pages. */
  lemma PropertyPagesDiffer(pages: seq<Page>, h: FileHeader, lay: Layout, i: nat, j: nat)
    requires DirsOk(pages, h, lay) && i < |lay.property.ids| && j < |lay.property.ids|
    ensures lay.property.ids[i] < |pages| && lay.owners[lay.property.ids[i]] == DataPage(Property, i)
    ensures i != j ==> lay.property.ids[i] != lay.property.ids[j]
  {
    assert DirOk(pages, h, lay, Property);
    assert lay.Of(Property).ids == lay.property.ids;
  }

  /** Like `Preserves`, for every logical page but one, whose contents are `data`. */
  ghost predicate PreservesOthers(s: State, t: State, kind: Kind, logical: nat, data: Page) {
    && |s.pages| <= |t.pages|
    && (forall k, i: nat :: SamePlace(s, t, k, i) && ((k, i) != (kind, logical) ==> SamePage(s, t, k, i)))
    && Holds(t, kind, logical, data)
  }

  ghost predicate Holds(s: State, kind: Kind, logical: nat, data: Page) {
    var ids := s.layout.Of(kind).ids;
    logical < |ids| && ids[logical] < |s.pages| && s.pages[ids[logical]] == data
  }

  /** Overwriting a data page keeps the directories and every other logical page. */
  lemma DirsWritten(s: State, kind: Kind, logical: nat, data: Page)
    requires DirsOk(s.pages, s.header, s.layout) && logical < |s.layout.Of(kind).ids|
    ensures var p := s.layout.Of(kind).ids[logical];
      && 0 < p < |s.pages|
      && DirsOk(s.pages[p := data], s.header, s.layout)
      && PreservesOthers(s, s.(pages := s.pages[p := data]), kind, logical, data)
      && SparesOther(s, s.(pages := s.pages[p := data]))
  {
    var p := s.layout.Of(kind).ids[logical];
    assert DirOk(s.pages, s.header, s.layout, kind);
    assert s.layout.owners[p] == DataPage(kind, logical);
    DirsFrame(s.pages, s.header, s.layout, p, data);
    forall k, i | 0 <= i < |s.layout.Of(k).ids|
      ensures s.layout.Of(k).ids[i] < |s.pages| && ((k, i) != (kind, logical) ==> s.layout.Of(k).ids[i] != p)
    {
      assert DirOk(s.pages, s.header, s.layout, k);
      assert s.layout.owners[s.layout.Of(k).ids[i]] == DataPage(k, i);
    }
  }

  /** The whole layout is kept as well, unless the page is a free one. */
  lemma DataWritten(s: State, kind: Kind, logical: nat, data: Page)
    requires LayoutOk(s.pages, s.header, s.layout) && logical < |s.layout.Of(kind).ids|
    requires kind == Property ==> logical !in s.layout.free
    ensures s.layout.Of(kind).ids[logical] < |s.pages|
    ensures LayoutOk(s.pages[s.layout.Of(kind).ids[logical] := data], s.header, s.layout)
  {
    var p := s.layout.Of(kind).ids[logical];
    assert DirOk(s.pages, s.header, s.layout, kind);
    assert s.layout.owners[p] == DataPage(kind, logical);
    forall i | 0 <= i < |s.layout.free| && s.layout.free[i] < |s.layout.property.ids|
      ensures s.layout.property.ids[s.layout.free[i]] != p
    {
      PropertyPagesDiffer(s.pages, s.header, s.layout, s.layout.free[i], s.layout.free[i]);
    }
    LayoutFrame(s.pages, s.header, s.layout, p, data);
  }

  /** Page 0 belongs to no directory. */
  lemma HeaderSpares(s: State, image: Page)
    requires DirsOk(s.pages, s.header, s.layout)
    ensures DirsOk(s.pages[0 := image], s.header, s.layout)
    ensures Preserves(s, s.(pages := s.pages[0 := image])) && SparesOther(s, s.(pages := s.pages[0 := image]))
  {
    DirsFrame(s.pages, s.header, s.layout, 0, image);
    forall k, i | 0 <= i < |s.layout.Of(k).ids| ensures 0 < s.layout.Of(k).ids[i] < |s.pages| {
      PagesAreDisjoint(s.pages, s.header, s.layout, k, k, i, 0);
      assert DirOk(s.pages, s.header, s.layout, k);
    }
  }

  lemma HeaderWritten(s: State, image: Page)
    requires LayoutOk(s.pages, s.header, s.layout)
    ensures LayoutOk(s.pages[0 := image], s.header, s.layout)
    ensures Preserves(s, s.(pages := s.pages[0 := image]))
  {
    forall i | 0 <= i < |s.layout.free| && s.layout.free[i] < |s.layout.property.ids|
      ensures s.layout.property.ids[s.layout.free[i]] != 0
    {
      PagesAreDisjoint(s.pages, s.header, s.layout, Property, Property, s.layout.free[i], 0);
      assert s.layout.Of(Property) == s.layout.property;
    }
    LayoutFrame(s.pages, s.header, s.layout, 0, image);
    HeaderSpares(s, image);
  }

  /** Neither the push nor the header write comes near the other pages. */
  lemma AllocationSpares(s: State, t: State, kind: Kind, data: Page, image: Page)
    requires LayoutOk(s.pages, s.header, s.layout) && Grew(s, t, kind, data)
    ensures SparesOther(s, t.(pages := t.pages[0 := image]))
  {
    GrewKeepsData(s, t, kind, data);
    TailOwned(s.layout.owners, t.layout.owners, kind, s.layout.Of(kind), t.layout.Of(kind));
    hide Maps, FreeList;
  }

  /** A push followed by the header write. */
  lemma AllocationPreserves(s: State, t: State, kind: Kind, data: Page, image: Page)
    requires LayoutOk(s.pages, s.header, s.layout) && Grew(s, t, kind, data) && |t.pages| <= NO_FREE_PAGE
    ensures LayoutOk(t.pages[0 := image], t.header, t.layout)
    ensures Preserves(s, t.(pages := t.pages[0 := image]))
    ensures |s.pages| < |t.pages| && t.pages[0 := image][|s.pages|] == data
    ensures t.layout.Of(kind).ids == s.layout.Of(kind).ids + [|s.pages|]
  {
    var t2 := t.(pages := t.pages[0 := image]);
    GrewKeepsLayout(s, t, kind, data);
    HeaderWritten(t, image);
    hide LayoutOk, Maps, FreeList;
    forall k, i: nat ensures SamePage(s, t2, k, i) {
      assert SamePage(s, t, k, i) && SamePage(t, t2, k, i);
    }
  }

  /** Appending a page that belongs to no directory. */
  lemma OtherAppended(s: State, data: Page)
    requires LayoutOk(s.pages, s.header, s.layout) && |s.pages| < NO_FREE_PAGE
    ensures var t := State(s.pages + [data], s.header, s.layout.(owners := s.layout.owners + [OtherPage]));
      LayoutOk(t.pages, t.header, t.layout) && Preserves(s, t)
  {
    var lay2 := s.layout.(owners := s.layout.owners + [OtherPage]);
    var t := State(s.pages + [data], s.header, lay2);
    forall k ensures DirOk(t.pages, t.header, lay2, k) {
      var dir := s.layout.Of(k);
      assert DirOk(s.pages, s.header, s.layout, k) && lay2.Of(k) == dir;
      KeptOwned(s.layout.owners, lay2.owners, k, dir);
      MapsFrame(s.pages, RootOf(s.header, k), LenOf(s.header, k), dir.chain, dir.ids, t.pages);
    }
    hide Maps, FreeAt;
    FreeListFrame(s.pages, s.layout.property.ids, s.header.propertyFreeListHead, s.layout.free, t.pages, s.layout.property.ids);
    forall k, i: nat ensures SamePage(s, t, k, i) {
      assert DirOk(s.pages, s.header, s.layout, k) && lay2.Of(k) == s.layout.Of(k);
    }
  }

  lemma PreservesThen(s: State, t: State, u: State)
    requires Preserves(s, t) && Preserves(t, u)
    ensures Preserves(s, u)
  {
    forall k, i: nat ensures SamePage(s, u, k, i) {
      assert SamePage(s, t, k, i) && SamePage(t, u, k, i);
    }
  }

  /** Storing a header that names the same directories and free list. */
  lemma HeaderStored(s: State, h: FileHeader)
    requires LayoutOk(s.pages, s.header, s.layout)
    requires forall k :: RootOf(h, k) == RootOf(s.header, k) && LenOf(h, k) == LenOf(s.header, k)
    requires h.propertyFreeListHead == s.header.propertyFreeListHead
    ensures LayoutOk(s.pages[0 := Serialize(h)], h, s.layout)
    ensures Preserves(s, State(s.pages[0 := Serialize(h)], h, s.layout))
  {
    HeaderFrame(s.pages, s.header, s.layout, h, s.layout.free);
    HeaderPreserves(s, State(s.pages, h, s.layout));
  }

  // ---- Freeing and reusing property pages ----

  /** A logical property page is live when it is mapped and not on the free list. */
  predicate Live(lay: Layout, logical: nat) {
    logical < |lay.property.ids| && logical !in lay.free
  }

  /** Freeing a live page pushes it on the list; the other pages keep their contents. */
  lemma FreedKeepsLayout(s: State, logical: nat)
    requires LayoutOk(s.pages, s.header, s.layout) && Live(s.layout, logical)
    ensures s.layout.property.ids[logical] < |s.pages| && logical < NO_FREE_PAGE
    ensures LayoutOk(s.pages[s.layout.property.ids[logical] := FreeImage(s.header.propertyFreeListHead)],
                     s.header.(propertyFreeListHead := logical), s.layout.(free := [logical] + s.layout.free))
  {
    var ids, free := s.layout.property.ids, s.layout.free;
    PropertyPagesDiffer(s.pages, s.header, s.layout, logical, logical);
    var p, image := ids[logical], FreeImage(s.header.propertyFreeListHead);
    var pages2, free2 := s.pages[p := image], [logical] + free;
    forall i | 0 <= i < |free| ensures free[i] < |ids| && ids[free[i]] != p {
      assert FreeAt(s.pages, ids, free, i);
      PropertyPagesDiffer(s.pages, s.header, s.layout, free[i], logical);
    }
    LayoutFrame(s.pages, s.header, s.layout, p, image);
    FreeImageReads(s.header.propertyFreeListHead);
    forall i | 0 <= i < |free2| ensures FreeAt(pages2, ids, free2, i) {
      if i == 0 {
        assert free2[1..] == free;
      } else {
        assert FreeAt(pages2, ids, free, i - 1);
        assert free2[i+1..] == free[i..];
      }
    }
    HeaderFrame(pages2, s.header, s.layout, s.header.(propertyFreeListHead := logical), free2);
  }

  /** The directories do not depend on the rest of the header. */
  lemma HeaderFrame(pages: seq<Page>, h: FileHeader, lay: Layout, h2: FileHeader, free2: seq<nat>)
    requires LayoutOk(pages, h, lay)
    requires forall k :: RootOf(h2, k) == RootOf(h, k) && LenOf(h2, k) == LenOf(h, k)
    requires FreeList(pages, lay.property.ids, h2.propertyFreeListHead, free2)
    ensures LayoutOk(pages, h2, lay.(free := free2))
  {
    var lay2 := lay.(free := free2);
    forall k ensures DirOk(pages, h2, lay2, k) {
      assert DirOk(pages, h, lay, k);
      assert lay2.Of(k) == lay.Of(k);
    }
  }

  /** Reusing the head of the list: the page keeps its number and its place, and takes new contents. */
  lemma PoppedKeepsLayout(s: State, data: Page)
    requires LayoutOk(s.pages, s.header, s.layout) && s.layout.free != []
    ensures var logical := s.layout.free[0];
      && logical < |s.layout.property.ids| && s.layout.property.ids[logical] < |s.pages|
      && s.header.propertyFreeListHead == logical
      && var image := s.pages[s.layout.property.ids[logical]];
         && IsMarked(image)
         && LayoutOk(s.pages, s.header.(propertyFreeListHead := NextFree(image)), s.layout.(free := s.layout.free[1..]))
         && LayoutOk(s.pages[s.layout.property.ids[logical] := data],
                     s.header.(propertyFreeListHead := NextFree(image)), s.layout.(free := s.layout.free[1..]))
  {
    var ids, free := s.layout.property.ids, s.layout.free;
    assert FreeAt(s.pages, ids, free, 0);
    var logical, rest := free[0], free[1..];
    var p, h2 := ids[logical], s.header.(propertyFreeListHead := NextFree(s.pages[ids[logical]]));
    forall i | 0 <= i < |rest| ensures FreeAt(s.pages, ids, rest, i) {
      assert FreeAt(s.pages, ids, free, i + 1);
      assert rest[i+1..] == free[i+2..];
    }
    HeaderFrame(s.pages, s.header, s.layout, h2, rest);
    forall i | 0 <= i < |rest| && rest[i] < |ids| ensures ids[rest[i]] != p {
      FreeListIsAcyclic(s.pages, ids, s.header.propertyFreeListHead, free, 0, i + 1);
      PropertyPagesDiffer(s.pages, s.header, s.layout, rest[i], logical);
    }
    PropertyPagesDiffer(s.pages, s.header, s.layout, logical, logical);
    LayoutFrame(s.pages, h2, s.layout.(free := rest), p, data);
  }

  /** A write of one logical page followed by the header write. */
  lemma OthersThenHeader(s: State, s1: State, t: State, kind: Kind, logical: nat, data: Page)
    requires DirsOk(s1.pages, s1.header, s1.layout)
    requires PreservesOthers(s, s1, kind, logical, data)
    requires t.pages == s1.pages && forall k :: t.layout.Of(k) == s1.layout.Of(k)
    ensures PreservesOthers(s, t.(pages := t.pages[0 := Serialize(t.header)]), kind, logical, data)
  {
    var t2 := s1.(pages := t.pages[0 := Serialize(t.header)]);
    HeaderSpares(s1, Serialize(t.header));
    hide DirsOk, Serialize;
    forall k, i: nat ensures SamePlace(s, t2, k, i) && ((k, i) != (kind, logical) ==> SamePage(s, t2, k, i)) {
      assert SamePlace(s, s1, k, i) && SamePage(s1, t2, k, i);
      assert (k, i) != (kind, logical) ==> SamePage(s, s1, k, i);
    }
    assert SamePage(s1, t2, kind, logical);
    SameData(s, t2, t.(pages := t.pages[0 := Serialize(t.header)]), kind, logical, data);
  }

  /** Nothing of this depends on more than the pages and the data pages of the directories. */
  lemma SameData(s: State, t: State, u: State, kind: Kind, logical: nat, data: Page)
    requires PreservesOthers(s, t, kind, logical, data)
    requires u.pages == t.pages && forall k :: u.layout.Of(k) == t.layout.Of(k)
    ensures PreservesOthers(s, u, kind, logical, data)
  {
    forall k, i: nat ensures SamePlace(s, u, k, i) && ((k, i) != (kind, logical) ==> SamePage(s, u, k, i)) {
      assert SamePlace(s, t, k, i) && ((k, i) != (kind, logical) ==> SamePage(s, t, k, i));
    }
  }

  /** The header page can be rewritten with another free-list head. */
  lemma HeadWritten(s: State, head: U32, free: seq<nat>)
    requires DirsOk(s.pages, s.header, s.layout)
    ensures DirsOk(s.pages[0 := Serialize(s.header.(propertyFreeListHead := head))],
                   s.header.(propertyFreeListHead := head), s.layout.(free := free))
  {
    var h2, lay2 := s.header.(propertyFreeListHead := head), s.layout.(free := free);
    var pages2 := s.pages[0 := Serialize(h2)];
    forall k ensures DirOk(pages2, h2, lay2, k) {
      assert DirOk(s.pages, s.header, s.layout, k);
      assert lay2.Of(k) == s.layout.Of(k);
      MapsFrame(s.pages, RootOf(s.header, k), LenOf(s.header, k), lay2.Of(k).chain, lay2.Of(k).ids, pages2);
    }
  }

  /** A change of the header only, written to page 0. */
  lemma HeaderPreserves(s: State, t: State)
    requires LayoutOk(t.pages, t.header, t.layout) && t.pages == s.pages && forall k :: t.layout.Of(k) == s.layout.Of(k)
    ensures LayoutOk(t.pages[0 := Serialize(t.header)], t.header, t.layout)
    ensures Preserves(s, t.(pages := t.pages[0 := Serialize(t.header)]))
  {
    var t2 := t.(pages := t.pages[0 := Serialize(t.header)]);
    HeaderWritten(t, Serialize(t.header));
    hide LayoutOk, Serialize;
    forall k, i: nat ensures SamePage(s, t2, k, i) {
      assert SamePage(t, t2, k, i);
    }
  }

  lemma PreservesThenOthers(s: State, s1: State, t: State, kind: Kind, logical: nat, data: Page)
    requires Preserves(s, s1) && |s.pages| <= |s1.pages| && PreservesOthers(s1, t, kind, logical, data)
    ensures PreservesOthers(s, t, kind, logical, data)
  {
    forall k, i: nat ensures SamePlace(s, t, k, i) && ((k, i) != (kind, logical) ==> SamePage(s, t, k, i)) {
      assert SamePage(s, s1, k, i) && SamePlace(s1, t, k, i);
      assert (k, i) != (kind, logical) ==> SamePage(s1, t, k, i);
    }
  }

  lemma PreservesAndMaps(s: State, t: State, kind: Kind, data: Page)
    requires Preserves(s, t) && |s.pages| < |t.pages| && t.pages[|s.pages|] == data
    requires t.layout.Of(kind).ids == s.layout.Of(kind).ids + [|s.pages|] && |s.pages| < NO_FREE_PAGE
    ensures PreservesOthers(s, t, kind, |s.layout.Of(kind).ids|, data)
  {
    forall k, i: nat ensures SamePlace(s, t, k, i) {
      assert SamePage(s, t, k, i);
    }
  }

  /** The header knows whether the free list is empty; its head is mapped and listed once. */
  lemma HeadOfList(s: State)
    requires LayoutOk(s.pages, s.header, s.layout)
    ensures s.layout.free == [] <==> s.header.propertyFreeListHead == NO_FREE_PAGE
    ensures s.layout.free != [] ==> s.header.propertyFreeListHead == s.layout.free[0] && s.layout.free[0] !in s.layout.free[1..]
  {
    if s.layout.free != [] {
      assert FreeAt(s.pages, s.layout.property.ids, s.layout.free, 0);
      forall j | 0 <= j < |s.layout.free| - 1 ensures s.layout.free[1..][j] != s.layout.free[0] {
        FreeListIsAcyclic(s.pages, s.layout.property.ids, s.header.propertyFreeListHead, s.layout.free, 0, j + 1);
      }
    }
  }

  /** The list found behind a page that was freed while it stood on the list runs back along it. */
  lemma {:induction false} RunsAlong(pages: seq<Page>, ids: seq<U32>, head: U32, free: seq<nat>, m: nat, free2: seq<nat>, k: nat)
    requires FreeList(pages, ids, head, free) && k <= m < |free| && DifferentPages(ids)
    requires free[m] < |ids| && ids[free[m]] < |pages| && FreeList(pages[ids[free[m]] := FreeImage(head)], ids, free[m], free2)
    ensures k + 1 < |free2| && free2[k+1] == free[k]
  {
    var logical := free[m];
    var pages2 := pages[ids[logical] := FreeImage(head)];
    FreeImageReads(head);
    if k == 0 {
      assert FreeAt(pages2, ids, free2, 0) && FreeAt(pages, ids, free, 0);
      assert free2[1..] != [] ==> free2[1..][0] == free2[1];
    } else {
      RunsAlong(pages, ids, head, free, m, free2, k - 1);
      FreeListIsAcyclic(pages, ids, head, free, k - 1, m);
      assert FreeAt(pages, ids, free, k - 1) && FreeAt(pages2, ids, free2, k) && FreeAt(pages, ids, free, k);
      assert free[k-1+1..][0] == free[k];
      assert free2[k+1..] != [] ==> free2[k+1..][0] == free2[k+1];
    }
  }

  predicate DifferentPages(ids: seq<U32>) {
    forall i, j :: 0 <= i < |ids| && 0 <= j < |ids| && i != j ==> ids[i] != ids[j]
  }

  /** Some list has this head. */
  ghost predicate HasFreeList(pages: seq<Page>, ids: seq<U32>, head: U32) {
    exists free :: FreeList(pages, ids, head, free)
  }

  ghost predicate HasLayout(pages: seq<Page>, h: FileHeader, lay: Layout) {
    exists free :: LayoutOk(pages, h, lay.(free := free))
  }

  /** After a mapped page has been freed there is a list from it on exactly when it was live: a page freed
      while it stands on the list, at whatever place, makes the links run in a circle. */
  lemma FreeingKeepsListIff(pages: seq<Page>, ids: seq<U32>, head: U32, free: seq<nat>, logical: nat)
    requires FreeList(pages, ids, head, free) && DifferentPages(ids)
    requires logical < |ids| && ids[logical] < |pages|
    ensures HasFreeList(pages[ids[logical] := FreeImage(head)], ids, logical) <==> logical !in free
  {
    var pages2 := pages[ids[logical] := FreeImage(head)];
    FreeImageReads(head);
    if logical in free {
      var m :| 0 <= m < |free| && free[m] == logical;
      forall free2 ensures !FreeList(pages2, ids, logical, free2) {
        if FreeList(pages2, ids, logical, free2) {
          RunsAlong(pages, ids, head, free, m, free2, m);
          FreeListIsAcyclic(pages2, ids, logical, free2, 0, m + 1);
        }
      }
    } else {
      var free2 := [logical] + free;
      forall i | 0 <= i < |free2| ensures FreeAt(pages2, ids, free2, i) {
        if i == 0 {
          assert free2[1..] == free;
        } else {
          assert FreeAt(pages, ids, free, i - 1);
          assert free2[i+1..] == free[i..];
        }
      }
      assert FreeList(pages2, ids, logical, free2);
    }
  }

  /** The same of a whole file. */
  lemma FreeingKeepsLayoutIff(s: State, logical: nat)
    requires LayoutOk(s.pages, s.header, s.layout) && logical < |s.layout.property.ids|
    ensures logical < NO_FREE_PAGE && s.layout.property.ids[logical] < |s.pages|
    ensures HasLayout(s.pages[s.layout.property.ids[logical] := FreeImage(s.header.propertyFreeListHead)],
                      s.header.(propertyFreeListHead := logical), s.layout)
      <==> logical !in s.layout.free
  {
    var ids := s.layout.property.ids;
    forall i, j | 0 <= i < |ids| && 0 <= j < |ids| && i != j ensures ids[i] != ids[j] {
      PropertyPagesDiffer(s.pages, s.header, s.layout, i, j);
    }
    PropertyPagesDiffer(s.pages, s.header, s.layout, logical, logical);
    FreeingKeepsListIff(s.pages, ids, s.header.propertyFreeListHead, s.layout.free, logical);
    if logical !in s.layout.free {
      FreedKeepsLayout(s, logical);
    }
  }

  lemma LogicalIsU32(s: State, logical: nat)
    requires DirsOk(s.pages, s.header, s.layout) && logical < |s.layout.property.ids|
    ensures logical < NO_FREE_PAGE && s.layout.property.ids[logical] < |s.pages|
  {
    PropertyPagesDiffer(s.pages, s.header, s.layout, logical, logical);
    assert DirOk(s.pages, s.header, s.layout, Property) && s.layout.Of(Property) == s.layout.property;
  }

  /** The header page has no part in the list. */
  lemma HeaderAside(pages: seq<Page>, h: FileHeader, lay: Layout, image: Page)
    requires 1 <= |pages|
    ensures LayoutOk(pages[0 := image], h, lay) <==> LayoutOk(pages, h, lay)
  {
    if LayoutOk(pages, h, lay) {
      HeaderWritten(State(pages, h, lay), image);
    }
    if LayoutOk(pages[0 := image], h, lay) {
      HeaderWritten(State(pages[0 := image], h, lay), pages[0]);
      assert pages[0 := image][0 := pages[0]] == pages;
    }
  }

  /** What freeing leaves, once the header has been written. */
  lemma FreedLayouts(s: State, logical: nat)
    requires LayoutOk(s.pages, s.header, s.layout) && logical < |s.layout.property.ids|
    ensures logical < NO_FREE_PAGE && s.layout.property.ids[logical] < |s.pages|
    ensures var h2 := s.header.(propertyFreeListHead := logical);
      var pages3 := s.pages[s.layout.property.ids[logical] := FreeImage(s.header.propertyFreeListHead)][0 := Serialize(h2)];
      && (HasLayout(pages3, h2, s.layout) <==> logical !in s.layout.free)
      && (LayoutOk(pages3, h2, s.layout.(free := [logical] + s.layout.free)) <==> logical !in s.layout.free)
  {
    FreeingKeepsLayoutIff(s, logical);
    if logical !in s.layout.free {
      FreedKeepsLayout(s, logical);
    }
    hide LayoutOk, Serialize;
    var h2 := s.header.(propertyFreeListHead := logical);
    var pages2 := s.pages[s.layout.property.ids[logical] := FreeImage(s.header.propertyFreeListHead)];
    forall free: seq<nat>
      ensures LayoutOk(pages2[0 := Serialize(h2)], h2, s.layout.(free := free)) <==> LayoutOk(pages2, h2, s.layout.(free := free))
    {
      HeaderAside(pages2, h2, s.layout.(free := free), Serialize(h2));
    }
  }

  // ---- Live and free pages over a run ----

  /** The property directory as an allocator: its mapped length and its free list. */
  datatype Space = Space(len: nat, free: seq<nat>) {
    function Live(): int {
      len - |free|
    }
  }

  datatype SpaceOp = AllocOp | FreeOp(logical: nat)

  /** Freeing a page that is free already, which no caller does, is left out: it breaks the list. */
  function SpaceStep(s: Space, op: SpaceOp): Space {
    match op
    case AllocOp => if s.free == [] then Space(s.len + 1, []) else Space(s.len, s.free[1..])
    case FreeOp(l) => if l < s.len && l !in s.free then Space(s.len, [l] + s.free) else s
  }

  function SpaceRun(s: Space, ops: seq<SpaceOp>): Space
    decreases |ops|
  {
    if ops == [] then s else SpaceRun(SpaceStep(s, ops[0]), ops[1..])
  }

  /** The largest number of simultaneously live pages along the run. */
  function HighWater(s: Space, ops: seq<SpaceOp>): int
    decreases |ops|
  {
    if ops == [] then s.Live()
    else
      var rest := HighWater(SpaceStep(s, ops[0]), ops[1..]);
      if s.Live() < rest then rest else s.Live()
  }

  /** Without rollbacks the directory maps exactly as many pages as were ever live at once, or as many
      as it started with: no page is appended while a freed one is left. */
  lemma {:induction false} MappedIsHighWater(s: Space, ops: seq<SpaceOp>)
    ensures SpaceRun(s, ops).len == if HighWater(s, ops) < s.len then s.len else HighWater(s, ops)
    ensures s == Space(0, []) ==> SpaceRun(s, ops).len == HighWater(s, ops)
    decreases |ops|
  {
    HighWaterAtLeast(s, ops);
    if ops != [] {
      MappedIsHighWater(SpaceStep(s, ops[0]), ops[1..]);
      HighWaterAtLeast(SpaceStep(s, ops[0]), ops[1..]);
    }
  }

  lemma HighWaterAtLeast(s: Space, ops: seq<SpaceOp>)
    ensures s.Live() <= HighWater(s, ops)
    ensures s.Live() <= s.len
  {
  }
}
