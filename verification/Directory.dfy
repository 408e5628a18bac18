/**
 * Page directories as values (chiffondb-core/src/storage/page_directory.rs): a chain of directory
 * pages, each a link word followed by 1023 entry words, stands for a sequence of physical page ids.
 */
module Directory {
  import opened Types
  import opened Header

  /** No entry, and the end of a chain. */
  const UNMAPPED: U32 := 0xFFFF_FFFF

  const ENTRIES_PER_DIR_PAGE := (PAGE_SIZE - 4) / 4

  /** The directory page of a logical page, by its place in the chain. */
  function PageOf(logical: nat): nat {
    logical / ENTRIES_PER_DIR_PAGE
  }

  /** Its entry in that page. */
  function SlotOf(logical: nat): (slot: nat)
    ensures slot < ENTRIES_PER_DIR_PAGE
  {
    logical % ENTRIES_PER_DIR_PAGE
  }

  function ReadLink(page: Page): U32 {
    WordAt(page, 0)
  }

  function EntryOffset(slot: nat): nat {
    4 + slot * 4
  }

  function ReadEntry(page: Page, slot: nat): U32
    requires slot < ENTRIES_PER_DIR_PAGE
  {
    WordAt(page, EntryOffset(slot))
  }

  function WriteLink(page: Page, pid: U32): Page {
    PutWord(page, 0, pid)
  }

  function WriteEntry(page: Page, slot: nat, physical: U32): Page
    requires slot < ENTRIES_PER_DIR_PAGE
  {
    PutWord(page, EntryOffset(slot), physical)
  }

  lemma WriteEntryReads(page: Page, slot: nat, physical: U32, other: nat)
    requires slot < ENTRIES_PER_DIR_PAGE && other < ENTRIES_PER_DIR_PAGE
    ensures ReadEntry(WriteEntry(page, slot, physical), other) == if other == slot then physical else ReadEntry(page, other)
    ensures ReadLink(WriteEntry(page, slot, physical)) == ReadLink(page)
  {
    PutWordReads(page, EntryOffset(slot), physical, EntryOffset(other));
    PutWordReads(page, EntryOffset(slot), physical, 0);
  }

  lemma WriteLinkReads(page: Page, pid: U32, slot: nat)
    requires slot < ENTRIES_PER_DIR_PAGE
    ensures ReadLink(WriteLink(page, pid)) == pid
    ensures ReadEntry(WriteLink(page, pid), slot) == ReadEntry(page, slot)
  {
    PutWordReads(page, 0, pid, EntryOffset(slot));
  }

  /** Where the words stand: the link first, then 1023 entries; logical pages fill them in order. */
  lemma DirectoryFormat(page: Page, slot: nat, x: U32, logical: nat)
    requires slot < ENTRIES_PER_DIR_PAGE
    ensures ENTRIES_PER_DIR_PAGE == 1023 && UNMAPPED == 0xFFFF_FFFF
    ensures StoresAt(WriteLink(page, x), 0, x) && StoresAt(WriteEntry(page, slot, x), 4 + 4 * slot, x)
    ensures PageOf(logical) * 1023 + SlotOf(logical) == logical
    ensures StoresAt(BLANK, 0, UNMAPPED) && StoresAt(BLANK, 4 + 4 * slot, UNMAPPED)
  {
    BlankWord(0);
    BlankWord(4 + 4 * slot);
    hide PutWord, WordAt, StoresAt, AllOnes;
    PutWordReads(page, 0, x, 0);
    PutWordReads(page, EntryOffset(slot), x, 0);
    WordIsStored(WriteLink(page, x), 0);
    WordIsStored(WriteEntry(page, slot, x), EntryOffset(slot));
  }

  lemma BlankWord(off: nat)
    requires off + 4 <= PAGE_SIZE
    ensures StoresAt(BLANK, off, UNMAPPED)
  {
  }

  // ---- What a reader of the chain finds ----

  /** The `k`-th directory page of the chain, as the walk over the links finds it. */
  function NthPage(pages: seq<Page>, root: U32, k: nat): Result<Option<U32>> {
    if root == UNMAPPED then Ok(None)
    else if k == 0 then Ok(Some(root))
    else
      match NthPage(pages, root, k - 1)
      case Err(e) => Err(e)
      case Ok(None) => Ok(None)
      case Ok(Some(pid)) =>
        if |pages| <= pid then Err(IoError)
        else if ReadLink(pages[pid]) == UNMAPPED then Ok(None)
        else Ok(Some(ReadLink(pages[pid])))
  }

  /** The physical page of a logical one; `None` beyond the mapped length or for an unmapped entry. */
  function Resolve(pages: seq<Page>, root: U32, len: nat, logical: nat): Result<Option<U32>> {
    if len <= logical then Ok(None)
    else
      match NthPage(pages, root, PageOf(logical))
      case Err(e) => Err(e)
      case Ok(None) => Ok(None)
      case Ok(Some(pid)) =>
        if |pages| <= pid then Err(IoError)
        else
          var physical := ReadEntry(pages[pid], SlotOf(logical));
          Ok(if physical == UNMAPPED then None else Some(physical))
  }

  /** A walk that ends or fails at page `k` has the same outcome for every page behind it. */
  lemma {:induction false} WalkStops(pages: seq<Page>, root: U32, k: nat, n: nat)
    requires k < n
    ensures !(NthPage(pages, root, k + 1).Ok? && NthPage(pages, root, k + 1).value.Some?) ==>
      NthPage(pages, root, n) == NthPage(pages, root, k + 1)
    decreases n
  {
    if k + 1 < n {
      WalkStops(pages, root, k, n - 1);
    }
  }

  // ---- The sequence a directory stands for ----

  /** Directory page `i` of the chain exists and links to the next one. */
  ghost predicate LinkAt(pages: seq<Page>, chain: seq<U32>, i: nat)
    requires i < |chain|
  {
    && chain[i] < |pages| && chain[i] != UNMAPPED
    && ReadLink(pages[chain[i]]) == if i == |chain| - 1 then UNMAPPED else chain[i+1]
  }

  /** Logical page `i` is recorded in its slot of its directory page. */
  ghost predicate EntryAt(pages: seq<Page>, chain: seq<U32>, ids: seq<U32>, i: nat)
    requires i < |ids|
  {
    var k := PageOf(i);
    && ids[i] != UNMAPPED
    && k < |chain| && chain[k] < |pages|
    && ReadEntry(pages[chain[k]], SlotOf(i)) == ids[i]
  }

  ghost predicate IsChain(pages: seq<Page>, root: U32, chain: seq<U32>) {
    && root == (if chain == [] then UNMAPPED else chain[0])
    && forall i :: 0 <= i < |chain| ==> LinkAt(pages, chain, i)
  }

  ghost predicate Maps(pages: seq<Page>, root: U32, len: nat, chain: seq<U32>, ids: seq<U32>) {
    && IsChain(pages, root, chain)
    && |ids| == len <= |chain| * ENTRIES_PER_DIR_PAGE
    && (chain != [] ==> (|chain| - 1) * ENTRIES_PER_DIR_PAGE <= len)
    && forall i :: 0 <= i < len ==> EntryAt(pages, chain, ids, i)
  }

  lemma {:induction false} ChainWalk(pages: seq<Page>, root: U32, chain: seq<U32>, k: nat)
    requires IsChain(pages, root, chain) && k <= |chain|
    ensures NthPage(pages, root, k) == Ok(if k < |chain| then Some(chain[k]) else None)
  {
    if chain != [] {
      assert LinkAt(pages, chain, 0);
    }
    if k > 0 {
      ChainWalk(pages, root, chain, k - 1);
      assert LinkAt(pages, chain, k - 1);
      assert k < |chain| ==> LinkAt(pages, chain, k);
    }
  }

  /** `Resolve` gives the `i`-th pushed id below the mapped length, and nothing beyond. */
  lemma ResolveFindsIds(pages: seq<Page>, root: U32, len: nat, chain: seq<U32>, ids: seq<U32>, logical: nat)
    requires Maps(pages, root, len, chain, ids)
    ensures Resolve(pages, root, len, logical) == Ok(if logical < len then Some(ids[logical]) else None)
  {
    if logical < len {
      assert EntryAt(pages, chain, ids, logical);
      ChainWalk(pages, root, chain, PageOf(logical));
    }
  }

  /** The links of a chain that ends cannot revisit a page. */
  lemma {:induction false} ChainIsAcyclic(pages: seq<Page>, root: U32, chain: seq<U32>, i: nat, j: nat)
    requires IsChain(pages, root, chain) && i < j < |chain|
    ensures chain[i] != chain[j]
    decreases |chain| - j
  {
    assert LinkAt(pages, chain, i) && LinkAt(pages, chain, j) && LinkAt(pages, chain, i + 1);
    if j < |chain| - 1 {
      ChainIsAcyclic(pages, root, chain, i + 1, j + 1);
    }
  }

  /** The root and the length alone determine the sequence, so that a directory rebuilt from them
      after reopening is the same directory. */
  lemma RootDetermines(pages: seq<Page>, root: U32, len: nat,
                       chain: seq<U32>, ids: seq<U32>, chain2: seq<U32>, ids2: seq<U32>)
    requires Maps(pages, root, len, chain, ids) && Maps(pages, root, len, chain2, ids2)
    ensures ids == ids2 && chain == chain2
  {
    forall i | 0 <= i < len ensures ids[i] == ids2[i] {
      ResolveFindsIds(pages, root, len, chain, ids, i);
      ResolveFindsIds(pages, root, len, chain2, ids2, i);
    }
    var n := if |chain| <= |chain2| then |chain| else |chain2|;
    ChainWalk(pages, root, chain, n);
    ChainWalk(pages, root, chain2, n);
    forall k | 0 <= k < n ensures chain[k] == chain2[k] {
      ChainWalk(pages, root, chain, k);
      ChainWalk(pages, root, chain2, k);
    }
  }

  // ---- Changes to the pages ----

  /** The directory depends on the pages of its chain only. */
  lemma MapsFrame(pages: seq<Page>, root: U32, len: nat, chain: seq<U32>, ids: seq<U32>, pages2: seq<Page>)
    requires Maps(pages, root, len, chain, ids) && |pages| <= |pages2|
    requires forall i :: 0 <= i < |chain| && chain[i] < |pages| ==> pages2[chain[i]] == pages[chain[i]]
    ensures Maps(pages2, root, len, chain, ids)
  {
    forall i | 0 <= i < |chain| ensures LinkAt(pages2, chain, i) {
      assert LinkAt(pages, chain, i);
    }
    forall i | 0 <= i < len ensures EntryAt(pages2, chain, ids, i) {
      assert EntryAt(pages, chain, ids, i);
    }
  }

  lemma LastPage(len: nat, n: nat)
    requires 1 <= n && (n - 1) * ENTRIES_PER_DIR_PAGE <= len < n * ENTRIES_PER_DIR_PAGE
    ensures PageOf(len) == n - 1
  {
  }

  lemma LastIndex(len: nat, n: nat)
    requires len <= n * ENTRIES_PER_DIR_PAGE
    requires n != 0 ==> (n - 1) * ENTRIES_PER_DIR_PAGE <= len
    ensures PageOf(len) == if len == n * ENTRIES_PER_DIR_PAGE then n else n - 1
  {
    if len < n * ENTRIES_PER_DIR_PAGE {
      LastPage(len, n);
    }
  }

  lemma WalkEnds(pages: seq<Page>, root: U32, chain: seq<U32>)
    requires IsChain(pages, root, chain)
    ensures root == UNMAPPED <==> chain == []
    ensures chain != [] ==> root == chain[0]
  {
    assert chain != [] ==> LinkAt(pages, chain, 0);
  }

  lemma LinkOf(pages: seq<Page>, root: U32, chain: seq<U32>, i: nat)
    requires IsChain(pages, root, chain)
    ensures i < |chain| ==>
      && chain[i] < |pages|
      && (ReadLink(pages[chain[i]]) == UNMAPPED <==> i == |chain| - 1)
      && (i < |chain| - 1 ==> ReadLink(pages[chain[i]]) == chain[i+1])
  {
    if i < |chain| {
      assert LinkAt(pages, chain, i);
      assert i < |chain| - 1 ==> LinkAt(pages, chain, i + 1);
    }
  }

  /** Writing an entry of the last page changes no other page of the chain, and no link. */
  lemma ChainAfterEntry(pages: seq<Page>, root: U32, chain: seq<U32>, slot: nat, physical: U32)
    requires IsChain(pages, root, chain) && chain != [] && slot < ENTRIES_PER_DIR_PAGE
    ensures var pid := chain[|chain|-1];
      && pid < |pages|
      && IsChain(pages[pid := WriteEntry(pages[pid], slot, physical)], root, chain)
      && forall k :: 0 <= k < |chain| - 1 ==> chain[k] != pid
  {
    var last := |chain| - 1;
    var pid := chain[last];
    assert LinkAt(pages, chain, last);
    var pages2 := pages[pid := WriteEntry(pages[pid], slot, physical)];
    WriteEntryReads(pages[pid], slot, physical, 0);
    forall k | 0 <= k < last ensures chain[k] != pid {
      ChainIsAcyclic(pages, root, chain, k, last);
    }
    forall i | 0 <= i < |chain| ensures LinkAt(pages2, chain, i) {
      assert LinkAt(pages, chain, i);
    }
  }

  lemma SlotsDiffer(i: nat, j: nat)
    requires i < j && PageOf(i) == PageOf(j)
    ensures SlotOf(i) != SlotOf(j)
  {
  }

  /** Mapping the next logical page in the last directory page. */
  lemma EntryAppended(pages: seq<Page>, root: U32, len: nat, chain: seq<U32>, ids: seq<U32>, physical: U32)
    requires Maps(pages, root, len, chain, ids) && physical != UNMAPPED
    requires len < |chain| * ENTRIES_PER_DIR_PAGE
    ensures |chain| - 1 == PageOf(len)
    ensures var pid := chain[|chain|-1];
      && pid < |pages|
      && Maps(pages[pid := WriteEntry(pages[pid], SlotOf(len), physical)], root, len + 1, chain, ids + [physical])
  {
    var slot := SlotOf(len);
    var pid := chain[|chain|-1];
    ChainAfterEntry(pages, root, chain, slot, physical);
    LastPage(len, |chain|);
    hide IsChain, WriteEntry, ReadEntry, ReadLink, PageOf, SlotOf;
    var pages2, ids2 := pages[pid := WriteEntry(pages[pid], slot, physical)], ids + [physical];
    forall i | 0 <= i < len ensures EntryAt(pages2, chain, ids2, i) {
      assert EntryAt(pages, chain, ids, i);
      if PageOf(i) == PageOf(len) {
        SlotsDiffer(i, len);
      }
      WriteEntryReads(pages[pid], slot, physical, SlotOf(i));
    }
    WriteEntryReads(pages[pid], slot, physical, slot);
    assert EntryAt(pages2, chain, ids2, len);
  }

  /** The pages after a blank directory page has been appended and linked to the end of the chain. */
  function Extended(pages: seq<Page>, chain: seq<U32>, blank: Page): seq<Page>
    requires |pages| < UNMAPPED
    requires chain != [] ==> chain[|chain|-1] < |pages|
  {
    if chain == [] then pages + [blank]
    else (pages + [blank])[chain[|chain|-1] := WriteLink(pages[chain[|chain|-1]], |pages|)]
  }

  lemma ChainExtended(pages: seq<Page>, root: U32, len: nat, chain: seq<U32>, ids: seq<U32>, blank: Page)
    requires Maps(pages, root, len, chain, ids) && len == |chain| * ENTRIES_PER_DIR_PAGE
    requires |pages| < UNMAPPED && ReadLink(blank) == UNMAPPED
    ensures chain != [] ==> chain[|chain|-1] < |pages|
    ensures Maps(Extended(pages, chain, blank), if chain == [] then |pages| else root, len, chain + [|pages|], ids)
  {
    hide ReadLink, WriteLink, ReadEntry, PageOf, SlotOf;
    var pid: U32, last := |pages|, |chain| - 1;
    var chain2 := chain + [pid];
    if chain != [] {
      assert LinkAt(pages, chain, last);
    }
    var pages2 := Extended(pages, chain, blank);
    forall i | 0 <= i < |chain2| ensures LinkAt(pages2, chain2, i) {
      if i < |chain| {
        assert LinkAt(pages, chain, i);
        WriteLinkReads(pages[chain[last]], pid, 0);
        if i < last {
          ChainIsAcyclic(pages, root, chain, i, last);
        }
      }
    }
    forall i | 0 <= i < len ensures EntryAt(pages2, chain2, ids, i) {
      var k := PageOf(i);
      assert EntryAt(pages, chain, ids, i) && LinkAt(pages, chain, k);
      if k < last {
        ChainIsAcyclic(pages, root, chain, k, last);
      }
      WriteLinkReads(pages[chain[last]], pid, SlotOf(i));
    }
  }

  // ---- One push ----

  /** A blank directory page: no link, and every entry unmapped. */
  const BLANK: Page := AllOnes()

  function AllOnes(): Page {
    seq(PAGE_SIZE, _ => 0xFF)
  }

  lemma BlankIsUnlinked()
    ensures ReadLink(BLANK) == UNMAPPED
  {
    assert BLANK[0..4] == [0xFF, 0xFF, 0xFF, 0xFF];
  }

  datatype Pushed = Pushed(pages: seq<Page>, root: U32, chain: seq<U32>)

  /** A directory that can take one more entry. */
  predicate Pushable(pages: seq<Page>, len: nat, chain: seq<U32>) {
    && |pages| < UNMAPPED
    && (if chain == [] then len == 0 else chain[|chain|-1] < |pages|)
  }

  /** The chain with room for logical page `len`: a full one has been extended by a blank page. */
  function WithRoom(pages: seq<Page>, root: U32, len: nat, chain: seq<U32>): Pushed
    requires Pushable(pages, len, chain)
  {
    if len == |chain| * ENTRIES_PER_DIR_PAGE
    then Pushed(Extended(pages, chain, BLANK), if chain == [] then |pages| else root, chain + [|pages|])
    else Pushed(pages, root, chain)
  }

  function Push(pages: seq<Page>, root: U32, len: nat, chain: seq<U32>, physical: U32): (r: Pushed)
    requires Pushable(pages, len, chain)
  {
    var room := WithRoom(pages, root, len, chain);
    var pid := room.chain[|room.chain|-1];
    room.(pages := room.pages[pid := WriteEntry(room.pages[pid], SlotOf(len), physical)])
  }

  lemma RoomMaps(pages: seq<Page>, root: U32, len: nat, chain: seq<U32>, ids: seq<U32>)
    requires Maps(pages, root, len, chain, ids) && |pages| < UNMAPPED
    ensures Pushable(pages, len, chain)
    ensures var room := WithRoom(pages, root, len, chain);
      Maps(room.pages, room.root, len, room.chain, ids) && len < |room.chain| * ENTRIES_PER_DIR_PAGE
  {
    if chain != [] {
      assert LinkAt(pages, chain, |chain| - 1);
    }
    if len == |chain| * ENTRIES_PER_DIR_PAGE {
      BlankIsUnlinked();
      ChainExtended(pages, root, len, chain, ids, BLANK);
    }
  }

  /** A push appends one id to the sequence, changes pages of the chain only and adds at most one page. */
  lemma PushMaps(pages: seq<Page>, root: U32, len: nat, chain: seq<U32>, ids: seq<U32>, physical: U32)
    requires Maps(pages, root, len, chain, ids) && |pages| < UNMAPPED && physical != UNMAPPED
    ensures Pushable(pages, len, chain)
    ensures var r := Push(pages, root, len, chain, physical);
      && Maps(r.pages, r.root, len + 1, r.chain, ids + [physical])
      && chain <= r.chain <= chain + [|pages|]
      && |r.pages| == |pages| + |r.chain| - |chain|
      && forall p :: 0 <= p < |pages| && (chain == [] || p != chain[|chain|-1]) ==> r.pages[p] == pages[p]
  {
    RoomMaps(pages, root, len, chain, ids);
    var room := WithRoom(pages, root, len, chain);
    EntryAppended(room.pages, room.root, len, room.chain, ids, physical);
  }
}
