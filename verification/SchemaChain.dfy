/**
 * The stored schema as a chain of pages (chiffondb-core/src/schema/store.rs and the blob chains of
 * chiffondb-core/src/storage/property.rs): each page names the next one by its place in the chain, and
 * the walk is bounded, so that no link can make it run for ever.
 */
module SchemaChain {
  import opened Types
  import opened Header
  import opened Layout
  import opened Backends
  import opened DatabaseFile
  import opened TypeIds

  const CHAIN_HEADER_SIZE := 8
  const CHAIN_DATA_PER_PAGE := PAGE_SIZE - CHAIN_HEADER_SIZE
  const NO_NEXT_PAGE: U32 := 0xFFFF_FFFF

  // ---- Writing ----

  function PagesNeeded(len: nat): (n: nat)
    ensures 1 <= n
  {
    if len == 0 then 1 else (len + CHAIN_DATA_PER_PAGE - 1) / CHAIN_DATA_PER_PAGE
  }

  /** Chunk `i` of the data: a full page's worth, or what is left for the last one. */
  function Chunk(data: seq<Byte>, i: nat): (chunk: seq<Byte>)
    requires i < PagesNeeded(|data|)
    ensures |chunk| <= CHAIN_DATA_PER_PAGE
  {
    var offset := i * CHAIN_DATA_PER_PAGE;
    ChunkStart(|data|, i);
    data[offset..if offset + CHAIN_DATA_PER_PAGE < |data| then offset + CHAIN_DATA_PER_PAGE else |data|]
  }

  lemma ChunkStart(len: nat, i: nat)
    requires i < PagesNeeded(len)
    ensures i * CHAIN_DATA_PER_PAGE <= len
    ensures i + 1 < PagesNeeded(len) ==> (i + 1) * CHAIN_DATA_PER_PAGE < len
    ensures i + 1 == PagesNeeded(len) ==> len <= (i + 1) * CHAIN_DATA_PER_PAGE
  {
  }

  function NextLink(i: nat, needed: nat): U32
    requires i < needed <= NO_NEXT_PAGE
  {
    if i + 1 < needed then i + 1 else NO_NEXT_PAGE
  }

  /** A page with a link, a length and a chunk stored over what it held. */
  function PutChunk(page: Page, next: U32, chunk: seq<Byte>): Page
    requires |chunk| <= CHAIN_DATA_PER_PAGE
  {
    Le32(next) + Le32(|chunk|) + chunk + page[CHAIN_HEADER_SIZE + |chunk|..]
  }

  function ChainPage(page: Page, data: seq<Byte>, i: nat): Page
    requires i < PagesNeeded(|data|) <= NO_NEXT_PAGE
  {
    PutChunk(page, NextLink(i, PagesNeeded(|data|)), Chunk(data, i))
  }

  /** Where a page of a chain keeps what: the place of the next page, the length of the chunk, the chunk. */
  lemma ChainFormat(page: Page, data: seq<Byte>, i: nat, k: nat)
    requires i < PagesNeeded(|data|) <= NO_NEXT_PAGE
    ensures StoresAt(ChainPage(page, data, i), 0, if i + 1 < PagesNeeded(|data|) then i + 1 else 0xFFFF_FFFF)
    ensures StoresAt(ChainPage(page, data, i), 4, |Chunk(data, i)|)
    ensures k < |Chunk(data, i)| ==> 4088 * i + k < |data| && ChainPage(page, data, i)[8 + k] == data[4088 * i + k]
    ensures |Chunk(data, i)| == if i + 1 < PagesNeeded(|data|) then 4088 else |data| - 4088 * i
  {
    ChunkStart(|data|, i);
    var next, chunk := NextLink(i, PagesNeeded(|data|)), Chunk(data, i);
    ChunkStored(page, next, chunk, k);
    hide PagesNeeded, StoresAt, PutChunk;
  }

  lemma ChunkStored(page: Page, next: U32, chunk: seq<Byte>, k: nat)
    requires |chunk| <= CHAIN_DATA_PER_PAGE
    ensures var p := PutChunk(page, next, chunk);
      StoresAt(p, 0, next) && StoresAt(p, 4, |chunk|) && (k < |chunk| ==> p[8 + k] == chunk[k])
  {
    var p := PutChunk(page, next, chunk);
    hide Le32, FromLe32, StoresAt;
    assert p[0..4] == Le32(next) && p[4..8] == Le32(|chunk|);
    WordIsStored(p, 0);
    WordIsStored(p, 4);
  }

  /** Fills the pages in place; too few of them are refused untouched. */
  method WriteBlobChain(pages: array<Page>, data: seq<Byte>) returns (r: Result<()>)
    requires PagesNeeded(|data|) <= NO_NEXT_PAGE
    modifies pages
    ensures r == if pages.Length < PagesNeeded(|data|) then Err(StorageCorrupted(0)) else Ok(())
    ensures forall i: nat :: i < pages.Length ==>
      pages[i] == if r.Ok? && i < PagesNeeded(|data|) then ChainPage(old(pages[i]), data, i) else old(pages[i])
  {
    hide PagesNeeded, PutChunk;
    var needed := PagesNeeded(|data|);
    if pages.Length < needed {
      return Err(StorageCorrupted(0));
    }
    var offset := 0;
    for i := 0 to needed
      invariant offset == if i * CHAIN_DATA_PER_PAGE < |data| then i * CHAIN_DATA_PER_PAGE else |data|
      invariant forall j: nat :: j < pages.Length ==>
        pages[j] == if j < i then ChainPage(old(pages[j]), data, j) else old(pages[j])
    {
      ChunkStart(|data|, i);
      var end := if offset + CHAIN_DATA_PER_PAGE < |data| then offset + CHAIN_DATA_PER_PAGE else |data|;
      var next: U32 := if i + 1 < needed then i + 1 else NO_NEXT_PAGE;
      pages[i] := PutChunk(pages[i], next, data[offset..end]);
      offset := end;
    }
    r := Ok(());
  }

  /** Appends the chain behind the last page and points the header at it; no mapped page changes. */
  method WriteSchema(file: DatabaseFile, data: seq<Byte>) returns (r: Result<()>)
    requires file.Consistent()
    requires |file.Pages()| + PagesNeeded(|data|) < NO_NEXT_PAGE
    modifies file.Repr()
    ensures file.Consistent() && r == Ok(()) && file.KeepsSnapshots()
    ensures file.header == old(file.header).(schemaRoot := |old(file.Pages())|,
                                             schemaVersion := (old(file.header).schemaVersion + 1) % 0x1_0000_0000)
    ensures HoldsChain(file.Pages(), file.header.schemaRoot, data)
    ensures OwnedByChain(file.layout, file.header.schemaRoot, data)
    ensures Preserves(old(file.Current()), file.Current()) && SparesOther(old(file.Current()), file.Current())
  {
    hide DatabaseFile.Valid, DatabaseFile.Pages, DatabaseFile.Remembers, PagesNeeded, ChainPage, LayoutOk, Preserves, HoldsChain,
      OwnedByChain, SparesOther, Serialize;
    var needed := PagesNeeded(|data|);
    var pages := new Page[needed](_ => ZERO_PAGE);
    var written := WriteBlobChain(pages, data);
    ghost var s := file.Current();
    StaysPut(s);
    var first: U32 := file.logicalPageCount;
    ghost var lay := AppendPages(file, pages);
    ghost var t := State(file.Pages(), s.header, lay);
    var header := file.header.(schemaRoot := first, schemaVersion := (file.header.schemaVersion + 1) % 0x1_0000_0000);
    HeaderStored(t, header);
    file.StoreHeader(header, lay);
    PreservesThen(s, t, file.Current());
    ChainAppended(s.pages, pages[..], Serialize(header), data);
    AppendedSpares(s, file.Current(), pages[..], Serialize(header), data);
    r := Ok(());
  }

  /** Appends the pages one after another; no directory owns them. */
  method AppendPages(file: DatabaseFile, pages: array<Page>) returns (ghost lay: Layout)
    requires file.Consistent() && |file.Pages()| + pages.Length < NO_NEXT_PAGE && 1 <= |file.Pages()|
    modifies file.Storage(), file`logicalPageCount
    ensures file.Valid() && file.KeepsSnapshots() && file.header == old(file.header) && pages[..] == old(pages[..])
    ensures file.Pages() == old(file.Pages()) + pages[..]
    ensures LayoutOk(file.Pages(), file.header, lay) && Preserves(old(file.Current()), State(file.Pages(), file.header, lay))
    ensures lay.owners == old(file.layout.owners) + seq(pages.Length, _ => OtherPage)
  {
    hide DatabaseFile.Valid, DatabaseFile.Pages, DatabaseFile.Remembers, LayoutOk, Preserves;
    ghost var s, chain := file.Current(), pages[..];
    lay := file.layout;
    StaysPut(s);
    for i := 0 to pages.Length
      invariant file.Valid() && file.KeepsSnapshots() && file.header == s.header
      invariant file.Pages() == s.pages + pages[..i]
      invariant LayoutOk(file.Pages(), s.header, lay) && Preserves(s, State(file.Pages(), s.header, lay))
      invariant lay.owners == s.layout.owners + seq(i, _ => OtherPage)
      invariant pages[..] == chain
    {
      assert pages[..i+1] == pages[..i] + [pages[i]] && file.Pages() + [pages[i]] == s.pages + pages[..i+1];
      ghost var t := State(file.Pages(), s.header, lay);
      OtherAppended(t, pages[i]);
      var _ := file.AppendPage(pages[i]);
      lay := lay.(owners := lay.owners + [OtherPage]);
      assert seq(i + 1, _ => OtherPage) == seq(i, _ => OtherPage) + [OtherPage];
      PreservesThen(s, t, State(file.Pages(), s.header, lay));
    }
    assert pages[..pages.Length] == chain;
  }

  /** No directory owns the pages of the chain. */
  ghost predicate OwnedByChain(lay: Layout, first: nat, data: seq<Byte>) {
    && first + PagesNeeded(|data|) <= |lay.owners|
    && forall p :: first <= p < first + PagesNeeded(|data|) ==> lay.owners[p].OtherPage?
  }

  lemma AppendedSpares(s: State, t: State, chain: seq<Page>, image: Page, data: seq<Byte>)
    requires 1 <= |s.pages| == |s.layout.owners| && s.layout.owners[0] == HeaderPage
    requires t.pages == (s.pages + chain)[0 := image]
    requires t.layout.owners == s.layout.owners + seq(|chain|, _ => OtherPage)
    requires |chain| == PagesNeeded(|data|)
    ensures SparesOther(s, t) && OwnedByChain(t.layout, |s.pages|, data)
  {
  }

  /** What leaves the other pages alone, as every allocation, write and release of a mapped page does,
      leaves the chain alone. */
  lemma ChainSurvives(s: State, t: State, first: nat, data: seq<Byte>)
    requires HoldsChain(s.pages, first, data) && OwnedByChain(s.layout, first, data)
    requires SparesOther(s, t) && |t.pages| <= 0xFFFF_FFFF
    ensures HoldsChain(t.pages, first, data) && OwnedByChain(t.layout, first, data)
  {
    hide PagesNeeded, WordAt, Chunk;
    forall i: nat | i < PagesNeeded(|data|) ensures Carries(t.pages, first, data, i) {
      assert Carries(s.pages, first, data, i);
      assert s.layout.owners[first + i].OtherPage?;
    }
  }

  lemma ChainAppended(pages: seq<Page>, chain: seq<Page>, image: Page, data: seq<Byte>)
    requires 1 <= |pages| && |chain| == PagesNeeded(|data|) && |pages| + |chain| < NO_NEXT_PAGE
    requires forall i: nat :: i < |chain| ==> chain[i] == ChainPage(ZERO_PAGE, data, i)
    ensures HoldsChain((pages + chain)[0 := image], |pages|, data)
  {
  }

  lemma StaysPut(s: State)
    requires LayoutOk(s.pages, s.header, s.layout)
    ensures Preserves(s, s) && 1 <= |s.pages| == |s.layout.owners| && s.layout.owners[0] == HeaderPage
  {
    forall k, i: nat ensures SamePage(s, s, k, i) {
      assert DirOk(s.pages, s.header, s.layout, k);
    }
  }

  // ---- Reading ----

  /** The walk from page `id` on, with `count` pages read before it. */
  function Walk(pages: seq<Page>, first: U32, id: U32, count: nat): Result<seq<Page>>
    decreases |pages| + 1 - count
  {
    if |pages| <= id then Err(IoError)
    else
      var next := WordAt(pages[id], 0);
      if next == NO_NEXT_PAGE then Ok([pages[id]])
      else if count + 1 > |pages| || first + next > 0xFFFF_FFFF then Err(StorageCorrupted(id))
      else
        match Walk(pages, first, first + next, count + 1)
        case Err(e) => Err(e)
        case Ok(rest) => Ok([pages[id]] + rest)
  }

  /** The walk from page `id` on completes what has been collected before it. */
  ghost predicate Continues(pages: seq<Page>, first: U32, id: U32, collected: seq<Page>) {
    var spec, rest := Walk(pages, first, first, 0), Walk(pages, first, id, |collected|);
    if rest.Ok? then spec == Ok(collected + rest.value) else spec.Err?
  }

  lemma WalkBegins(pages: seq<Page>, first: U32)
    ensures Continues(pages, first, first, [])
  {
    var spec := Walk(pages, first, first, 0);
    assert spec.Ok? ==> [] + spec.value == spec.value;
  }

  lemma WalkContinues(pages: seq<Page>, first: U32, id: U32, collected: seq<Page>)
    requires Continues(pages, first, id, collected)
    ensures id >= |pages| ==> Walk(pages, first, first, 0).Err?
    ensures id < |pages| ==>
      var next, more := WordAt(pages[id], 0), collected + [pages[id]];
      if next == NO_NEXT_PAGE then Walk(pages, first, first, 0) == Ok(more)
      else if |collected| + 1 > |pages| || first + next > 0xFFFF_FFFF then Walk(pages, first, first, 0).Err?
      else Continues(pages, first, first + next, more)
  {
    hide WordAt;
    if id < |pages| {
      var next := WordAt(pages[id], 0);
      if next != NO_NEXT_PAGE && |collected| < |pages| && first + next <= 0xFFFF_FFFF {
        var rest := Walk(pages, first, first + next, |collected| + 1);
        assert rest.Ok? ==> collected + ([pages[id]] + rest.value) == (collected + [pages[id]]) + rest.value;
      }
    }
  }

  /** The walk ends on any links. */
  method LoadChain(file: DatabaseFile, first: U32) returns (r: Result<seq<Page>>)
    requires file.Valid()
    modifies file.Storage()
    ensures file.Valid() && file.Pages() == old(file.Pages())
    ensures var spec := Walk(file.Pages(), first, first, 0);
      if spec.Ok? then r == spec && 1 <= |r.value| <= |file.Pages()| + 1 else r.Err?
    ensures file.KeepsSnapshots()
  {
    hide DatabaseFile.Valid, DatabaseFile.Pages, DatabaseFile.Remembers, WordAt, Walk, Continues;
    var collected: seq<Page> := [];
    var id: U32 := first;
    ghost var pages := file.Pages();
    WalkBegins(pages, first);
    while true
      invariant file.Valid() && file.Pages() == pages && file.KeepsSnapshots()
      invariant |collected| <= |pages|
      invariant Continues(pages, first, id, collected)
      decreases |pages| + 1 - |collected|
    {
      WalkContinues(pages, first, id, collected);
      var page: Page :- file.ReadPage(id);
      var next := WordAt(page, 0);
      collected := collected + [page];
      if next == NO_NEXT_PAGE {
        break;
      }
      if |collected| > file.logicalPageCount {
        return Err(StorageCorrupted(id));
      }
      if first + next > 0xFFFF_FFFF {
        return Err(StorageCorrupted(id));
      }
      id := first + next;
    }
    r := Ok(collected);
  }

  /** The bytes of a chain of pages, from page `i` on, with `steps` links followed before. */
  function Unchain(pages: seq<Page>, i: nat, steps: nat): Result<seq<Byte>>
    decreases |pages| + 1 - steps
  {
    if |pages| <= i then Err(StorageCorrupted(i))
    else
      var next, len := WordAt(pages[i], 0), WordAt(pages[i], 4);
      if len > CHAIN_DATA_PER_PAGE then Err(StorageCorrupted(i))
      else
        var chunk := pages[i][CHAIN_HEADER_SIZE..CHAIN_HEADER_SIZE + len];
        if next == NO_NEXT_PAGE then Ok(chunk)
        else if steps + 1 > |pages| then Err(StorageCorrupted(i))
        else
          match Unchain(pages, next, steps + 1)
          case Err(e) => Err(e)
          case Ok(rest) => Ok(chunk + rest)
  }

  method ReadBlobChain(pages: seq<Page>) returns (r: Result<seq<Byte>>)
    ensures r == Unchain(pages, 0, 0)
  {
    hide WordAt;
    var result: seq<Byte> := [];
    var i, steps := 0, 0;
    while true
      invariant 0 <= i && 0 <= steps <= |pages|
      invariant var spec, rest := Unchain(pages, 0, 0), Unchain(pages, i, steps);
        if rest.Ok? then spec.Ok? && spec.value == result + rest.value else spec == rest
      decreases |pages| + 1 - steps
    {
      if |pages| <= i {
        return Err(StorageCorrupted(i));
      }
      var next, len := WordAt(pages[i], 0), WordAt(pages[i], 4);
      if len > CHAIN_DATA_PER_PAGE {
        return Err(StorageCorrupted(i));
      }
      result := result + pages[i][CHAIN_HEADER_SIZE..CHAIN_HEADER_SIZE + len];
      if next == NO_NEXT_PAGE {
        break;
      }
      steps := steps + 1;
      if steps > |pages| {
        return Err(StorageCorrupted(i));
      }
      i := next;
    }
    r := Ok(result);
  }

  // ---- The round trip ----

  /** Page `first + i` carries chunk `i` of the data and the link to the next. */
  ghost predicate Carries(pages: seq<Page>, first: nat, data: seq<Byte>, i: nat)
    requires i < PagesNeeded(|data|) <= NO_NEXT_PAGE
  {
    && first + i < |pages|
    && var p := pages[first + i];
       && WordAt(p, 0) == NextLink(i, PagesNeeded(|data|))
       && WordAt(p, 4) == |Chunk(data, i)|
       && p[CHAIN_HEADER_SIZE..CHAIN_HEADER_SIZE + |Chunk(data, i)|] == Chunk(data, i)
  }

  /** The chain of the data stands in the pages from `first` on. */
  ghost predicate HoldsChain(pages: seq<Page>, first: nat, data: seq<Byte>) {
    && PagesNeeded(|data|) < NO_NEXT_PAGE
    && first + PagesNeeded(|data|) <= |pages| <= 0xFFFF_FFFF
    && forall i: nat :: i < PagesNeeded(|data|) ==> Carries(pages, first, data, i)
  }

  lemma {:induction false} WalkCollects(pages: seq<Page>, first: U32, data: seq<Byte>, i: nat)
    requires HoldsChain(pages, first, data) && i < PagesNeeded(|data|)
    ensures Walk(pages, first, first + i, i) == Ok(pages[first + i..first + PagesNeeded(|data|)])
    decreases PagesNeeded(|data|) - i
  {
    hide PagesNeeded, Chunk, WordAt;
    assert Carries(pages, first, data, i);
    if i + 1 < PagesNeeded(|data|) {
      WalkCollects(pages, first, data, i + 1);
      assert first + NextLink(i, PagesNeeded(|data|)) == first + (i + 1);
      assert [pages[first + i]] + pages[first + (i + 1)..first + PagesNeeded(|data|)] == pages[first + i..first + PagesNeeded(|data|)];
    } else {
      assert [pages[first + i]] == pages[first + i..first + PagesNeeded(|data|)];
    }
  }

  lemma {:induction false} UnchainJoins(pages: seq<Page>, data: seq<Byte>, i: nat)
    requires HoldsChain(pages, 0, data) && i < PagesNeeded(|data|) == |pages|
    ensures i * CHAIN_DATA_PER_PAGE <= |data|
    ensures Unchain(pages, i, i) == Ok(data[i * CHAIN_DATA_PER_PAGE..])
    decreases |pages| - i
  {
    assert Carries(pages, 0, data, i);
    ChunkStart(|data|, i);
    hide PagesNeeded, WordAt;
    if i + 1 < PagesNeeded(|data|) {
      UnchainJoins(pages, data, i + 1);
      assert Chunk(data, i) + data[(i + 1) * CHAIN_DATA_PER_PAGE..] == data[i * CHAIN_DATA_PER_PAGE..];
    } else {
      assert Chunk(data, i) == data[i * CHAIN_DATA_PER_PAGE..];
    }
  }

  /** A chain reads back as its data, wherever it stands and whatever surrounds it. */
  lemma ChainRoundTrip(pages: seq<Page>, first: U32, data: seq<Byte>)
    requires HoldsChain(pages, first, data)
    ensures var walked := Walk(pages, first, first, 0);
      walked.Ok? && Unchain(walked.value, 0, 0) == Ok(data)
  {
    hide PagesNeeded, Chunk, WordAt, Walk, Unchain;
    WalkCollects(pages, first, data, 0);
    var part := pages[first..first + PagesNeeded(|data|)];
    forall i: nat | i < PagesNeeded(|data|) ensures Carries(part, 0, data, i) {
      assert Carries(pages, first, data, i);
      assert part[i] == pages[first + i];
    }
    UnchainJoins(part, data, 0);
  }

  // ---- The stored definitions and ids ----

  /** How definitions, type ids and counters are made into bytes and read back. */
  datatype Codec = Codec(encode: SchemaDto -> seq<Byte>, decode: seq<Byte> -> Option<SchemaDto>)

  /** What the chain from `root` on stands for. */
  function Stored(codec: Codec, pages: seq<Page>, root: U32): Option<SchemaDto> {
    if root == 0 then None
    else
      match Walk(pages, root, root, 0)
      case Err(_) => None
      case Ok(walked) =>
        match Unchain(walked, 0, 0)
        case Err(_) => None
        case Ok(bytes) => codec.decode(bytes)
  }

  method LoadSchemaDto(file: DatabaseFile, codec: Codec) returns (r: Result<SchemaDto>)
    requires file.Valid()
    modifies file.Storage()
    ensures file.Valid() && file.Pages() == old(file.Pages()) && file.KeepsSnapshots()
    ensures match Stored(codec, file.Pages(), file.header.schemaRoot)
      case None => r.Err?
      case Some(dto) => r == Ok(dto)
  {
    hide DatabaseFile.Valid, DatabaseFile.Pages, DatabaseFile.Remembers, Walk, Unchain;
    if file.header.schemaRoot == 0 {
      return Err(SchemaError);
    }
    var pages :- LoadChain(file, file.header.schemaRoot);
    label Loaded:
    var bytes := ReadBlobChain(pages);
    assert unchanged@Loaded(file.Repr());
    if bytes.Err? {
      return Err(bytes.error);
    }
    match codec.decode(bytes.value)
    case None => r := Err(SchemaError);
    case Some(dto) => r := Ok(dto);
  }

  ghost function StoredIn(codec: Codec, file: DatabaseFile): Option<SchemaDto>
    requires file.Valid()
    reads file, file.Repr()
  {
    Stored(codec, file.Pages(), file.header.schemaRoot)
  }

  /** Two files; what the source holds survives its encoding, and the destination has room for it. */
  ghost predicate CanCopy(src: DatabaseFile, dst: DatabaseFile, codec: Codec)
    reads src, src.Repr(), dst, dst.Repr()
  {
    && src.Valid() && dst.Consistent() && src.Repr() !! dst.Repr()
    && match StoredIn(codec, src)
       case None => true
       case Some(dto) =>
         && |dst.Pages()| + PagesNeeded(|codec.encode(dto)|) < NO_NEXT_PAGE
         && codec.decode(codec.encode(dto)) == Some(dto)
  }

  lemma Readable(src: DatabaseFile, dst: DatabaseFile, codec: Codec)
    requires CanCopy(src, dst, codec)
    ensures src.Valid() && dst.Valid() && dst.Consistent() && src.Repr() !! dst.Repr()
    ensures src.header.schemaRoot == 0 ==> StoredIn(codec, src) == None
    ensures dst.header.schemaRoot == 0 ==> StoredIn(codec, dst) == None
  {
  }

  /** Copies the stored schema into another file: afterwards that file holds the same definitions, the same
      type ids, registered names included, and the same counters. */
  method CopySchema(src: DatabaseFile, dst: DatabaseFile, codec: Codec) returns (r: Result<()>)
    requires CanCopy(src, dst, codec)
    modifies src.Storage(), dst.Repr()
    ensures src.Valid() && src.Pages() == old(src.Pages())
    ensures dst.Consistent() && dst.KeepsSnapshots()
    ensures r.Ok? <==> old(StoredIn(codec, src)).Some?
    ensures r.Ok? ==> StoredIn(codec, dst) == old(StoredIn(codec, src))
    ensures r.Err? ==> dst.Pages() == old(dst.Pages()) && dst.header == old(dst.header)
    ensures Preserves(old(dst.Current()), dst.Current())
  {
    hide DatabaseFile.Valid, DatabaseFile.Pages, DatabaseFile.Remembers, PagesNeeded, LayoutOk, Preserves, HoldsChain, OwnedByChain, Walk, Unchain;
    StaysPut(dst.Current());
    assert src.Storage() !! dst.Repr();
    var loaded := LoadSchemaDto(src, codec);
    if loaded.Err? {
      return Err(loaded.error);
    }
    var dto := loaded.value;
    r := WriteSchema(dst, codec.encode(dto));
    ChainRoundTrip(dst.Pages(), dst.header.schemaRoot, codec.encode(dto));
  }
}
