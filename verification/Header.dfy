/**
 * The header page (chiffondb-core/src/storage/file.rs): eighteen little-endian words after the magic.
 */
module Header {
  import opened Types

  const MAGIC: seq<Byte> := [0x43, 0x48, 0x49, 0x46, 0x46, 0x4F, 0x4E, 0x00]
  const VERSION: U32 := 10

  /** No page-directory root, and no head of the free-page list. */
  const NO_DIR_ROOT: U32 := 0xFFFF_FFFF
  const NO_FREE_PAGE: U32 := 0xFFFF_FFFF

  datatype FileHeader = FileHeader(
    version: U32,
    labelIndexRoot: U32,
    propertyIndexRoot: U32,
    schemaRoot: U32,
    schemaVersion: U32,
    nodePageCount: U32,
    edgePageCount: U32,
    propertyDirRoot: U32,
    propertyDirLen: U32,
    nodeDirRoot: U32,
    edgeDirRoot: U32,
    nodeFirstFreePage: U32,
    edgeFirstFreePage: U32,
    propertyFirstFreePage: U32,
    propertyFreeListHead: U32)

  const NEW_HEADER := FileHeader(VERSION, NO_DIR_ROOT, NO_DIR_ROOT, 0, 0, 0, 0, NO_DIR_ROOT, 0,
                                 NO_DIR_ROOT, NO_DIR_ROOT, 0, 0, 0, NO_FREE_PAGE)

  // ---- Little-endian integers ----

  function Le32(x: U32): (b: seq<Byte>)
    ensures |b| == 4 && FromLe32(b) == x
  {
    var y := x / 0x100;
    var z := y / 0x100;
    assert z < 0x1_0000;
    [x % 0x100, y % 0x100, z % 0x100, z / 0x100]
  }

  function FromLe32(b: seq<Byte>): U32
    requires |b| == 4
  {
    var b0: int, b1: int, b2: int, b3: int := b[0], b[1], b[2], b[3];
    b0 + 0x100 * (b1 + 0x100 * (b2 + 0x100 * b3))
  }

  lemma DivMod(q: int, r: int)
    requires 0 <= r < 0x100
    ensures (r + 0x100 * q) / 0x100 == q && (r + 0x100 * q) % 0x100 == r
  {
  }

  lemma Le32Inverse(b: seq<Byte>)
    requires |b| == 4
    ensures Le32(FromLe32(b)) == b
  {
    var b0: int, b1: int, b2: int, b3: int := b[0], b[1], b[2], b[3];
    var z := b2 + 0x100 * b3;
    DivMod(b1 + 0x100 * z, b0);
    DivMod(z, b1);
    DivMod(b3, b2);
  }

  /** The word stored at byte offset `off`. */
  function WordAt(page: Page, off: nat): U32
    requires off + 4 <= PAGE_SIZE
  {
    FromLe32(page[off..off+4])
  }

  /** The page after a word has been stored at byte offset `off`. */
  function PutWord(page: Page, off: nat, x: U32): Page
    requires off + 4 <= PAGE_SIZE
  {
    page[..off] + Le32(x) + page[off+4..]
  }

  lemma PutWordReads(page: Page, off: nat, x: U32, other: nat)
    requires off + 4 <= PAGE_SIZE && other + 4 <= PAGE_SIZE
    ensures WordAt(PutWord(page, off, x), off) == x
    ensures other + 4 <= off || off + 4 <= other ==> WordAt(PutWord(page, off, x), other) == WordAt(page, other)
  {
    var p := PutWord(page, off, x);
    assert p[off..off+4] == Le32(x);
    if other + 4 <= off {
      assert p[other..other+4] == page[other..other+4];
    } else if off + 4 <= other {
      assert p[other..other+4] == page[other..other+4];
    }
    hide PutWord, FromLe32, Le32;
  }

  // ---- The header page ----

  /** The words at offsets 8, 12, ... 76; the zeros at 24 and 28 are reserved. */
  function Words(h: FileHeader): (ws: seq<U32>)
    ensures |ws| == 18
  {
    [h.version, PAGE_SIZE, h.labelIndexRoot, h.propertyIndexRoot, 0, 0, h.schemaRoot, h.schemaVersion,
     h.nodePageCount, h.edgePageCount, h.propertyDirRoot, h.propertyDirLen, h.nodeDirRoot, h.edgeDirRoot,
     h.nodeFirstFreePage, h.edgeFirstFreePage, h.propertyFirstFreePage, h.propertyFreeListHead]
  }

  function WordBytes(ws: seq<U32>): (b: seq<Byte>)
    ensures |b| == 4 * |ws|
  {
    if ws == [] then [] else WordBytes(ws[..|ws|-1]) + Le32(ws[|ws|-1])
  }

  function Serialize(h: FileHeader): Page {
    MAGIC + WordBytes(Words(h)) + seq(PAGE_SIZE - 80, _ => 0)
  }

  function Deserialize(page: Page): Result<FileHeader> {
    if page[..8] != MAGIC then Err(BadMagic)
    else if WordAt(page, 8) != VERSION then Err(UnsupportedVersion(WordAt(page, 8)))
    else Ok(FileHeader(
      WordAt(page, 8), WordAt(page, 16), WordAt(page, 20), WordAt(page, 32), WordAt(page, 36),
      WordAt(page, 40), WordAt(page, 44), WordAt(page, 48), WordAt(page, 52), WordAt(page, 56),
      WordAt(page, 60), WordAt(page, 64), WordAt(page, 68), WordAt(page, 72), WordAt(page, 76)))
  }

  lemma {:induction false} WordBytesAt(ws: seq<U32>, i: nat)
    requires i < |ws|
    ensures WordBytes(ws)[4*i..4*i+4] == Le32(ws[i])
  {
    var n := |ws| - 1;
    if i < n {
      WordBytesAt(ws[..n], i);
      assert WordBytes(ws)[4*i..4*i+4] == WordBytes(ws[..n])[4*i..4*i+4];
    }
  }

  lemma SerializedWord(h: FileHeader, i: nat)
    requires i < 18
    ensures WordAt(Serialize(h), 8 + 4*i) == Words(h)[i]
    ensures Serialize(h)[..8] == MAGIC
  {
    var page := Serialize(h);
    WordBytesAt(Words(h), i);
    assert page[8+4*i..8+4*i+4] == WordBytes(Words(h))[4*i..4*i+4];
  }

  /** Four bytes hold a word, the least significant first. */
  predicate StoresAt(page: Page, off: nat, x: U32) {
    off + 4 <= PAGE_SIZE
    && var b0: int, b1: int, b2: int, b3: int := page[off], page[off+1], page[off+2], page[off+3];
       x == b0 + 0x100 * b1 + 0x1_0000 * b2 + 0x100_0000 * b3
  }

  lemma WordIsStored(page: Page, off: nat)
    requires off + 4 <= PAGE_SIZE
    ensures StoresAt(page, off, WordAt(page, off))
  {
  }

  /** Where each part of the header stands in its page. */
  lemma HeaderOffsets(h: FileHeader)
    ensures var page := Serialize(h);
      && page[..8] == [0x43, 0x48, 0x49, 0x46, 0x46, 0x4F, 0x4E, 0x00]
      && StoresAt(page, 8, h.version) && StoresAt(page, 12, 4096)
      && StoresAt(page, 16, h.labelIndexRoot) && StoresAt(page, 20, h.propertyIndexRoot)
      && StoresAt(page, 24, 0) && StoresAt(page, 28, 0)
      && StoresAt(page, 32, h.schemaRoot) && StoresAt(page, 36, h.schemaVersion)
      && StoresAt(page, 40, h.nodePageCount) && StoresAt(page, 44, h.edgePageCount)
      && StoresAt(page, 48, h.propertyDirRoot) && StoresAt(page, 52, h.propertyDirLen)
      && StoresAt(page, 56, h.nodeDirRoot) && StoresAt(page, 60, h.edgeDirRoot)
      && StoresAt(page, 64, h.nodeFirstFreePage) && StoresAt(page, 68, h.edgeFirstFreePage)
      && StoresAt(page, 72, h.propertyFirstFreePage) && StoresAt(page, 76, h.propertyFreeListHead)
      && forall k :: 80 <= k < PAGE_SIZE ==> page[k] == 0
  {
    var page := Serialize(h);
    hide WordAt, StoresAt, Serialize;
    forall i | 0 <= i < 18 ensures StoresAt(page, 8 + 4*i, Words(h)[i]) {
      SerializedWord(h, i);
      WordIsStored(page, 8 + 4*i);
    }
    SerializedWord(h, 0);
    ZerosBehind(h);
    assert StoresAt(page, 8 + 4*0, Words(h)[0]) && StoresAt(page, 8 + 4*1, Words(h)[1]) && StoresAt(page, 8 + 4*2, Words(h)[2]);
    assert StoresAt(page, 8 + 4*3, Words(h)[3]) && StoresAt(page, 8 + 4*4, Words(h)[4]) && StoresAt(page, 8 + 4*5, Words(h)[5]);
    assert StoresAt(page, 8 + 4*6, Words(h)[6]) && StoresAt(page, 8 + 4*7, Words(h)[7]) && StoresAt(page, 8 + 4*8, Words(h)[8]);
    assert StoresAt(page, 8 + 4*9, Words(h)[9]) && StoresAt(page, 8 + 4*10, Words(h)[10]) && StoresAt(page, 8 + 4*11, Words(h)[11]);
    assert StoresAt(page, 8 + 4*12, Words(h)[12]) && StoresAt(page, 8 + 4*13, Words(h)[13]) && StoresAt(page, 8 + 4*14, Words(h)[14]);
    assert StoresAt(page, 8 + 4*15, Words(h)[15]) && StoresAt(page, 8 + 4*16, Words(h)[16]) && StoresAt(page, 8 + 4*17, Words(h)[17]);
  }

  lemma ZerosBehind(h: FileHeader)
    ensures forall k :: 80 <= k < PAGE_SIZE ==> Serialize(h)[k] == 0
  {
  }

  /** What is not there in a new database: no roots, no pages, and nothing freed. */
  lemma NewHeaderIs()
    ensures NEW_HEADER.version == 10 && Deserialize(Serialize(NEW_HEADER)) == Ok(NEW_HEADER)
    ensures NEW_HEADER.schemaRoot == NEW_HEADER.schemaVersion == 0
    ensures NEW_HEADER.nodePageCount == NEW_HEADER.edgePageCount == NEW_HEADER.propertyDirLen == 0
    ensures NEW_HEADER.nodeFirstFreePage == NEW_HEADER.edgeFirstFreePage == NEW_HEADER.propertyFirstFreePage == 0
    ensures NEW_HEADER.labelIndexRoot == NEW_HEADER.propertyIndexRoot == NEW_HEADER.propertyDirRoot == 0xFFFF_FFFF
    ensures NEW_HEADER.nodeDirRoot == NEW_HEADER.edgeDirRoot == NEW_HEADER.propertyFreeListHead == 0xFFFF_FFFF
  {
    HeaderRoundTrip(NEW_HEADER);
  }

  /** A header page written with the current version reads back as the same header, and one written
      with any other version is refused. */
  lemma HeaderRoundTrip(h: FileHeader)
    ensures Deserialize(Serialize(h)) == if h.version == VERSION then Ok(h) else Err(UnsupportedVersion(h.version))
  {
    hide Serialize, WordAt;
    forall i | 0 <= i < 18 ensures WordAt(Serialize(h), 8 + 4*i) == Words(h)[i] {
      SerializedWord(h, i);
    }
    SerializedWord(h, 0);
    var page := Serialize(h);
    assert WordAt(page, 8 + 4*0) == Words(h)[0] && WordAt(page, 8 + 4*2) == Words(h)[2];
    assert WordAt(page, 8 + 4*3) == Words(h)[3] && WordAt(page, 8 + 4*6) == Words(h)[6];
    assert WordAt(page, 8 + 4*7) == Words(h)[7] && WordAt(page, 8 + 4*8) == Words(h)[8];
    assert WordAt(page, 8 + 4*9) == Words(h)[9] && WordAt(page, 8 + 4*10) == Words(h)[10];
    assert WordAt(page, 8 + 4*11) == Words(h)[11] && WordAt(page, 8 + 4*12) == Words(h)[12];
    assert WordAt(page, 8 + 4*13) == Words(h)[13] && WordAt(page, 8 + 4*14) == Words(h)[14];
    assert WordAt(page, 8 + 4*15) == Words(h)[15] && WordAt(page, 8 + 4*16) == Words(h)[16];
    assert WordAt(page, 8 + 4*17) == Words(h)[17];
  }

  lemma SameWord(p: Page, q: Page, off: nat)
    requires off + 4 <= PAGE_SIZE && WordAt(p, off) == WordAt(q, off)
    ensures p[off..off+4] == q[off..off+4]
  {
    hide Le32, FromLe32;
    Le32Inverse(p[off..off+4]);
    Le32Inverse(q[off..off+4]);
  }

  lemma AcceptedWord(page: Page, h: FileHeader, i: nat)
    requires Deserialize(page) == Ok(h) && i < 18 && i != 1 && i != 4 && i != 5
    ensures WordAt(page, 8 + 4 * i) == Words(h)[i]
  {
    hide WordAt;
  }

  /** Deserialization ignores the page-size word and the reserved bytes, and nothing else below 80:
      an accepted page agrees with the serialization of its header everywhere else. */
  lemma AcceptedPage(page: Page, h: FileHeader, k: nat)
    requires Deserialize(page) == Ok(h) && k < 80 && !(12 <= k < 16) && !(24 <= k < 32)
    ensures page[k] == Serialize(h)[k]
  {
    var image := Serialize(h);
    SerializedWord(h, 0);
    hide Serialize, WordAt, Words, Deserialize;
    if k < 8 {
      assert page[k] == page[..8][k] && image[k] == image[..8][k];
    } else {
      var i := (k - 8) / 4;
      var off := 8 + 4 * i;
      SerializedWord(h, i);
      AcceptedWord(page, h, i);
      SameWord(page, image, off);
      assert page[k] == page[off..off+4][k - off] && image[k] == image[off..off+4][k - off];
    }
  }
}
