/**
 * Pages of fixed-size slots (chiffondb-core/src/storage/page.rs): a bitmap of used slots, then the
 * slots, in one page.
 */
module PageSlots {
  import opened Types

  // ---- Layout arithmetic ----

  function BitmapBytes(slots: nat): nat {
    (slots + 7) / 8
  }

  /** The bitmap of `slots` slots and the slots themselves fit in a page. */
  predicate Fits(slotSize: nat, slots: nat) {
    BitmapBytes(slots) + slots * slotSize <= PAGE_SIZE
  }

  function FirstGuess(slotSize: nat): nat {
    PAGE_SIZE / (slotSize + 1)
  }

  lemma BitmapGrows(a: nat, b: nat)
    requires a <= b
    ensures BitmapBytes(a) <= BitmapBytes(b) <= b
  {
  }

  lemma MulMono(a: nat, b: nat, s: nat)
    requires a <= b
    ensures a * s <= b * s
  {
  }

  lemma FewerFit(slotSize: nat, a: nat, b: nat)
    requires a <= b && Fits(slotSize, b)
    ensures Fits(slotSize, a)
  {
    BitmapGrows(a, b);
    MulMono(a, b, slotSize);
  }

  lemma GuessTimes(slotSize: nat)
    ensures var n, rest := FirstGuess(slotSize), PAGE_SIZE % (slotSize + 1);
      n * slotSize + n + rest == PAGE_SIZE
  {
    DivMod(PAGE_SIZE, slotSize + 1);
    MulNext(slotSize, FirstGuess(slotSize));
  }

  lemma DivMod(a: nat, d: nat)
    requires 0 < d
    ensures a == (a / d) * d + a % d && 0 <= a / d && 0 <= a % d
  {
  }

  lemma MulNext(a: nat, s: nat)
    ensures s * (a + 1) == s * a + s
    ensures (a + 1) * s == a * s + s
  {
  }

  /** The first guess always fits, so the search for a smaller count never starts. */
  lemma GuessFits(slotSize: nat)
    requires slotSize > 0
    ensures Fits(slotSize, FirstGuess(slotSize)) && FirstGuess(slotSize) <= PAGE_SIZE / 2
  {
    GuessTimes(slotSize);
    var n := FirstGuess(slotSize);
    BitmapGrows(n, n);
    MulMono(1, slotSize, n);
    hide FirstGuess;
    assert slotSize * n == n * slotSize;
  }

  /** The first guess is the largest count that fits exactly when one more slot and its bitmap need more
      than the division left over. */
  lemma GuessIsMaximalIff(slotSize: nat)
    requires slotSize > 0
    ensures var n := FirstGuess(slotSize);
      (forall m :: m > n ==> !Fits(slotSize, m))
      <==> n + PAGE_SIZE % (slotSize + 1) < slotSize + BitmapBytes(n + 1)
  {
    var n := FirstGuess(slotSize);
    GuessTimes(slotSize);
    assert (n + 1) * slotSize == n * slotSize + slotSize;
    assert Fits(slotSize, n + 1) <==> slotSize + BitmapBytes(n + 1) <= n + PAGE_SIZE % (slotSize + 1);
    if !Fits(slotSize, n + 1) {
      forall m | m > n ensures !Fits(slotSize, m) {
        if Fits(slotSize, m) {
          FewerFit(slotSize, n + 1, m);
        }
      }
    }
  }

  /** For records of 64 bytes it is the largest; for slots of one byte it is far from it. */
  lemma GuessExamples()
    ensures FirstGuess(64) == 63 && !Fits(64, 64)
    ensures FirstGuess(1) == 2048 && Fits(1, 3640) && !Fits(1, 3641)
  {
  }

  /** Counts down from the first guess to a number of slots that fits. */
  method ComputeSlotCount(slotSize: nat) returns (n: nat)
    requires slotSize > 0
    ensures n == FirstGuess(slotSize) && Fits(slotSize, n)
  {
    n := PAGE_SIZE / (slotSize + 1);
    while BitmapBytes(n) + n * slotSize > PAGE_SIZE
      invariant n <= FirstGuess(slotSize)
      invariant forall m :: n < m <= FirstGuess(slotSize) ==> !Fits(slotSize, m)
      decreases n
    {
      n := n - 1;
    }
    GuessFits(slotSize);
  }

  function SlotOffset(slotSize: nat, idx: nat): nat {
    BitmapBytes(FirstGuess(slotSize)) + idx * slotSize
  }

  /** Slots lie inside the page, behind the bitmap, and do not overlap. */
  lemma SlotsAreDisjoint(slotSize: nat, i: nat, j: nat)
    requires slotSize > 0 && i < FirstGuess(slotSize) && j < FirstGuess(slotSize)
    ensures BitmapBytes(FirstGuess(slotSize)) <= SlotOffset(slotSize, i)
    ensures SlotOffset(slotSize, i) + slotSize <= PAGE_SIZE
    ensures i != j ==>
      SlotOffset(slotSize, i) + slotSize <= SlotOffset(slotSize, j) || SlotOffset(slotSize, j) + slotSize <= SlotOffset(slotSize, i)
  {
    hide FirstGuess;
    GuessFits(slotSize);
    MulMono(i + 1, FirstGuess(slotSize), slotSize);
    MulNext(i, slotSize);
    MulNext(j, slotSize);
    if i < j {
      MulMono(i + 1, j, slotSize);
    } else if j < i {
      MulMono(j + 1, i, slotSize);
    }
  }

  // ---- Bits ----

  predicate BitAt(b: bv8, k: bv8)
    requires k < 8
  {
    (b >> k) & 1 == 1
  }

  function BitSet(b: bv8, k: bv8, used: bool): bv8
    requires k < 8
  {
    if used then b | (1 << k) else b & !(1 << k)
  }

  /** Setting or clearing a bit changes that bit only. */
  lemma BitSetReads(b: bv8, k: bv8, used: bool, j: bv8)
    requires k < 8 && j < 8
    ensures BitAt(BitSet(b, k, used), j) == if j == k then used else BitAt(b, j)
  {
  }

  /** The number of a slot's bit in its byte. */
  function BitOf(idx: nat): (k: bv8)
    ensures k < 8
  {
    match idx % 8
    case 0 => 0 case 1 => 1 case 2 => 2 case 3 => 3
    case 4 => 4 case 5 => 5 case 6 => 6 case _ => 7
  }

  function ByteOf(idx: nat): nat {
    idx / 8
  }

  /** Two slots never share a bit, and each has one in the bitmap. */
  lemma BitsDiffer(i: nat, j: nat)
    requires ByteOf(i) == ByteOf(j) && BitOf(i) == BitOf(j)
    ensures i == j
  {
  }

  lemma ByteInBitmap(idx: nat, slotSize: nat)
    requires slotSize > 0 && idx < FirstGuess(slotSize)
    ensures ByteOf(idx) < BitmapBytes(FirstGuess(slotSize)) <= PAGE_SIZE
  {
    GuessFits(slotSize);
  }

  /** Where the bit of a slot stands, the lowest bit of a byte first, and where the slot itself. */
  lemma SlotFormat(slotSize: nat, idx: nat)
    ensures ByteOf(idx) * 8 + BitOf(idx) as int == idx
    ensures [1, 2, 4, 8, 16, 32, 64, 128][BitOf(idx)] == BitSet(0, BitOf(idx), true)
    ensures var n := PAGE_SIZE / (slotSize + 1); SlotOffset(slotSize, idx) == (n + 7) / 8 + idx * slotSize
  {
  }

  // ---- The page ----

  class SlotPage {
    const data: array<bv8>
    const slotSize: nat
    const slotCount: nat

    ghost predicate Valid()
      reads this
    {
      data.Length == PAGE_SIZE && slotSize > 0 && slotCount == FirstGuess(slotSize)
    }

    /** The bitmap says that the slot is used. */
    ghost predicate Marked(idx: nat)
      requires Valid()
      reads this, data
    {
      if idx < slotCount then
        ByteInBitmap(idx, slotSize);
        BitAt(data[ByteOf(idx)], BitOf(idx))
      else false
    }

    ghost function Used(): set<nat>
      requires Valid()
      reads this, data
    {
      set i: nat | i < slotCount && Marked(i)
    }

    ghost function Slot(idx: nat): seq<bv8>
      requires Valid() && idx < slotCount
      reads this, data
    {
      SlotsAreDisjoint(slotSize, idx, idx);
      data[SlotOffset(slotSize, idx)..SlotOffset(slotSize, idx) + slotSize]
    }

    constructor (slotSize: nat)
      requires slotSize > 0
      ensures Valid() && fresh(data) && this.slotSize == slotSize
      ensures Used() == {} && forall i :: 0 <= i < PAGE_SIZE ==> data[i] == 0
    {
      this.slotSize := slotSize;
      var n := ComputeSlotCount(slotSize);
      slotCount := n;
      data := new bv8[PAGE_SIZE](_ => 0);
    }

    constructor FromBytes(bytes: seq<bv8>, slotSize: nat)
      requires slotSize > 0 && |bytes| == PAGE_SIZE
      ensures Valid() && fresh(data) && this.slotSize == slotSize && data[..] == bytes
    {
      this.slotSize := slotSize;
      var n := ComputeSlotCount(slotSize);
      slotCount := n;
      data := new bv8[PAGE_SIZE](i requires 0 <= i < |bytes| => bytes[i]);
    }

    method IsUsed(slot: nat) returns (r: bool)
      requires Valid()
      ensures r == (slot in Used())
    {
      if slot >= slotCount {
        return false;
      }
      ByteInBitmap(slot, slotSize);
      r := BitAt(data[ByteOf(slot)], BitOf(slot));
    }

    method SetBitmap(idx: nat, used: bool)
      requires Valid() && idx < slotCount
      modifies data
      ensures Used() == if used then old(Used()) + {idx} else old(Used()) - {idx}
      ensures forall i :: BitmapBytes(slotCount) <= i < PAGE_SIZE ==> data[i] == old(data[i])
    {
      hide BitAt, BitSet, BitOf, ByteOf, BitmapBytes, FirstGuess;
      ByteInBitmap(idx, slotSize);
      data[ByteOf(idx)] := BitSet(data[ByteOf(idx)], BitOf(idx), used);
      forall i: nat | i < slotCount ensures Marked(i) == if i == idx then used else old(Marked(i)) {
        ByteInBitmap(i, slotSize);
        BitSetReads(old(data[ByteOf(idx)]), BitOf(idx), used, BitOf(i));
        if ByteOf(i) == ByteOf(idx) && BitOf(i) == BitOf(idx) {
          BitsDiffer(i, idx);
        }
      }
    }

    /** The lowest free slot, or none exactly when the page is full; no slot changes its bytes. */
    method AllocSlot() returns (r: Option<nat>)
      requires Valid()
      modifies data
      ensures r == None <==> forall i: nat :: i < slotCount ==> i in old(Used())
      ensures r.Some? ==> r.value < slotCount && r.value !in old(Used()) && forall i: nat :: i < r.value ==> i in old(Used())
      ensures Used() == old(Used()) + if r.Some? then {r.value} else {}
      ensures forall i: nat :: i < slotCount ==> Slot(i) == old(Slot(i))
    {
      for i := 0 to slotCount
        invariant Used() == old(Used()) && forall j: nat :: j < i ==> j in Used()
        invariant forall j: nat :: j < slotCount ==> Slot(j) == old(Slot(j))
      {
        var used := IsUsed(i);
        if !used {
          label before:
          SetBitmap(i, true);
          SlotsKept@before();
          return Some(i);
        }
      }
      r := None;
    }

    method FreeSlot(slot: nat) returns (r: Result<()>)
      requires Valid()
      modifies data
      ensures r == if slot < slotCount then Ok(()) else Err(StorageCorrupted(0))
      ensures Used() == old(Used()) - {slot}
      ensures forall i: nat :: i < slotCount ==> Slot(i) == old(Slot(i))
    {
      if slot >= slotCount {
        return Err(StorageCorrupted(0));
      }
      SetBitmap(slot, false);
      SlotsKept();
      r := Ok(());
    }

    /** Bytes behind the bitmap that did not change make unchanged slots. */
    twostate lemma SlotsKept()
      requires Valid() && old(Valid())
      requires forall i :: BitmapBytes(slotCount) <= i < PAGE_SIZE ==> data[i] == old(data[i])
      ensures forall i: nat :: i < slotCount ==> Slot(i) == old(Slot(i))
    {
      forall i: nat | i < slotCount ensures Slot(i) == old(Slot(i)) {
        SlotsAreDisjoint(slotSize, i, i);
      }
    }

    /** Stores exactly one slot's worth of bytes; the other slots and the bitmap keep theirs. A slot need
        not be marked as used. */
    method WriteSlot(slot: nat, bytes: seq<bv8>) returns (r: Result<()>)
      requires Valid()
      modifies data
      ensures r == if |bytes| == slotSize && slot < slotCount then Ok(()) else Err(StorageCorrupted(0))
      ensures Used() == old(Used())
      ensures forall i: nat :: i < slotCount ==> Slot(i) == if r.Ok? && i == slot then bytes else old(Slot(i))
    {
      if |bytes| != slotSize {
        return Err(StorageCorrupted(0));
      }
      if slot >= slotCount {
        return Err(StorageCorrupted(0));
      }
      var offset := SlotOffset(slotSize, slot);
      SlotsAreDisjoint(slotSize, slot, slot);
      CopyInto(offset, bytes);
      SlotWritten(slot, bytes);
      r := Ok(());
    }

    method CopyInto(offset: nat, bytes: seq<bv8>)
      requires offset + |bytes| <= data.Length
      modifies data
      ensures forall i :: 0 <= i < data.Length ==>
        data[i] == if offset <= i < offset + |bytes| then bytes[i - offset] else old(data[i])
    {
      for k := 0 to |bytes|
        invariant forall i :: 0 <= i < data.Length ==>
          data[i] == if offset <= i < offset + k then bytes[i - offset] else old(data[i])
      {
        data[offset + k] := bytes[k];
      }
    }

    twostate lemma SlotWritten(slot: nat, new bytes: seq<bv8>)
      requires Valid() && old(Valid()) && slot < slotCount && |bytes| == slotSize
      requires SlotOffset(slotSize, slot) + slotSize <= PAGE_SIZE
      requires var offset := SlotOffset(slotSize, slot);
        forall i :: 0 <= i < PAGE_SIZE ==>
          data[i] == if offset <= i < offset + slotSize then bytes[i - offset] else old(data[i])
      ensures Used() == old(Used())
      ensures forall i: nat :: i < slotCount ==> Slot(i) == if i == slot then bytes else old(Slot(i))
    {
      forall i: nat | i < slotCount ensures Slot(i) == if i == slot then bytes else old(Slot(i)) {
        SlotsAreDisjoint(slotSize, slot, i);
        SlotsAreDisjoint(slotSize, i, slot);
      }
      SlotsAreDisjoint(slotSize, slot, slot);
      hide SlotOffset;
      forall i: nat | i < slotCount ensures Marked(i) == old(Marked(i)) {
        ByteInBitmap(i, slotSize);
      }
    }

    method ReadSlot(slot: nat) returns (r: Result<seq<bv8>>)
      requires Valid()
      ensures if slot < slotCount then r == Ok(Slot(slot)) else r == Err(StorageCorrupted(0))
    {
      if slot >= slotCount {
        return Err(StorageCorrupted(0));
      }
      SlotsAreDisjoint(slotSize, slot, slot);
      var offset := SlotOffset(slotSize, slot);
      r := Ok(data[offset..offset + slotSize]);
    }
  }
}
