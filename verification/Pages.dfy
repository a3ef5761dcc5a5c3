/** The physical page allocator of src/kernel/mm.c: a bitmap with one bit a page and a cached count of used pages. */
module Pages {
  import opened Words

  const PAGE_SIZE: nat := 4096
  const RESERVED_BYTES: nat := 0x2000000  // HEAP_START + HEAP_SIZE

  predicate TestBit(b: bv8, k: nat)
    requires k < 8
  {
    b & (1 << k) != 0
  }

  function SetBit(b: bv8, k: nat): bv8
    requires k < 8
  {
    b | (1 << k)
  }

  function ClearBit(b: bv8, k: nat): bv8
    requires k < 8
  {
    b & !(1 << k)
  }

  lemma OneBit(b: bv8, k: nat, j: nat)
    requires k < 8 && j < 8
    ensures TestBit(SetBit(b, k), j) <==> (j == k || TestBit(b, j))
    ensures TestBit(ClearBit(b, k), j) <==> (j != k && TestBit(b, j))
    ensures TestBit(0xFF, k)
  {
    var kk: bv8, jj: bv8 := k as bv8, j as bv8;
    assert kk < 8 && jj < 8;
    OneBitWide(b, kk, jj);
  }

  lemma OneBitWide(b: bv8, k: bv8, j: bv8)
    requires k < 8 && j < 8
    ensures (b | (1 << k)) & (1 << j) != 0 <==> (j == k || b & (1 << j) != 0)
    ensures (b & !(1 << k)) & (1 << j) != 0 <==> (j != k && b & (1 << j) != 0)
    ensures (0xFF as bv8) & (1 << k) != 0
  {
  }

  predicate Bit(bitmap: seq<bv8>, page: nat)
    requires page / 8 < |bitmap|
  {
    TestBit(bitmap[page / 8], page % 8)
  }

  lemma BitAfterSet(bitmap: seq<bv8>, page: nat, other: nat)
    requires page / 8 < |bitmap| && other / 8 < |bitmap|
    ensures var set_ := bitmap[page / 8 := SetBit(bitmap[page / 8], page % 8)];
            Bit(set_, other) <==> (other == page || Bit(bitmap, other))
    ensures var cleared := bitmap[page / 8 := ClearBit(bitmap[page / 8], page % 8)];
            Bit(cleared, other) <==> (other != page && Bit(bitmap, other))
  {
    if page / 8 == other / 8 {
      OneBit(bitmap[page / 8], page % 8, other % 8);
    }
  }

  /** The pages pmm_init sets aside: low memory and the kernel heap, or all of a smaller memory. */
  function ReservedPages(memSize: nat): (r: nat)
    ensures r <= memSize / PAGE_SIZE
    ensures PAGE_SIZE <= memSize ==> 0 < r
  {
    (if RESERVED_BYTES > memSize then memSize else RESERVED_BYTES) / PAGE_SIZE
  }

  lemma PageAddress(page: nat)
    ensures (page * PAGE_SIZE) / PAGE_SIZE == page && (page * PAGE_SIZE) % PAGE_SIZE == 0
  {
  }

  class PageAllocator {
    const bitmap: array<bv8>
    const maxBlocks: nat
    const reserved: nat
    var usedBlocks: nat

    ghost var taken: set<nat>  // pages handed out and not yet returned

    /** The bitmap records exactly the taken pages. */
    ghost predicate Recorded()
      reads this, bitmap
    {
      && maxBlocks <= 8 * bitmap.Length
      && (forall page :: page in taken ==> reserved <= page < maxBlocks)
      && (forall page :: reserved <= page < maxBlocks ==> (page in taken <==> Bit(bitmap[..], page)))
    }

    /** The cached count never drifts from the bitmap; page 0 is reserved, so address 0 can mean "none". */
    ghost predicate Valid()
      reads this, bitmap
    {
      && 0 < reserved <= maxBlocks && Recorded()
      && maxBlocks * PAGE_SIZE < WORD
      && usedBlocks == reserved + |taken|
    }

    ghost predicate HasFree()
      reads this
    {
      exists page :: reserved <= page < maxBlocks && page !in taken
    }

    /** pmm_init */
    constructor (memSize: nat)
      requires memSize < WORD
      ensures Valid() && fresh(bitmap) && taken == {} && usedBlocks == reserved
      ensures var m := if memSize < PAGE_SIZE then PAGE_SIZE else memSize;
              maxBlocks == m / 4096 && reserved == (if m < 0x200_0000 then m else 0x200_0000) / 4096
    {
      var m := if memSize < PAGE_SIZE then PAGE_SIZE else memSize;
      var max := m / PAGE_SIZE;
      var res := ReservedPages(m);
      maxBlocks := max;
      reserved := res;
      var bm := new bv8[(max + 7) / 8](_ => 0xFF);
      var i := res;
      while i < max
        invariant res <= i <= max
        invariant forall page :: res <= page < i ==> !Bit(bm[..], page)
      {
        ghost var before := bm[..];
        bm[i / 8] := ClearBit(bm[i / 8], i % 8);
        assert bm[..] == before[i / 8 := ClearBit(before[i / 8], i % 8)];
        forall page | res <= page < i + 1 ensures !Bit(bm[..], page) {
          BitAfterSet(before, i, page);
        }
        i := i + 1;
      }
      bitmap := bm;
      usedBlocks := res;
      taken := {};
    }

    /** pmm_bitmap_set */
    method BitmapSet(page: nat)
      requires reserved <= page < maxBlocks && Recorded()
      modifies bitmap, this`taken
      ensures Recorded() && taken == old(taken) + {page}
    {
      ghost var before := bitmap[..];
      bitmap[page / 8] := SetBit(bitmap[page / 8], page % 8);
      assert bitmap[..] == before[page / 8 := SetBit(before[page / 8], page % 8)];
      taken := taken + {page};
      forall other | reserved <= other < maxBlocks
        ensures other in taken <==> Bit(bitmap[..], other)
      {
        BitAfterSet(before, page, other);
      }
    }

    /** pmm_bitmap_clear */
    method BitmapClear(page: nat)
      requires reserved <= page < maxBlocks && Recorded()
      modifies bitmap, this`taken
      ensures Recorded() && taken == old(taken) - {page}
    {
      ghost var before := bitmap[..];
      bitmap[page / 8] := ClearBit(bitmap[page / 8], page % 8);
      assert bitmap[..] == before[page / 8 := ClearBit(before[page / 8], page % 8)];
      taken := taken - {page};
      forall other | reserved <= other < maxBlocks
        ensures other in taken <==> Bit(bitmap[..], other)
      {
        BitAfterSet(before, page, other);
      }
    }

    /** pmm_alloc_page: the lowest page not taken, or 0 exactly when every page is taken. */
    method AllocPage() returns (p: nat)
      requires Valid()
      modifies this`usedBlocks, this`taken, bitmap
      ensures Valid()
      ensures p != 0 <==> old(HasFree())
      ensures p == 0 ==> taken == old(taken)
      ensures p != 0 ==> p % PAGE_SIZE == 0 && reserved <= p / PAGE_SIZE < maxBlocks && p < WORD
      ensures p != 0 ==> p / PAGE_SIZE !in old(taken) && taken == old(taken) + {p / PAGE_SIZE}
      ensures p != 0 ==> forall page :: reserved <= page < p / PAGE_SIZE ==> page in old(taken)
    {
      var i := reserved;
      while i < maxBlocks
        invariant reserved <= i <= maxBlocks
        invariant forall page :: reserved <= page < i ==> page in taken
      {
        if !TestBit(bitmap[i / 8], i % 8) {
          BitmapSet(i);
          PageAddress(i);
          usedBlocks := usedBlocks + 1;
          return i * PAGE_SIZE;
        }
        i := i + 1;
      }
      return 0;
    }

    /** pmm_free_page: returns a taken page; null, reserved, foreign and already free pages are ignored. */
    method FreePage(p: nat)
      requires Valid() && p < WORD
      modifies this`usedBlocks, this`taken, bitmap
      ensures Valid()
      ensures taken == old(taken) - {p / PAGE_SIZE}
    {
      if p == 0 { assert taken - {0} == taken; return; }
      var block := p / PAGE_SIZE;
      if block < reserved || block >= maxBlocks { assert taken - {block} == taken; return; }
      if !TestBit(bitmap[block / 8], block % 8) { assert taken - {block} == taken; return; }
      BitmapClear(block);
      if usedBlocks > 0 { usedBlocks := usedBlocks - 1; }
    }
  }
}
