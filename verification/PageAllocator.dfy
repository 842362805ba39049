/** The bitmap page allocator: one bit per page in an array of bytes, updated in place. */
module PageAllocator {
  import opened Machine
  import opened PageHeap

  const BOOTMEM_MIN_PAGES := 64
  const BOOTMEM_MAX_PAGES := 65536

  function Mask(k: nat): bv8
    requires k < 8
  {
    (1 as bv8) << k
  }

  predicate TestBit(b: bv8, k: nat)
    requires k < 8
  {
    b & Mask(k) != 0
  }

  function WithBit(b: bv8, k: nat, val: bool): bv8
    requires k < 8
  {
    if val then b | Mask(k) else b & !Mask(k)
  }

  lemma TestWithBit(b: bv8, k: nat, val: bool, j: nat)
    requires k < 8 && j < 8
    ensures TestBit(WithBit(b, k, val), j) == if j == k then val else TestBit(b, j)
  {
    MasksDiffer(k, j);
    MaskLaws(b, Mask(k), Mask(j));
  }

  lemma MaskValue(k: nat)
    requires k < 8
    ensures Mask(k) == [1, 2, 4, 8, 16, 32, 64, 128][k]
  {
  }

  lemma MasksDiffer(k: nat, j: nat)
    requires k < 8 && j < 8
    ensures Mask(k) != 0
    ensures k != j ==> Mask(k) & Mask(j) == 0
  {
    MaskValue(k);
    MaskValue(j);
  }

  lemma MaskLaws(b: bv8, m: bv8, w: bv8)
    ensures m & w == 0 ==> (b | m) & w == b & w && (b & !m) & w == b & w
    ensures (b | m) & m == m && (b & !m) & m == 0
  {
  }

  lemma TestZero(k: nat)
    requires k < 8
    ensures !TestBit(0, k)
  {
  }

  class BootPageAllocator {
    var bitmap: array?<bv8>
    var heapBase: u64
    var heapSize: u64
    var totalPages: u32
    var freePages: u32
    // The pages that each allocation so far still owns
    ghost var live: seq<set<int>>

    // What memory safety of the bitmap accesses rests on
    ghost predicate Shaped()
      reads this
    {
      && totalPages <= BOOTMEM_MAX_PAGES
      && (bitmap == null ==> totalPages == 0)
      && (bitmap != null ==> bitmap.Length == (totalPages + 7) / 8)
    }

    predicate Test(i: nat)
      requires bitmap != null && i / 8 < bitmap.Length
      reads this, bitmap
    {
      TestBit(bitmap[i / 8], i % 8)
    }

    function Bits(): (bits: seq<bool>)
      requires Shaped()
      reads this, bitmap
      ensures |bits| == totalPages
      ensures forall i :: 0 <= i < totalPages ==> bits[i] == Test(i)
    {
      seq(totalPages, i requires 0 <= i < totalPages && Shaped() reads this, bitmap => Test(i))
    }

    ghost function State(): Heap
      requires Shaped()
      reads this, bitmap
    {
      Heap(heapBase, Bits(), freePages, live)
    }

    ghost predicate Valid()
      reads this, bitmap
    {
      Shaped() && Consistent(State())
    }

    constructor ()
      ensures Valid() && bitmap == null && Bits() == []
    {
      bitmap := null;
      heapBase, heapSize, totalPages, freePages := 0, 0, 0, 0;
      live := [];
    }

    /** The page count is the heap size in pages, cut to 32 bits and then capped. */
    method InitAllocator(heapBase: u64, heapSize: u64) returns (ok: bool)
      modifies this
      ensures ok <==> heapSize >= 0x4_0000
      ensures !ok ==> unchanged(this)
      ensures ok ==> Valid() && fresh(bitmap) && this.heapBase == heapBase && this.heapSize == heapSize
      ensures ok ==>
                var pages := heapSize / 4096 % 0x1_0000_0000;
                State() == Fresh(heapBase, if pages > 65536 then 65536 else pages)
    {
      if heapSize < BOOTMEM_PAGE_SIZE * BOOTMEM_MIN_PAGES {
        return false;
      }
      this.heapBase := heapBase;
      this.heapSize := heapSize;
      totalPages := heapSize / BOOTMEM_PAGE_SIZE % TWO_32;
      if totalPages > BOOTMEM_MAX_PAGES {
        totalPages := BOOTMEM_MAX_PAGES;
      }
      bitmap := new bv8[(totalPages + 7) / 8](_ => 0);
      freePages := totalPages;
      live := [];
      forall i | 0 <= i < totalPages
        ensures !Test(i)
      {
        TestZero(i % 8);
      }
      assert State() == Fresh(heapBase, totalPages);
      RunConsistent(heapBase, totalPages, []);
      return true;
    }

    method BitmapSet(idx: nat, val: bool)
      requires Shaped() && bitmap != null && idx < totalPages
      modifies bitmap
      ensures Bits() == old(Bits())[idx := val]
    {
      ghost var b := bitmap[idx / 8];
      forall j | 0 <= j < 8
        ensures TestBit(WithBit(b, idx % 8, val), j) == if j == idx % 8 then val else TestBit(b, j)
      {
        TestWithBit(b, idx % 8, val, j);
      }
      bitmap[idx / 8] := WithBit(bitmap[idx / 8], idx % 8, val);
    }

    method SetPages(first: nat, n: nat, val: bool)
      requires Shaped() && first + n <= totalPages
      modifies bitmap
      ensures Bits() == WithRange(old(Bits()), first, n, val)
    {
      for j := 0 to n
        invariant Bits() == WithRange(old(Bits()), first, j, val)
      {
        BitmapSet(first + j, val);
      }
    }

    /** `taken` is the first page of the allocated run, if there is one. */
    method AllocPages(n: u32) returns (addr: u64, ghost taken: Option<nat>)
      requires Valid()
      modifies `freePages, `live, bitmap
      ensures Valid()
      ensures taken == Placement(old(State()), Alloc(n))
      ensures State() == Step(old(State()), Alloc(n))
      ensures addr == if taken.Some? then PageAddress(heapBase, taken.value) else 0
    {
      ghost var h := State();
      StepConsistent(h, Alloc(n));
      taken := None;
      if bitmap == null || n == 0 {
        return 0, taken;
      }
      AllocNeedsClearPages(h, n);
      if n > freePages {
        return 0, taken;
      }
      var found, i := FirstFreeRun(n);
      if !found {
        return 0, taken;
      }
      taken := Some(i);
      TakePages(i, n);
      return PageAddress(heapBase, i), taken;
    }

    // The scan of AllocPages, which skips past the allocated page it runs into
    method FirstFreeRun(n: nat) returns (found: bool, i: nat)
      requires Shaped() && bitmap != null && 0 < n <= totalPages
      ensures FirstFit(Bits(), heapBase, 1, n, 0) == if found then Some(i) else None
      ensures found ==> i + n <= totalPages
    {
      i := 0;
      while i <= totalPages - n
        invariant i <= totalPages
        invariant FirstFit(Bits(), heapBase, 1, n, 0) == FirstFit(Bits(), heapBase, 1, n, i)
      {
        var clear, j := TestRun(i, n);
        if clear {
          return true, i;
        }
        FirstFitSkips(Bits(), heapBase, 1, n, i, j);
        i := i + j + 1;
      }
      return false, i;
    }

    // Whether a run of pages is clear; if not, `j` is the distance to its first page that is set
    method TestRun(i: nat, n: nat) returns (found: bool, j: nat)
      requires Shaped() && bitmap != null && i + n <= totalPages
      ensures found <==> Clear(Bits(), i, n)
      ensures !found ==> j < n && Bits()[i + j]
    {
      j := 0;
      while j < n
        invariant j <= n && Clear(Bits(), i, j)
      {
        if Test(i + j) {
          return false, j;
        }
        j := j + 1;
      }
      return true, j;
    }

    // Marks a clear run of pages as allocated
    method TakePages(i: nat, n: nat)
      requires Shaped() && n <= freePages && i + n <= totalPages
      modifies `freePages, `live, bitmap
      ensures Shaped() && State() == Placed(old(State()), i, n)
    {
      ghost var before := State();
      SetPages(i, n, true);
      assert Bits() == WithRange(before.bits, i, n, true);
      freePages := freePages - n;
      live := before.live + [Interval(i, i + n)];
    }

    method AllocAligned(n: u32, alignLog2: u32) returns (addr: u64, ghost taken: Option<nat>)
      requires Valid() && alignLog2 < 64
      // the loop bound is an unsigned difference
      requires bitmap != null ==> n <= totalPages
      modifies `freePages, `live, bitmap
      ensures Valid()
      ensures taken == Placement(old(State()), Op.AllocAligned(n, alignLog2))
      ensures State() == Step(old(State()), Op.AllocAligned(n, alignLog2))
      ensures addr == if taken.Some? then PageAddress(heapBase, taken.value) else 0
    {
      ghost var h := State();
      StepConsistent(h, Op.AllocAligned(n, alignLog2));
      taken := None;
      if bitmap == null || n == 0 {
        return 0, taken;
      }
      Pow2Positive(alignLog2);
      var found, i := FirstAlignedRun(n, Pow2(alignLog2));
      if !found {
        return 0, taken;
      }
      taken := Some(i);
      AlignedNeedsClearPages(h, n, alignLog2);
      TakePages(i, n);
      return PageAddress(heapBase, i), taken;
    }

    // The scan of AllocAligned, which tries every page in turn
    method FirstAlignedRun(n: nat, align: nat) returns (found: bool, i: nat)
      requires Shaped() && bitmap != null && 0 < n <= totalPages && align > 0
      ensures FirstFit(Bits(), heapBase, align, n, 0) == if found then Some(i) else None
    {
      FirstFitIsLowest(Bits(), heapBase, align, n, 0);
      i := 0;
      while i <= totalPages - n
        invariant forall k :: 0 <= k < i ==> !CanPlace(Bits(), heapBase, align, n, k)
      {
        if PageAddress(heapBase, i) % align == 0 {
          var clear, _ := TestRun(i, n);
          if clear {
            assert CanPlace(Bits(), heapBase, align, n, i);
            return true, i;
          }
        }
        i := i + 1;
      }
      return false, i;
    }

    /**
     * Clears the pages whatever they are; the allocator stays consistent exactly when all of
     * them were allocated.
     */
    method FreePages(addr: u64, n: u32) returns (ok: bool, ghost page: nat)
      requires Valid()
      // the range check is an unsigned sum
      requires PageIndex(heapBase, addr) + n < TWO_32
      modifies `freePages, `live, bitmap
      ensures Shaped()
      ensures page == PageIndex(heapBase, addr)
      ensures ok <==> bitmap != null && n > 0 && heapBase <= addr && page + n <= totalPages
      ensures State() == if ok then Step(old(State()), Free(page, n)) else old(State())
      ensures ok ==> (Valid() <==> Allowed(old(State()), Free(page, n)))
      // the page is the one addressed unless the index was cut
      ensures ok ==> (page == (addr - heapBase) / 4096 <==> addr - heapBase < INDEX_SPAN)
    {
      page := PageIndex(heapBase, addr);
      if bitmap == null || n == 0 {
        return false, page;
      }
      if addr < heapBase {
        return false, page;
      }
      var pageIdx := PageIndex(heapBase, addr);
      if pageIdx + n > totalPages {
        return false, page;
      }
      PageIndexExact(heapBase, addr);
      FreeConsistentExactly(State(), pageIdx, n);
      CountClearAtMost(Bits());
      ReleasePages(pageIdx, n);
      return true, page;
    }

    method ReleasePages(i: nat, n: nat)
      requires Shaped() && i + n <= totalPages && freePages + n < TWO_32
      modifies `freePages, `live, bitmap
      ensures Shaped() && State() == Freed(old(State()), i, n)
    {
      SetPages(i, n, false);
      freePages := freePages + n;
      live := Without(live, Interval(i, i + n));
    }
  }

  // The page that an address at or above the heap base falls in, cut to 32 bits
  function PageIndex(base: u64, addr: u64): u32 {
    if base <= addr then (addr - base) / BOOTMEM_PAGE_SIZE % TWO_32 else 0
  }

  // 2^44 bytes, the span of 2^32 pages
  const INDEX_SPAN := 0x1000_0000_0000

  lemma PageIndexExact(base: u64, addr: u64)
    requires base <= addr
    ensures PageIndex(base, addr) == (addr - base) / 4096 <==> addr - base < INDEX_SPAN
  {
    var page := (addr - base) / BOOTMEM_PAGE_SIZE;
    assert page < TWO_32 <==> addr - base < INDEX_SPAN;
  }

  /** Freeing one page at 2^44 of a heap at 0 frees page 0, when that is allocated. */
  lemma FarAddressFreesPageZero(pages: nat)
    requires pages > 0
    ensures PageIndex(0, INDEX_SPAN) == 0 && !(INDEX_SPAN / BOOTMEM_PAGE_SIZE == 0)
    ensures var h := Step(Fresh(0, pages), Alloc(1));
            var freed := Step(h, Free(PageIndex(0, INDEX_SPAN), 1));
            Consistent(h) && |h.bits| == pages && h.bits[0]
            && Consistent(freed) && |freed.bits| == pages && !freed.bits[0]
  {
    var start, op := Fresh(0, pages), Alloc(1);
    RunConsistent(0, pages, []);
    PlacementIsLowest(start, op);
    assert CanPlace(start.bits, 0, Alignment(op), 1, 0);
    StepConsistent(start, op);
    StepConsistent(Step(start, op), Free(0, 1));
  }

  lemma AllocNeedsClearPages(h: Heap, n: nat)
    requires Consistent(h) && n > 0
    ensures Placement(h, Alloc(n)).Some? ==> n <= h.free
    ensures h.free <= |h.bits|
  {
    PlacementIsLowest(h, Alloc(n));
    CountClearAtMost(h.bits);
    if Placement(h, Alloc(n)).Some? {
      FitNeedsClearPages(h.bits, Placement(h, Alloc(n)).value, n);
    }
  }

  lemma AlignedNeedsClearPages(h: Heap, n: nat, alignLog2: nat)
    requires Consistent(h) && n > 0
    requires Placement(h, AllocAligned(n, alignLog2)).Some?
    ensures n <= h.free && Placement(h, AllocAligned(n, alignLog2)).value + n <= |h.bits|
  {
    PlacementIsLowest(h, AllocAligned(n, alignLog2));
    FitNeedsClearPages(h.bits, Placement(h, AllocAligned(n, alignLog2)).value, n);
  }
}
