/** First-fit page allocation as pure steps over a sequence of page bits, and what every run keeps. */
module PageHeap {
  import opened Machine

  const BOOTMEM_PAGE_SIZE := 4096

  /** The address of a page, computed in 64 bits. */
  function PageAddress(base: u64, page: nat): u64 {
    (base + page * BOOTMEM_PAGE_SIZE) % TWO_64
  }

  predicate Clear(bits: seq<bool>, i: nat, n: nat) {
    i + n <= |bits| && forall j :: i <= j < i + n ==> !bits[j]
  }

  predicate AllSet(bits: seq<bool>, i: nat, n: nat) {
    i + n <= |bits| && forall j :: i <= j < i + n ==> bits[j]
  }

  function WithRange(bits: seq<bool>, i: nat, n: nat, v: bool): seq<bool> {
    seq(|bits|, k requires 0 <= k < |bits| => if i <= k < i + n then v else bits[k])
  }

  // ----- Counting -----

  function CountClear(bits: seq<bool>): nat {
    if bits == [] then 0
    else CountClear(bits[..|bits| - 1]) + if bits[|bits| - 1] then 0 else 1
  }

  // The number of set bits among those from `i` up to `i + n`
  function CountSetIn(bits: seq<bool>, i: nat, n: nat): nat {
    if bits == [] then 0
    else CountSetIn(bits[..|bits| - 1], i, n)
         + if i <= |bits| - 1 < i + n && bits[|bits| - 1] then 1 else 0
  }

  lemma {:induction false} CountAfterClearing(bits: seq<bool>, i: nat, n: nat)
    ensures CountClear(WithRange(bits, i, n, false)) == CountClear(bits) + CountSetIn(bits, i, n)
  {
    if bits != [] {
      var front := bits[..|bits| - 1];
      CountAfterClearing(front, i, n);
      assert WithRange(bits, i, n, false)[..|bits| - 1] == WithRange(front, i, n, false);
    }
  }

  lemma {:induction false} CountSetInRange(bits: seq<bool>, i: nat, n: nat)
    ensures i + n <= |bits| ==> CountSetIn(bits, i, n) <= n
    ensures i + n <= |bits| ==> (CountSetIn(bits, i, n) == n <==> AllSet(bits, i, n))
    ensures i >= |bits| ==> CountSetIn(bits, i, n) == 0
    ensures i <= |bits| <= i + n ==>
              CountSetIn(bits, i, n) <= |bits| - i
              && (CountSetIn(bits, i, n) == |bits| - i <==> AllSet(bits, i, |bits| - i))
  {
    if bits != [] {
      var front := bits[..|bits| - 1];
      CountSetInRange(front, i, n);
      assert forall j :: 0 <= j < |front| ==> front[j] == bits[j];
    }
  }

  /** Clearing a range adds its length to the number of clear bits exactly when it was all set. */
  lemma ClearingCounts(bits: seq<bool>, i: nat, n: nat)
    requires i + n <= |bits|
    ensures CountClear(WithRange(bits, i, n, false)) <= CountClear(bits) + n
    ensures CountClear(WithRange(bits, i, n, false)) == CountClear(bits) + n <==> AllSet(bits, i, n)
  {
    CountAfterClearing(bits, i, n);
    CountSetInRange(bits, i, n);
  }

  lemma ClearUndoesSet(bits: seq<bool>, i: nat, n: nat)
    requires Clear(bits, i, n)
    ensures WithRange(WithRange(bits, i, n, true), i, n, false) == bits
  {
  }

  lemma SettingCounts(bits: seq<bool>, i: nat, n: nat)
    requires Clear(bits, i, n)
    ensures CountClear(WithRange(bits, i, n, true)) == CountClear(bits) - n
  {
    ClearUndoesSet(bits, i, n);
    ClearingCounts(WithRange(bits, i, n, true), i, n);
  }

  lemma {:induction false} CountClearAtMost(bits: seq<bool>)
    ensures CountClear(bits) <= |bits|
  {
    if bits != [] {
      CountClearAtMost(bits[..|bits| - 1]);
    }
  }

  lemma CountOfAllClear(bits: seq<bool>)
    requires Clear(bits, 0, |bits|)
    ensures CountClear(bits) == |bits|
  {
    if bits != [] {
      CountOfAllClear(bits[..|bits| - 1]);
    }
  }

  // ----- First fit -----

  /** `n` pages can be placed at page `i`, at an address that is a multiple of `align`. */
  predicate CanPlace(bits: seq<bool>, base: u64, align: nat, n: nat, i: nat)
    requires align > 0
  {
    Clear(bits, i, n) && PageAddress(base, i) % align == 0
  }

  /** The naive scan: try every page from `i` on. */
  function FirstFit(bits: seq<bool>, base: u64, align: nat, n: nat, i: nat): Option<nat>
    requires align > 0
    decreases |bits| - i
  {
    if i + n > |bits| then None
    else if CanPlace(bits, base, align, n, i) then Some(i)
    else if i == |bits| then None
    else FirstFit(bits, base, align, n, i + 1)
  }

  /** The scan finds the lowest place there is. */
  lemma {:induction false} FirstFitIsLowest(bits: seq<bool>, base: u64, align: nat, n: nat, i: nat)
    requires align > 0
    ensures var r := FirstFit(bits, base, align, n, i);
            && (r.Some? ==> i <= r.value && CanPlace(bits, base, align, n, r.value))
            && (forall k :: i <= k && CanPlace(bits, base, align, n, k) ==> r.Some? && r.value <= k)
    decreases |bits| - i
  {
    if i + n <= |bits| && !CanPlace(bits, base, align, n, i) && i < |bits| {
      FirstFitIsLowest(bits, base, align, n, i + 1);
    }
  }

  /** After a set page at `i + j`, no run of `n` pages starts before `i + j + 1`. */
  lemma {:induction false} FirstFitSkips(bits: seq<bool>, base: u64, align: nat, n: nat, i: nat, j: nat)
    requires align > 0 && i + n <= |bits| && j < n && bits[i + j]
    ensures FirstFit(bits, base, align, n, i) == FirstFit(bits, base, align, n, i + j + 1)
    decreases j
  {
    assert !Clear(bits, i, n);
    if j > 0 && i + 1 + n <= |bits| {
      FirstFitSkips(bits, base, align, n, i + 1, j - 1);
    }
  }

  // No run is longer than the number of clear pages
  lemma FitNeedsClearPages(bits: seq<bool>, i: nat, n: nat)
    requires Clear(bits, i, n)
    ensures n <= CountClear(bits)
  {
    SettingCounts(bits, i, n);
  }

  // ----- Runs -----

  /** The page bits, the count kept beside them, and the pages each past allocation still owns. */
  datatype Heap = Heap(base: u64, bits: seq<bool>, free: int, live: seq<set<int>>)

  datatype Op =
    | Alloc(n: nat)
    | AllocAligned(n: nat, alignLog2: nat)
    | Free(page: nat, n: nat)

  function Placement(h: Heap, op: Op): Option<nat> {
    match op
    case Alloc(n) => if n == 0 then None else FirstFit(h.bits, h.base, 1, n, 0)
    case AllocAligned(n, k) =>
      Pow2Positive(k);
      if n == 0 then None else FirstFit(h.bits, h.base, Pow2(k), n, 0)
    case Free(page, n) => None
  }

  ghost function Without(live: seq<set<int>>, pages: set<int>): seq<set<int>> {
    seq(|live|, k requires 0 <= k < |live| => live[k] - pages)
  }

  ghost predicate Owned(live: seq<set<int>>, p: int) {
    exists k :: 0 <= k < |live| && p in live[k]
  }

  ghost predicate Disjoint(live: seq<set<int>>) {
    forall k, m :: 0 <= k < m < |live| ==> live[k] !! live[m]
  }

  ghost function Placed(h: Heap, i: nat, n: nat): Heap {
    Heap(h.base, WithRange(h.bits, i, n, true), h.free - n, h.live + [Interval(i, i + n)])
  }

  ghost function Freed(h: Heap, page: nat, n: nat): Heap {
    Heap(h.base, WithRange(h.bits, page, n, false), h.free + n, Without(h.live, Interval(page, page + n)))
  }

  ghost function Step(h: Heap, op: Op): Heap {
    match op
    case Free(page, n) => Freed(h, page, n)
    case _ => if Placement(h, op).Some? then Placed(h, Placement(h, op).value, op.n) else h
  }

  /** Only a range all of whose pages are allocated may be freed. */
  predicate Allowed(h: Heap, op: Op) {
    op.Free? ==> AllSet(h.bits, op.page, op.n)
  }

  /**
   * The count is the number of clear bits; live blocks are disjoint, lie inside the heap and
   * together own exactly the pages whose bit is set.
   */
  ghost predicate Consistent(h: Heap) {
    && h.free == CountClear(h.bits)
    && Disjoint(h.live)
    && (forall p: int {:trigger Owned(h.live, p)} :: Owned(h.live, p) <==> 0 <= p < |h.bits| && h.bits[p])
  }

  lemma OwnedWithBlock(live: seq<set<int>>, pages: set<int>, p: int)
    ensures Owned(live + [pages], p) <==> Owned(live, p) || p in pages
  {
    var more := live + [pages];
    if k :| 0 <= k < |live| && p in live[k] {
      assert p in more[k];
    }
    if p in pages {
      assert p in more[|live|];
    }
  }

  lemma OwnedWithout(live: seq<set<int>>, pages: set<int>, p: int)
    ensures Owned(Without(live, pages), p) <==> Owned(live, p) && p !in pages
  {
    if k :| 0 <= k < |live| && p in live[k] && p !in pages {
      assert p in Without(live, pages)[k];
    }
  }

  lemma DisjointWithBlock(live: seq<set<int>>, pages: set<int>)
    requires Disjoint(live) && forall p :: p in pages ==> !Owned(live, p)
    ensures Disjoint(live + [pages])
  {
    forall k | 0 <= k < |live|
      ensures live[k] !! pages
    {
      forall p | p in live[k]
        ensures p !in pages
      {
        assert Owned(live, p);
      }
    }
  }

  lemma PlaceConsistent(h: Heap, i: nat, n: nat)
    requires Consistent(h) && Clear(h.bits, i, n)
    ensures Consistent(Placed(h, i, n))
  {
    var next := Placed(h, i, n);
    SettingCounts(h.bits, i, n);
    DisjointWithBlock(h.live, Interval(i, i + n));
    forall p: int
      ensures Owned(next.live, p) <==> 0 <= p < |next.bits| && next.bits[p]
    {
      OwnedWithBlock(h.live, Interval(i, i + n), p);
    }
  }

  lemma FreeConsistent(h: Heap, page: nat, n: nat)
    requires Consistent(h) && AllSet(h.bits, page, n)
    ensures Consistent(Freed(h, page, n))
  {
    var next := Freed(h, page, n);
    ClearingCounts(h.bits, page, n);
    forall p: int
      ensures Owned(next.live, p) <==> 0 <= p < |next.bits| && next.bits[p]
    {
      OwnedWithout(h.live, Interval(page, page + n), p);
    }
  }

  lemma StepConsistent(h: Heap, op: Op)
    requires Consistent(h) && Allowed(h, op)
    ensures Consistent(Step(h, op))
    ensures Step(h, op).base == h.base && |Step(h, op).bits| == |h.bits|
  {
    if op.Free? {
      FreeConsistent(h, op.page, op.n);
    } else if Placement(h, op).Some? {
      PlacementIsLowest(h, op);
      PlaceConsistent(h, Placement(h, op).value, op.n);
    }
  }

  function Alignment(op: Op): nat {
    if op.AllocAligned? then Pow2(op.alignLog2) else 1
  }

  // An allocation of no pages is refused
  lemma NothingToPlace(h: Heap, op: Op)
    requires !op.Free? && op.n == 0
    ensures Placement(h, op) == None && Step(h, op) == h
  {
  }

  /** An allocation takes the lowest run of clear pages at an aligned address, and fails only without one. */
  lemma PlacementIsLowest(h: Heap, op: Op)
    requires !op.Free? && op.n > 0
    ensures Alignment(op) > 0
    ensures Placement(h, op).Some? ==> CanPlace(h.bits, h.base, Alignment(op), op.n, Placement(h, op).value)
    ensures forall k :: CanPlace(h.bits, h.base, Alignment(op), op.n, k) ==>
                          Placement(h, op).Some? && Placement(h, op).value <= k
  {
    if op.AllocAligned? {
      Pow2Positive(op.alignLog2);
    }
    FirstFitIsLowest(h.bits, h.base, Alignment(op), op.n, 0);
  }

  ghost function Run(h: Heap, ops: seq<Op>): Heap {
    if ops == [] then h else Step(Run(h, ops[..|ops| - 1]), ops[|ops| - 1])
  }

  ghost predicate AllowedRun(h: Heap, ops: seq<Op>) {
    ops == []
    || (AllowedRun(h, ops[..|ops| - 1]) && Allowed(Run(h, ops[..|ops| - 1]), ops[|ops| - 1]))
  }

  function Fresh(base: u64, pages: nat): Heap {
    Heap(base, seq(pages, _ => false), pages, [])
  }

  /** Every state of every run from a fresh heap is consistent. */
  lemma {:induction false} RunConsistent(base: u64, pages: nat, ops: seq<Op>)
    requires AllowedRun(Fresh(base, pages), ops)
    ensures Consistent(Run(Fresh(base, pages), ops))
    ensures Run(Fresh(base, pages), ops).base == base
    ensures |Run(Fresh(base, pages), ops).bits| == pages
  {
    if ops == [] {
      CountOfAllClear(Fresh(base, pages).bits);
    } else {
      RunConsistent(base, pages, ops[..|ops| - 1]);
      StepConsistent(Run(Fresh(base, pages), ops[..|ops| - 1]), ops[|ops| - 1]);
    }
  }

  /** Freeing a range of the heap keeps it consistent exactly when all of its pages are allocated. */
  lemma FreeConsistentExactly(h: Heap, page: nat, n: nat)
    requires Consistent(h) && page + n <= |h.bits|
    ensures Consistent(Step(h, Free(page, n))) <==> Allowed(h, Free(page, n))
  {
    ClearingCounts(h.bits, page, n);
    if AllSet(h.bits, page, n) {
      FreeConsistent(h, page, n);
    }
  }

  /** Freeing page 0 of a heap without allocations counts it twice. */
  lemma FreeOfFreePage(base: u64, pages: nat)
    requires pages > 0
    ensures Consistent(Fresh(base, pages)) && !Consistent(Step(Fresh(base, pages), Free(0, 1)))
  {
    RunConsistent(base, pages, []);
    FreeConsistentExactly(Fresh(base, pages), 0, 1);
    assert !Fresh(base, pages).bits[0];
  }

  /** Freeing the block just allocated restores the page bits and the count. */
  lemma FreeUndoesAlloc(h: Heap, op: Op)
    requires Consistent(h) && !op.Free? && Placement(h, op).Some?
    ensures var after := Step(h, op);
            var undone := Step(after, Free(Placement(h, op).value, op.n));
            Allowed(after, Free(Placement(h, op).value, op.n)) && undone.bits == h.bits && undone.free == h.free
  {
    PlacementIsLowest(h, op);
    ClearUndoesSet(h.bits, Placement(h, op).value, op.n);
  }

  /**
   * On a heap that starts above address 0 and ends within the address space, address 0 is
   * returned only for failure, and the block lies between the heap's ends.
   */
  lemma PlacedInsideHeap(h: Heap, op: Op)
    requires Consistent(h) && !op.Free? && Placement(h, op).Some?
    requires 0 < h.base && h.base + |h.bits| * 4096 <= TWO_64
    ensures var addr := PageAddress(h.base, Placement(h, op).value);
            && addr == h.base + Placement(h, op).value * 4096
            && 0 < h.base <= addr
            && addr + op.n * 4096 <= h.base + |h.bits| * 4096
            && (op.AllocAligned? ==> Pow2(op.alignLog2) > 0 && addr % Pow2(op.alignLog2) == 0)
  {
    PlacementIsLowest(h, op);
  }
}
