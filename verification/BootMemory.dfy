/** The bootloader's E820 memory map: a fixed array of regions, sorted and compacted in place. */
module BootMemory {
  import opened Machine
  import opened MemoryRegions

  /** `t` is one way of sorting `s` by base address; ties may come in any order. */
  ghost predicate IsSorting(t: seq<MemoryRegion>, s: seq<MemoryRegion>) {
    SortedByBase(t) && multiset(t) == multiset(s)
  }

  lemma SortingFits(t: seq<MemoryRegion>, s: seq<MemoryRegion>)
    requires multiset(t) == multiset(s) && AllFit(s)
    ensures AllFit(t)
  {
    forall i | 0 <= i < |t|
      ensures t[i].Fits()
    {
      assert t[i] in multiset(t);
      assert t[i] in s;
    }
  }

  function InsertRegion(s: seq<MemoryRegion>, r: MemoryRegion): seq<MemoryRegion> {
    if s == [] || Last(s).base <= r.base then s + [r] else InsertRegion(Init(s), r) + [Last(s)]
  }

  function SortedRegions(s: seq<MemoryRegion>): seq<MemoryRegion> {
    if s == [] then [] else InsertRegion(SortedRegions(Init(s)), Last(s))
  }

  lemma {:induction false} InsertRegionSorts(s: seq<MemoryRegion>, r: MemoryRegion)
    requires SortedByBase(s)
    ensures SortedByBase(InsertRegion(s, r))
    ensures forall x :: x in InsertRegion(s, r) ==> x == r || x in s
  {
    if s != [] && Last(s).base > r.base {
      InsertRegionSorts(Init(s), r);
      var t := InsertRegion(Init(s), r);
      forall i | 0 <= i < |t|
        ensures t[i].base <= Last(s).base
      {
        assert t[i] in t;
      }
    }
  }

  lemma {:induction false} InsertRegionAdds(s: seq<MemoryRegion>, r: MemoryRegion)
    ensures multiset(InsertRegion(s, r)) == multiset(s) + multiset{r}
  {
    if s != [] && Last(s).base > r.base {
      InsertRegionAdds(Init(s), r);
      MultisetSnoc(s);
    }
  }

  lemma {:induction false} SortedRegionsIsSorting(s: seq<MemoryRegion>)
    ensures IsSorting(SortedRegions(s), s) && |SortedRegions(s)| == |s|
  {
    if s != [] {
      SortedRegionsIsSorting(Init(s));
      InsertRegionSorts(SortedRegions(Init(s)), Last(s));
      InsertRegionAdds(SortedRegions(Init(s)), Last(s));
      MultisetSnoc(s);
    }
    assert |multiset(SortedRegions(s))| == |multiset(s)|;
  }

  // Sorting a separated list cannot move its last region
  lemma LastOfSorting(t: seq<MemoryRegion>, s: seq<MemoryRegion>)
    requires IsSorting(t, s) && Separated(s) && s != []
    ensures t != [] && Last(t) == Last(s)
  {
    assert |t| == |multiset(t)| == |multiset(s)| == |s|;
    assert Last(s) in multiset(t) && Last(t) in multiset(s);
    assert Last(s) in t && Last(t) in s;
    var i :| 0 <= i < |t| && t[i] == Last(s);
    var j :| 0 <= j < |s| && s[j] == Last(t);
    assert Last(s).base <= Last(t).base;
    assert forall k :: 0 <= k < |s| - 1 ==> s[k].End() <= Last(s).base;
  }

  lemma MultisetSnoc(s: seq<MemoryRegion>)
    requires s != []
    ensures multiset(s) == multiset(Init(s)) + multiset{Last(s)}
  {
    assert s == Init(s) + [Last(s)];
  }

  lemma Cancel<T>(a: multiset<T>, b: multiset<T>, x: T)
    requires a + multiset{x} == b + multiset{x}
    ensures a == b
  {
    assert a == (a + multiset{x}) - multiset{x};
    assert b == (b + multiset{x}) - multiset{x};
  }

  /** Sorting leaves a separated list as it is. */
  lemma {:induction false} SortingOfSeparated(t: seq<MemoryRegion>, s: seq<MemoryRegion>)
    requires IsSorting(t, s) && Separated(s)
    ensures t == s
  {
    assert |t| == |multiset(t)| == |multiset(s)| == |s|;
    if s != [] {
      LastOfSorting(t, s);
      MultisetSnoc(s);
      MultisetSnoc(t);
      Cancel(multiset(Init(t)), multiset(Init(s)), Last(s));
      SortingOfSeparated(Init(t), Init(s));
      SnocsEqual(t, s);
    }
  }

  function LongestFree(s: seq<MemoryRegion>): nat {
    if s == [] then 0
    else if Last(s).typ == MEMTYPE_FREE && Last(s).length > LongestFree(Init(s)) then Last(s).length
    else LongestFree(Init(s))
  }

  /** The length of a longest free region of `s`, or 0 when there is none. */
  lemma {:induction false} LongestFreeIsMaximum(s: seq<MemoryRegion>)
    ensures forall i :: 0 <= i < |s| && s[i].typ == MEMTYPE_FREE ==> s[i].length <= LongestFree(s)
    ensures LongestFree(s) == 0
            || exists i :: 0 <= i < |s| && s[i].typ == MEMTYPE_FREE && s[i].length == LongestFree(s)
    ensures AllFit(s) ==> LongestFree(s) < TWO_64
  {
    if s != [] {
      LongestFreeIsMaximum(Init(s));
      assert forall i :: 0 <= i < |s| - 1 ==> Init(s)[i] == s[i];
      assert AllFit(s) ==> Last(s).Fits();
    }
  }

  ghost predicate IsFirstLongest(s: seq<MemoryRegion>, j: nat)
    requires j < |s|
  {
    && s[j].typ == MEMTYPE_FREE
    && (forall k :: 0 <= k < j && s[k].typ == MEMTYPE_FREE ==> s[k].length < s[j].length)
  }

  /** `base` and `size` are those of the first of the longest non-empty free regions, if any. */
  ghost predicate FirstLongestFree(s: seq<MemoryRegion>, found: bool, base: nat, size: nat) {
    && (found <==> size > 0)
    && (!found ==> base == 0)
    && (found ==> exists j :: 0 <= j < |s| && IsFirstLongest(s, j) && s[j].base == base && s[j].length == size)
    && (forall k :: 0 <= k < |s| && s[k].typ == MEMTYPE_FREE ==> s[k].length <= size)
  }

  /** [base, base + size) is the lowest of the longest intervals of free addresses, if any is free. */
  ghost predicate LongestFreeInterval(s: seq<MemoryRegion>, found: bool, base: nat, size: nat) {
    && (found <==> exists a: int :: TypeAt(s, a) == Some(MEMTYPE_FREE))
    && (found ==> size > 0 && AllFree(s, base, base + size))
    && (forall lo: int, hi: int ::
          lo < hi && AllFree(s, lo, hi) ==> hi - lo <= size && (hi - lo == size ==> base <= lo))
  }

  // ----- The largest free block after merging -----

  /** The regions from `i` up to `j` are free and each touches the next. */
  predicate FreeRun(s: seq<MemoryRegion>, i: nat, j: nat) {
    && i < j <= |s|
    && (forall k :: i <= k < j ==> s[k].typ == MEMTYPE_FREE)
    && (forall k :: i < k < j ==> s[k - 1].End() == s[k].base)
  }

  /** Some run of touching free regions adds up to more than any single one. */
  ghost predicate HasLongerFreeRun(s: seq<MemoryRegion>) {
    exists i: nat, j: nat :: FreeRun(s, i, j) && TotalLength(s[i..j], AnyType) > LongestFree(s)
  }

  lemma {:induction false} RunAddsUp(s: seq<MemoryRegion>, i: nat, j: nat)
    requires FreeRun(s, i, j)
    ensures TotalLength(s[i..j], AnyType) == s[j - 1].End() - s[i].base
    decreases j
  {
    assert Init(s[i..j]) == s[i..j - 1];
    if i + 1 < j {
      RunAddsUp(s, i, j - 1);
    } else {
      assert s[i..i] == [];
    }
  }

  lemma {:induction false} RunIsFree(s: seq<MemoryRegion>, i: nat, j: nat)
    requires Separated(s) && FreeRun(s, i, j)
    ensures AllFree(s, s[i].base, s[j - 1].End())
    decreases j
  {
    if i + 1 < j {
      RunIsFree(s, i, j - 1);
    }
    forall a: int | s[j - 1].base <= a < s[j - 1].End()
      ensures TypeAt(s, a) == Some(MEMTYPE_FREE)
    {
      TypeInSeparated(s, j - 1, a);
    }
  }

  // Merging puts every run of touching free regions into one region
  lemma RunFitsMerged(s: seq<MemoryRegion>, i: nat, j: nat)
    requires Separated(s) && FreeRun(s, i, j)
    ensures TotalLength(s[i..j], AnyType) <= LongestFree(Merged(s))
  {
    var lo, hi := s[i].base, s[j - 1].End();
    RunAddsUp(s, i, j);
    RunIsFree(s, i, j);
    MergeKeepsMeaning(s);
    MergeIsCanonical(s);
    if lo < hi {
      FreeIntervalInOneRegion(Merged(s), lo, hi);
    }
    LongestFreeIsMaximum(Merged(s));
  }

  // Every free region of a merged list comes from such a run
  lemma {:induction false} RunOfMerged(s: seq<MemoryRegion>, k: nat) returns (i: nat, j: nat)
    requires k < |Merged(s)| && Merged(s)[k].typ == MEMTYPE_FREE
    ensures FreeRun(s, i, j) && s[i].base == Merged(s)[k].base && s[j - 1].End() == Merged(s)[k].End()
    ensures k == |Merged(s)| - 1 ==> j == |s|
    decreases |s|
  {
    var out, last := Merged(Init(s)), |s| - 1;
    if k < |out| {
      i, j := RunOfMerged(Init(s), k);
      assert forall m :: 0 <= m < last ==> Init(s)[m] == s[m];
      if k == |Merged(s)| - 1 {
        j := |s|;
      }
    } else {
      i, j := last, |s|;
    }
  }

  // Merging never makes the largest free block smaller
  lemma MergingGrows(s: seq<MemoryRegion>)
    requires Separated(s)
    ensures LongestFree(s) <= LongestFree(Merged(s))
  {
    LongestFreeIsMaximum(s);
    if LongestFree(s) > 0 {
      var i :| 0 <= i < |s| && s[i].typ == MEMTYPE_FREE && s[i].length == LongestFree(s);
      RunFitsMerged(s, i, i + 1);
      RunAddsUp(s, i, i + 1);
    }
  }

  lemma GrownFromRun(s: seq<MemoryRegion>)
    requires LongestFree(Merged(s)) > LongestFree(s)
    ensures HasLongerFreeRun(s)
  {
    LongestFreeIsMaximum(Merged(s));
    var k :| 0 <= k < |Merged(s)| && Merged(s)[k].typ == MEMTYPE_FREE
             && Merged(s)[k].length == LongestFree(Merged(s));
    var i, j := RunOfMerged(s, k);
    RunAddsUp(s, i, j);
  }

  /** Merging keeps the largest free block exactly when no run of touching free regions is longer. */
  lemma MergingKeepsLargest(s: seq<MemoryRegion>)
    requires Separated(s)
    ensures LongestFree(s) <= LongestFree(Merged(s))
    ensures LongestFree(s) == LongestFree(Merged(s)) <==> !HasLongerFreeRun(s)
  {
    MergingGrows(s);
    if LongestFree(Merged(s)) > LongestFree(s) {
      GrownFromRun(s);
    }
    if i: nat, j: nat :| FreeRun(s, i, j) && TotalLength(s[i..j], AnyType) > LongestFree(s) {
      RunFitsMerged(s, i, j);
    }
  }

  lemma OneRegion(r: MemoryRegion)
    ensures Sanitized([r]) == if r.length == 0 then [] else [r]
    ensures Merged([r]) == [r] && LongestFree([r]) == if r.typ == MEMTYPE_FREE then r.length else 0
  {
    assert Init([r]) == [];
  }

  lemma NextRegion(s: seq<MemoryRegion>, r: MemoryRegion)
    ensures Sanitized(s + [r]) == SanitizeStep(Sanitized(s), r)
    ensures Merged(s + [r]) == MergeStep(Merged(s), r)
  {
    assert Init(s + [r]) == s;
  }

  lemma MergedOfSeparated(sorted: seq<MemoryRegion>, s: seq<MemoryRegion>)
    requires IsSorting(sorted, s) && Separated(s)
    ensures sorted == s && Canonical(Merged(sorted))
    ensures LongestFree(sorted) == LongestFree(Merged(sorted)) <==> !HasLongerFreeRun(sorted)
  {
    SortingOfSeparated(sorted, s);
    MergeIsCanonical(s);
    MergingKeepsLargest(s);
  }

  /** A map on which merging makes the statistic stale. */
  lemma LargestGoesStale() returns (s: seq<MemoryRegion>)
    ensures s == [MemoryRegion(0, 1, 1), MemoryRegion(1, 1, 1)]
    ensures Separated(s) && LongestFree(s) == 1 && LongestFree(Merged(s)) == 2
  {
    var a, b, c := MemoryRegion(0, 1, MEMTYPE_FREE), MemoryRegion(1, 1, MEMTYPE_FREE), MemoryRegion(0, 2, MEMTYPE_FREE);
    s := [a] + [b];
    OneRegion(a);
    NextRegion([a], b);
    NextTotals([a], b);
    assert MergeStep([a], b) == [c];
    OneRegion(c);
  }

  ghost predicate InsideFreeRun(s: seq<MemoryRegion>, lo: int, hi: int) {
    exists i: nat, j: nat :: FreeRun(s, i, j) && s[i].base <= lo && hi <= s[j - 1].End()
  }

  /**
   * Before merging, an interval is all free exactly when a run of touching free regions contains
   * it, while the availability query asks for a single region.
   */
  lemma FreeIntervalInRun(s: seq<MemoryRegion>, lo: int, hi: int)
    requires Separated(s) && lo < hi
    ensures AllFree(s, lo, hi) <==> InsideFreeRun(s, lo, hi)
    ensures InsideFreeRegion(s, lo, hi) ==> InsideFreeRun(s, lo, hi)
  {
    MergeKeepsMeaning(s);
    MergeIsCanonical(s);
    FreeIntervalInOneRegion(Merged(s), lo, hi);
    if AllFree(s, lo, hi) {
      assert AllFree(Merged(s), lo, hi);
      var k :| 0 <= k < |Merged(s)| && Merged(s)[k].typ == MEMTYPE_FREE
               && Merged(s)[k].base <= lo && hi <= Merged(s)[k].End();
      var i, j := RunOfMerged(s, k);
    }
    if i: nat, j: nat :| FreeRun(s, i, j) && s[i].base <= lo && hi <= s[j - 1].End() {
      RunIsFree(s, i, j);
    }
    if i: nat :| i < |s| && s[i].typ == MEMTYPE_FREE && s[i].base <= lo && hi <= s[i].End() {
      assert FreeRun(s, i, i + 1);
    }
  }

  // ----- Memory that is not free behind free memory -----

  ghost predicate MarkedNotFree(s: seq<MemoryRegion>, a: int) {
    exists r :: r in s && r.Covers(a) && r.typ != MEMTYPE_FREE
  }

  /** A free region is the first to cover the address, and a later one that is not free covers it too. */
  ghost predicate NotFreeBehindFree(t: seq<MemoryRegion>, a: int) {
    exists i, j :: 0 <= i < j < |t| && FirstCovering(t, i, a) && t[i].typ == MEMTYPE_FREE
                   && t[j].Covers(a) && t[j].typ != MEMTYPE_FREE
  }

  ghost predicate FirstCovering(t: seq<MemoryRegion>, i: nat, a: int)
    requires i < |t|
  {
    t[i].Covers(a) && forall k :: 0 <= k < i ==> !t[k].Covers(a)
  }

  lemma {:induction false} FirstCoveringExists(t: seq<MemoryRegion>, a: int) returns (i: nat)
    requires TypeAt(t, a).Some?
    ensures i < |t| && FirstCovering(t, i, a) && TypeAt(t, a) == Some(t[i].typ)
  {
    if TypeAt(Init(t), a).Some? {
      i := FirstCoveringExists(Init(t), a);
      assert forall k :: 0 <= k < |t| - 1 ==> Init(t)[k] == t[k];
    } else {
      i := |t| - 1;
      UncoveredHasNoType(Init(t), a);
      assert forall k :: 0 <= k < i ==> !Init(t)[k].Covers(a);
    }
  }

  /**
   * An address that a region of the map marks as not free counts as free after sorting exactly
   * when a free region comes before all the others that cover it.
   */
  lemma CountsAsFree(s: seq<MemoryRegion>, t: seq<MemoryRegion>, a: int)
    requires IsSorting(t, s)
    ensures MarkedNotFree(s, a) && TypeAt(t, a) == Some(MEMTYPE_FREE) <==> NotFreeBehindFree(t, a)
  {
    assert forall r :: r in s <==> r in multiset(s);
    assert forall r :: r in t <==> r in multiset(t);
    if MarkedNotFree(s, a) && TypeAt(t, a) == Some(MEMTYPE_FREE) {
      var i := FirstCoveringExists(t, a);
      var r :| r in s && r.Covers(a) && r.typ != MEMTYPE_FREE;
      var j :| 0 <= j < |t| && t[j] == r;
      assert i < j;
    }
    if i, j :| 0 <= i < j < |t| && FirstCovering(t, i, a) && t[i].typ == MEMTYPE_FREE
                && t[j].Covers(a) && t[j].typ != MEMTYPE_FREE {
      TypeAtIsFirstCovering(t, a, i);
      assert t[j] in t;
    }
  }

  const RESERVED_IN_FREE := [MemoryRegion(0, 100, 1), MemoryRegion(50, 10, 2)]

  /** A reserved region inside a free one is lost. */
  lemma ReservedIsLost()
    ensures SortedByBase(RESERVED_IN_FREE) && MarkedNotFree(RESERVED_IN_FREE, 50)
    ensures InsideFreeRegion(Merged(Sanitized(RESERVED_IN_FREE)), 50, 51)
  {
    var a, b := MemoryRegion(0, 100, MEMTYPE_FREE), MemoryRegion(50, 10, 2);
    assert b in RESERVED_IN_FREE && b.Covers(50);
    OneRegion(a);
    NextRegion([a], b);
    assert RESERVED_IN_FREE == [a] + [b];
    assert [a][0] == a;
  }

  // ----- The same, on the map before sorting -----

  // The region covers the address, and is free or not as asked
  predicate CoversAs(r: MemoryRegion, a: int, free: bool) {
    r.Covers(a) && (r.typ == MEMTYPE_FREE) == free
  }

  /** Of the regions over `a`, one that is free (or is not) starts below all of the other kind. */
  ghost predicate LeadsStrictly(s: seq<MemoryRegion>, a: int, free: bool) {
    exists r :: r in s && CoversAs(r, a, free) && forall q :: q in s && CoversAs(q, a, !free) ==> r.base < q.base
  }

  /** The same, or it starts where the lowest of the other kind does. */
  ghost predicate LeadsOrTies(s: seq<MemoryRegion>, a: int, free: bool) {
    exists r :: r in s && Leads(r, s, a, free)
  }

  ghost predicate Leads(r: MemoryRegion, s: seq<MemoryRegion>, a: int, free: bool) {
    CoversAs(r, a, free) && forall q :: q in s && CoversAs(q, a, !free) ==> r.base <= q.base
  }

  lemma SameMembers(t: seq<MemoryRegion>, s: seq<MemoryRegion>)
    requires multiset(t) == multiset(s)
    ensures forall r :: r in t <==> r in s
  {
    assert forall r :: r in s <==> r in multiset(s);
    assert forall r :: r in t <==> r in multiset(t);
  }

  // Two members of a list over `a`: the first one that covers it does not start above the other
  lemma FirstStartsLowest(t: seq<MemoryRegion>, a: int, i: nat, q: MemoryRegion)
    requires SortedByBase(t) && i < |t| && FirstCovering(t, i, a) && q in t && q.Covers(a)
    ensures t[i].base <= q.base
  {
    var j :| 0 <= j < |t| && t[j] == q;
    assert i <= j;
  }

  // If one sorting makes the address free (or not), a region of that kind leads or ties
  lemma SortedLeads(s: seq<MemoryRegion>, t: seq<MemoryRegion>, a: int)
    requires IsSorting(t, s) && TypeAt(t, a).Some?
    ensures LeadsOrTies(s, a, TypeAt(t, a) == Some(MEMTYPE_FREE))
  {
    var i := FirstCoveringExists(t, a);
    SameMembers(t, s);
    forall q | q in s && q.Covers(a)
      ensures t[i].base <= q.base
    {
      FirstStartsLowest(t, a, i, q);
    }
    assert t[i] in t && Leads(t[i], s, a, TypeAt(t, a) == Some(MEMTYPE_FREE));
  }

  function Below(s: seq<MemoryRegion>, base: nat): seq<MemoryRegion> {
    if s == [] then [] else Below(Init(s), base) + if Last(s).base < base then [Last(s)] else []
  }

  function NotBelow(s: seq<MemoryRegion>, base: nat): seq<MemoryRegion> {
    if s == [] then [] else NotBelow(Init(s), base) + if Last(s).base < base then [] else [Last(s)]
  }

  lemma {:induction false} BelowAndNotBelow(s: seq<MemoryRegion>, base: nat)
    ensures multiset(Below(s, base)) + multiset(NotBelow(s, base)) == multiset(s)
    ensures forall r :: r in Below(s, base) ==> r.base < base
    ensures forall r :: r in NotBelow(s, base) ==> r.base >= base
  {
    if s != [] {
      BelowAndNotBelow(Init(s), base);
      MultisetSnoc(s);
    }
  }

  // A sorting in which region `i` comes first among those that start where it does
  lemma SortingWithFirst(s: seq<MemoryRegion>, i: nat) returns (t: seq<MemoryRegion>, k: nat)
    requires i < |s|
    ensures IsSorting(t, s) && k < |t| && t[k] == s[i]
    ensures forall j :: 0 <= j < k ==> t[j].base < s[i].base
  {
    var r := s[i];
    var low, high := SortedHalves(s[..i] + s[i + 1..], r.base);
    t, k := low + [r] + high, |low|;
    SortedAround(low, r, high);
    TakeOut(s, i);
    assert forall j :: 0 <= j < k ==> t[j] == low[j] && low[j] in low;
  }

  lemma SortedHalves(s: seq<MemoryRegion>, base: nat) returns (low: seq<MemoryRegion>, high: seq<MemoryRegion>)
    ensures SortedByBase(low) && SortedByBase(high) && multiset(low) + multiset(high) == multiset(s)
    ensures (forall x :: x in low ==> x.base < base) && (forall x :: x in high ==> x.base >= base)
  {
    low, high := SortedRegions(Below(s, base)), SortedRegions(NotBelow(s, base));
    BelowAndNotBelow(s, base);
    SortedRegionsIsSorting(Below(s, base));
    SortedRegionsIsSorting(NotBelow(s, base));
    SameMembers(low, Below(s, base));
    SameMembers(high, NotBelow(s, base));
  }

  lemma SortedAround(low: seq<MemoryRegion>, r: MemoryRegion, high: seq<MemoryRegion>)
    requires SortedByBase(low) && SortedByBase(high)
    requires (forall x :: x in low ==> x.base < r.base) && (forall x :: x in high ==> x.base >= r.base)
    ensures SortedByBase(low + [r] + high)
    ensures multiset(low + [r] + high) == multiset(low) + multiset(high) + multiset{r}
  {
    assert forall j :: 0 <= j < |low| ==> low[j] in low;
    assert forall j :: 0 <= j < |high| ==> high[j] in high;
  }

  lemma TakeOut(s: seq<MemoryRegion>, i: nat)
    requires i < |s|
    ensures multiset(s) == multiset(s[..i] + s[i + 1..]) + multiset{s[i]}
  {
    assert s == s[..i] + [s[i]] + s[i + 1..];
  }

  // If a region of one kind leads or ties, some sorting gives the address that kind
  lemma LeadingSorts(s: seq<MemoryRegion>, a: int, free: bool) returns (t: seq<MemoryRegion>)
    requires LeadsOrTies(s, a, free)
    ensures IsSorting(t, s) && TypeAt(t, a).Some? && (TypeAt(t, a) == Some(MEMTYPE_FREE)) == free
  {
    var r :| r in s && Leads(r, s, a, free);
    var i :| 0 <= i < |s| && s[i] == r;
    var k;
    t, k := SortingWithFirst(s, i);
    UncoveredHasNoType(t, a);
    var m := FirstCoveringExists(t, a);
    SameMembers(t, s);
    assert m <= k && t[m] in t;
    if m < k {
      assert !CoversAs(t[m], a, !free);
    }
  }

  // Of the regions over an address one starts lowest
  lemma LowestExists(s: seq<MemoryRegion>, a: int) returns (r: MemoryRegion)
    requires exists x :: x in s && x.Covers(a)
    ensures r in s && r.Covers(a) && forall q :: q in s && q.Covers(a) ==> r.base <= q.base
  {
    var x :| x in s && x.Covers(a);
    var t := SortedRegions(s);
    SortedRegionsIsSorting(s);
    SameMembers(t, s);
    var j :| 0 <= j < |t| && t[j] == x;
    UncoveredHasNoType(t, a);
    var i := FirstCoveringExists(t, a);
    r := t[i];
    assert r in t;
    forall q | q in s && q.Covers(a)
      ensures r.base <= q.base
    {
      FirstStartsLowest(t, a, i, q);
    }
  }

  lemma LeadsUnlessOtherTies(s: seq<MemoryRegion>, a: int, free: bool)
    requires exists r :: r in s && r.Covers(a)
    ensures LeadsStrictly(s, a, free) <==> !LeadsOrTies(s, a, !free)
  {
    if LeadsOrTies(s, a, !free) {
      var q :| q in s && Leads(q, s, a, !free);
      assert forall r :: r in s && CoversAs(r, a, free) ==> q.base <= r.base;
    } else {
      LowestLeads(s, a, free);
    }
  }

  lemma LowestLeads(s: seq<MemoryRegion>, a: int, free: bool)
    requires exists r :: r in s && r.Covers(a)
    requires !LeadsOrTies(s, a, !free)
    ensures LeadsStrictly(s, a, free)
  {
    var r := LowestExists(s, a);
    assert !Leads(r, s, a, !free);
    assert CoversAs(r, a, free);
    forall q | q in s && CoversAs(q, a, !free)
      ensures r.base < q.base
    {
      assert !Leads(q, s, a, !free);
      var x :| x in s && CoversAs(x, a, free) && x.base < q.base;
      assert r.base <= x.base;
    }
  }

  /** Some sorting makes an address free exactly when a free region leads or ties there. */
  lemma FreeInSomeSorting(s: seq<MemoryRegion>, a: int)
    ensures (exists t :: IsSorting(t, s) && TypeAt(t, a) == Some(MEMTYPE_FREE)) <==> LeadsOrTies(s, a, true)
  {
    if t :| IsSorting(t, s) && TypeAt(t, a) == Some(MEMTYPE_FREE) {
      SortedLeads(s, t, a);
    }
    if LeadsOrTies(s, a, true) {
      var t := LeadingSorts(s, a, true);
    }
  }

  /** Every sorting makes an address free exactly when a free region leads strictly there. */
  lemma FreeInEverySorting(s: seq<MemoryRegion>, a: int)
    ensures (forall t :: IsSorting(t, s) ==> TypeAt(t, a) == Some(MEMTYPE_FREE)) <==> LeadsStrictly(s, a, true)
  {
    SortedRegionsIsSorting(s);
    SameMembers(SortedRegions(s), s);
    UncoveredHasNoType(SortedRegions(s), a);
    if r :| r in s && r.Covers(a) {
      LeadsUnlessOtherTies(s, a, true);
      if LeadsOrTies(s, a, false) {
        var t := LeadingSorts(s, a, false);
      } else {
        forall t | IsSorting(t, s)
          ensures TypeAt(t, a) == Some(MEMTYPE_FREE)
        {
          SameMembers(t, s);
          UncoveredHasNoType(t, a);
          var j :| 0 <= j < |t| && t[j] == r;
          if TypeAt(t, a) != Some(MEMTYPE_FREE) {
            SortedLeads(s, t, a);
          }
        }
      }
    } else {
      assert forall j :: 0 <= j < |SortedRegions(s)| ==> SortedRegions(s)[j] in SortedRegions(s);
    }
  }

  /** Two regions that start together: how they are sorted decides what becomes of the second. */
  lemma TieDependsOnSort() returns (s: seq<MemoryRegion>, t: seq<MemoryRegion>)
    ensures s == [MemoryRegion(0, 100, 1), MemoryRegion(0, 100, 2)] && t == [s[1], s[0]]
    ensures IsSorting(s, s) && IsSorting(t, s)
    ensures TypeAt(s, 50) == Some(MEMTYPE_FREE) && TypeAt(t, 50) == Some(2)
  {
    var a, b := MemoryRegion(0, 100, MEMTYPE_FREE), MemoryRegion(0, 100, 2);
    s, t := [a, b], [b, a];
    assert s == [a] + [b] && t == [b] + [a];
    TypeAtIsFirstCovering(s, 50, 0);
    TypeAtIsFirstCovering(t, 50, 0);
  }

  class BootMemoryMap {
    const regions: array<MemoryRegion>
    var count: nat

    var totalMemory: u64
    var freeMemory: u64
    var reservedMemory: u64
    var largestFreeBlock: u64

    ghost predicate Valid()
      reads this, regions
    {
      count <= regions.Length && AllFit(regions[..count])
    }

    function Entries(): (s: seq<MemoryRegion>)
      requires count <= regions.Length
      reads this, regions
    {
      regions[..count]
    }

    constructor (capacity: nat)
      ensures Valid() && fresh(regions) && regions.Length == capacity
      ensures Entries() == []
      ensures totalMemory == freeMemory == reservedMemory == largestFreeBlock == 0
    {
      regions := new MemoryRegion[capacity](_ => MemoryRegion(0, 0, 0));
      count := 0;
      totalMemory, freeMemory, reservedMemory, largestFreeBlock := 0, 0, 0, 0;
    }

    method AddRegion(base: u64, length: u64, typ: u32) returns (ok: bool)
      requires Valid()
      modifies this`count, regions
      ensures Valid()
      ensures ok <==> old(count) < regions.Length && base + length < TWO_64
      ensures Entries() ==
              if ok then old(Entries()) + [MemoryRegion(base, length, typ)] else old(Entries())
    {
      if count >= regions.Length {
        return false;
      }
      if Add64(base, length) < base && length != 0 {
        return false;
      }
      regions[count] := MemoryRegion(base, length, typ);
      count := count + 1;
      return true;
    }

    // Stands for the C library's qsort: all that is used of it is that it sorts in some way
    method Sort()
      requires Valid()
      modifies regions
      ensures Valid()
      ensures IsSorting(Entries(), old(Entries()))
    {
      var s := regions[..count];
      var t := SortedRegions(s);
      SortedRegionsIsSorting(s);
      SortingFits(t, s);
      forall i | 0 <= i < count {
        regions[i] := t[i];
      }
      assert regions[..count] == t;
    }

    /** Returns the sorted array it worked on as `sorted`. */
    method Sanitize() returns (ok: bool, ghost sorted: seq<MemoryRegion>)
      requires Valid()
      modifies this, regions
      ensures Valid()
      ensures ok <==> old(count) > 0
      ensures !ok ==> unchanged(this) && unchanged(regions)
      ensures ok ==> IsSorting(sorted, old(Entries()))
      ensures ok ==> Entries() == Sanitized(sorted)
      ensures ok ==> Separated(Entries()) && SameMeaning(Entries(), sorted)
      ensures ok ==> totalMemory == |Cells(sorted, AnyType)| == freeMemory + reservedMemory
      ensures ok ==> freeMemory == |Cells(sorted, FreeOnly)|
      ensures ok ==> reservedMemory == |Cells(sorted, NotFree)|
      ensures ok ==> largestFreeBlock == LongestFree(Entries())
    {
      if count == 0 {
        return false, [];
      }
      Sort();
      sorted := Entries();
      RemoveOverlaps(sorted);
      SanitizeKeepsMeaning(sorted);
      EndsBoundTotal(Entries());
      RecomputeStatistics();
      CellTotals(Entries());
      SameCells(Entries(), sorted);
      return true, sorted;
    }

    method RemoveOverlaps(ghost sorted: seq<MemoryRegion>)
      requires Valid() && sorted == Entries() && SortedByBase(sorted)
      modifies this`count, regions
      ensures Valid()
      ensures Entries() == Sanitized(sorted)
    {
      var writeIdx: nat := 0;
      for i := 0 to count
        invariant writeIdx <= i && count == |sorted|
        invariant regions[..writeIdx] == Sanitized(sorted[..i])
        invariant regions[i..count] == sorted[i..]
      {
        assert Init(sorted[..i + 1]) == sorted[..i];
        assert regions[i..count][0] == sorted[i..][0];
        SanitizeFits(sorted[..i]);
        assert regions[i + 1..count] == regions[i..count][1..];
        writeIdx := KeepRegion(i, writeIdx);
      }
      count := writeIdx;
      assert sorted[..|sorted|] == sorted;
      SanitizeFits(sorted);
    }

    // One round of the sanitizing loop: region `i` is dropped, trimmed or kept
    method KeepRegion(i: nat, writeIdx: nat) returns (next: nat)
      requires writeIdx <= i < count <= regions.Length
      requires AllFit(regions[..writeIdx]) && regions[i].Fits()
      modifies regions
      ensures next <= i + 1
      ensures regions[..next] == SanitizeStep(old(regions[..writeIdx]), old(regions[i]))
      ensures regions[i + 1..count] == old(regions[i + 1..count])
    {
      next := writeIdx;
      if regions[i].length == 0 {
        return;
      }
      ghost var out := regions[..writeIdx];
      if writeIdx > 0 {
        var prev, cur := regions[writeIdx - 1], regions[i];
        assert prev == Last(out);
        if cur.base < Add64(prev.base, prev.length) {
          var overlapEnd := Add64(prev.base, prev.length);
          if Add64(cur.base, cur.length) > overlapEnd {
            var shift := overlapEnd - cur.base;
            regions[i] := MemoryRegion(cur.base + shift, cur.length - shift, cur.typ);
          } else {
            return;
          }
        }
      }
      regions[writeIdx] := regions[i];
      next := writeIdx + 1;
      assert regions[..next] == out + [regions[writeIdx]];
    }

    // The statistics are those of the list `s`
    ghost predicate HasTotals(s: seq<MemoryRegion>)
      reads this
    {
      && totalMemory == TotalLength(s, AnyType)
      && freeMemory == TotalLength(s, FreeOnly)
      && reservedMemory == TotalLength(s, NotFree)
      && largestFreeBlock == LongestFree(s)
    }

    method RecomputeStatistics()
      requires Valid() && TotalLength(Entries(), AnyType) < TWO_64
      modifies this`totalMemory, this`freeMemory, this`reservedMemory, this`largestFreeBlock
      ensures HasTotals(Entries())
    {
      ghost var s := Entries();
      totalMemory, freeMemory, reservedMemory, largestFreeBlock := 0, 0, 0, 0;
      for i := 0 to count
        invariant HasTotals(s[..i])
      {
        assert regions[i] == s[i] && s[i].Fits();
        assert s[..i + 1] == s[..i] + [s[i]];
        TotalLengthOfPrefix(s, i + 1, AnyType);
        CountRegion(regions[i], s[..i]);
      }
      assert s[..count] == s;
    }

    method CountRegion(r: MemoryRegion, ghost before: seq<MemoryRegion>)
      requires HasTotals(before) && r.Fits() && TotalLength(before + [r], AnyType) < TWO_64
      modifies this`totalMemory, this`freeMemory, this`reservedMemory, this`largestFreeBlock
      ensures HasTotals(before + [r])
    {
      NextTotals(before, r);
      totalMemory := Add64(totalMemory, r.length);
      if r.typ == MEMTYPE_FREE {
        freeMemory := Add64(freeMemory, r.length);
        if r.length > largestFreeBlock {
          largestFreeBlock := r.length;
        }
      } else {
        reservedMemory := Add64(reservedMemory, r.length);
      }
    }

    /** Returns the sorted array it worked on as `sorted`. */
    method MergeAdjacent() returns (ok: bool, ghost sorted: seq<MemoryRegion>)
      requires Valid()
      modifies this`count, regions
      ensures Valid() && ok
      ensures IsSorting(sorted, old(Entries()))
      ensures Entries() == Merged(sorted) && SameMeaning(Entries(), sorted)
      ensures old(Separated(Entries())) ==> sorted == old(Entries()) && Canonical(Entries())
      // the statistics are left as they were, which can make the largest free block stale
      ensures totalMemory == old(totalMemory) && freeMemory == old(freeMemory)
      ensures reservedMemory == old(reservedMemory) && largestFreeBlock == old(largestFreeBlock)
      ensures old(Separated(Entries()) && largestFreeBlock == LongestFree(Entries())) ==>
                (largestFreeBlock == LongestFree(Entries()) <==> !HasLongerFreeRun(sorted))
    {
      sorted := SortAndJoin();
      MergeFits(sorted);
      MergeKeepsMeaning(sorted);
      if old(Separated(Entries())) {
        MergedOfSeparated(sorted, old(Entries()));
      }
      ok := true;
    }

    // A map of one region or none is left alone
    method SortAndJoin() returns (ghost sorted: seq<MemoryRegion>)
      requires Valid()
      modifies this`count, regions
      ensures count <= regions.Length && AllFit(sorted)
      ensures IsSorting(sorted, old(Entries())) && Entries() == Merged(sorted)
    {
      if count <= 1 {
        sorted := Entries();
        assert sorted == [] || (Init(sorted) == [] && Merged(sorted) == [Last(sorted)]);
      } else {
        Sort();
        sorted := Entries();
        JoinTouching(sorted);
      }
    }

    method JoinTouching(ghost sorted: seq<MemoryRegion>)
      requires Valid() && sorted == Entries() && count > 1
      modifies this`count, regions
      ensures count <= regions.Length
      ensures Entries() == Merged(sorted)
    {
      var writeIdx: nat := 0;
      assert Init(sorted[..1]) == [];
      for i := 1 to count
        invariant count == |sorted| && MergedUpTo(sorted, i, writeIdx)
      {
        writeIdx := JoinRound(i, writeIdx, sorted);
      }
      count := writeIdx + 1;
      assert sorted[..|sorted|] == sorted;
    }

    // The first `i` regions are merged into those up to `writeIdx`
    ghost predicate MergedUpTo(sorted: seq<MemoryRegion>, i: nat, writeIdx: nat)
      reads this`count, regions
    {
      && writeIdx < i <= count == |sorted| && count <= regions.Length
      && regions[..writeIdx + 1] == Merged(sorted[..i])
      && regions[i..count] == sorted[i..]
    }

    method JoinRound(i: nat, writeIdx: nat, ghost sorted: seq<MemoryRegion>) returns (next: nat)
      requires MergedUpTo(sorted, i, writeIdx) && i < count && AllFit(sorted)
      modifies regions
      ensures MergedUpTo(sorted, i + 1, next)
    {
      assert Init(sorted[..i + 1]) == sorted[..i] && Last(sorted[..i + 1]) == sorted[i];
      assert regions[i] == regions[i..count][0] == sorted[i..][0];
      MergeFits(sorted[..i]);
      assert regions[i + 1..count] == regions[i..count][1..] == sorted[i + 1..];
      next := JoinRegion(i, writeIdx);
    }

    // One round of the merging loop: region `i` extends the one at `writeIdx` or follows it
    method JoinRegion(i: nat, writeIdx: nat) returns (next: nat)
      requires writeIdx < i < count <= regions.Length
      requires AllFit(regions[..writeIdx + 1]) && regions[i].Fits()
      modifies regions
      ensures next <= i
      ensures regions[..next + 1] == MergeStep(old(regions[..writeIdx + 1]), old(regions[i]))
      ensures regions[i + 1..count] == old(regions[i + 1..count])
    {
      ghost var out := regions[..writeIdx + 1];
      var cur, nxt := regions[writeIdx], regions[i];
      assert cur == Last(out);
      if cur.typ == nxt.typ && Add64(cur.base, cur.length) == nxt.base {
        regions[writeIdx] := cur.(length := Add64(cur.length, nxt.length));
        next := writeIdx;
        assert regions[..next + 1] == Init(out) + [regions[writeIdx]];
      } else {
        next := writeIdx + 1;
        regions[next] := nxt;
        assert regions[..next + 1] == out + [nxt];
      }
    }

    /**
     * Reports the first longest free region; on a sanitized and merged map that is the lowest
     * of the longest intervals of free memory.
     */
    method FindLargestBlock() returns (found: bool, base: u64, size: u64)
      requires Valid()
      ensures FirstLongestFree(Entries(), found, base, size)
      ensures Canonical(Entries()) ==> LongestFreeInterval(Entries(), found, base, size)
    {
      ghost var s := Entries();
      base, size, found := 0, 0, false;
      for i := 0 to count
        invariant FirstLongestFree(s[..i], found, base, size)
      {
        var r := regions[i];
        assert r == s[i] && s[i].Fits();
        assert s[..i + 1] == s[..i] + [r];
        if r.typ == MEMTYPE_FREE && r.length > size {
          size := r.length;
          base := r.base;
          found := true;
          assert s[..i + 1][i] == r;
        }
      }
      assert s[..count] == s;
      if Canonical(s) {
        LargestBlockIsLongestInterval(s, found, base, size);
      }
    }

    /** Whether one free region contains the whole range. */
    method IsAvailable(addr: u64, size: u64) returns (available: bool)
      requires Valid()
      ensures available <==> addr + size < TWO_64 && InsideFreeRegion(Entries(), addr, addr + size)
      ensures Canonical(Entries()) && size > 0 ==>
                (available <==> AllFree(Entries(), addr, addr + size))
      ensures Separated(Entries()) && size == 0 ==>
                (available <==> TypeAt(Entries(), addr) == Some(MEMTYPE_FREE)
                                || TypeAt(Entries(), addr - 1) == Some(MEMTYPE_FREE))
    {
      ghost var s := Entries();
      var end := Add64(addr, size);
      AvailabilityMeaning(s, addr, size);
      if end < addr {
        return false;
      }
      for i := 0 to count
        invariant forall j :: 0 <= j < i ==> !(s[j].typ == MEMTYPE_FREE && s[j].base <= addr && end <= s[j].End())
      {
        assert s[i].Fits();
        if regions[i].typ != MEMTYPE_FREE {
          continue;
        }
        if regions[i].base <= addr && Add64(regions[i].base, regions[i].length) >= end {
          return true;
        }
      }
      return false;
    }
  }

  /**
   * Cleaning up a map and then asking for a range: it is available exactly when the first region
   * of the sorted map that covers an address is free, for each of its addresses. An address of
   * the range that the map marks as not free is then one behind a free region.
   */
  method CleanUpAndAsk(memory: BootMemoryMap, addr: u64, size: u64)
    returns (available: bool, ghost sorted: seq<MemoryRegion>)
    requires memory.Valid() && memory.count > 0 && size > 0
    modifies memory, memory.regions
    ensures memory.Valid() && IsSorting(sorted, old(memory.Entries()))
    ensures available <==> AllFree(sorted, addr, addr + size)
    ensures available ==> forall a :: addr <= a < addr + size ==> LeadsOrTies(old(memory.Entries()), a, true)
    ensures (forall a :: addr <= a < addr + size ==> LeadsStrictly(old(memory.Entries()), a, true)) ==> available
    ensures available ==>
              forall a :: addr <= a < addr + size ==>
                            (MarkedNotFree(old(memory.Entries()), a) <==> NotFreeBehindFree(sorted, a))
  {
    ghost var before := memory.Entries();
    var sanitized, merged;
    ghost var again;
    sanitized, sorted := memory.Sanitize();
    merged, again := memory.MergeAdjacent();
    available := memory.IsAvailable(addr, size);
    forall a: int
      ensures TypeAt(memory.Entries(), a) == TypeAt(sorted, a)
      ensures MarkedNotFree(before, a) && TypeAt(sorted, a) == Some(MEMTYPE_FREE) <==> NotFreeBehindFree(sorted, a)
    {
      CountsAsFree(before, sorted, a);
    }
    forall a | addr <= a < addr + size
      ensures TypeAt(sorted, a) == Some(MEMTYPE_FREE) ==> LeadsOrTies(before, a, true)
      ensures LeadsStrictly(before, a, true) ==> TypeAt(sorted, a) == Some(MEMTYPE_FREE)
    {
      FreeInSomeSorting(before, a);
      FreeInEverySorting(before, a);
    }
  }

  lemma EndsBoundTotal(s: seq<MemoryRegion>)
    requires Separated(s) && AllFit(s)
    ensures TotalLength(s, AnyType) < TWO_64
  {
    if s != [] {
      TotalBelowEnd(s);
      assert Last(s).Fits();
    }
  }

  lemma {:induction false} TotalBelowEnd(s: seq<MemoryRegion>)
    requires Separated(s) && s != []
    ensures TotalLength(s, AnyType) <= Last(s).End()
  {
    if |s| > 1 {
      TotalBelowEnd(Init(s));
      assert Last(Init(s)).End() <= Last(s).base;
    }
  }

  // The statistics with one more region; none of the sums exceeds the total
  lemma NextTotals(s: seq<MemoryRegion>, r: MemoryRegion)
    ensures forall k: Kind :: TotalLength(s + [r], k) == TotalLength(s, k) + Weight(k, r)
    ensures forall k: Kind :: TotalLength(s + [r], k) <= TotalLength(s + [r], AnyType)
    ensures LongestFree(s + [r]) ==
            if r.typ == MEMTYPE_FREE && r.length > LongestFree(s) then r.length else LongestFree(s)
  {
    assert Init(s + [r]) == s && Last(s + [r]) == r;
    TotalLengthSplits(s + [r]);
  }

  lemma SameCells(s: seq<MemoryRegion>, t: seq<MemoryRegion>)
    requires SameMeaning(s, t)
    ensures forall k: Kind :: Cells(s, k) == Cells(t, k)
  {
  }

  lemma CellTotals(s: seq<MemoryRegion>)
    requires Separated(s) && AllFit(s)
    ensures forall k: Kind :: TotalLength(s, k) == |Cells(s, k)|
    ensures TotalLength(s, AnyType) == TotalLength(s, FreeOnly) + TotalLength(s, NotFree)
  {
    TotalLengthSplits(s);
    forall k: Kind
      ensures TotalLength(s, k) == |Cells(s, k)|
    {
      TotalLengthCountsCells(s, k);
    }
  }

  lemma AvailabilityMeaning(s: seq<MemoryRegion>, addr: u64, size: u64)
    requires AllFit(s)
    ensures Canonical(s) && size > 0 ==>
              (addr + size < TWO_64 && InsideFreeRegion(s, addr, addr + size)
               <==> AllFree(s, addr, addr + size))
    ensures Separated(s) && size == 0 ==>
              (InsideFreeRegion(s, addr, addr)
               <==> TypeAt(s, addr) == Some(MEMTYPE_FREE) || TypeAt(s, addr - 1) == Some(MEMTYPE_FREE))
  {
    if Canonical(s) && size > 0 {
      FreeIntervalInOneRegion(s, addr, addr + size);
      InsideFits(s, addr, addr + size);
    }
    if Separated(s) && size == 0 {
      EmptyIntervalInFreeRegion(s, addr);
    }
  }

  lemma InsideFits(s: seq<MemoryRegion>, lo: int, hi: int)
    requires AllFit(s)
    ensures InsideFreeRegion(s, lo, hi) ==> hi < TWO_64
  {
    if i :| 0 <= i < |s| && s[i].typ == MEMTYPE_FREE && s[i].base <= lo && hi <= s[i].End() {
      assert s[i].Fits();
    }
  }

  lemma LargestBlockIsLongestInterval(s: seq<MemoryRegion>, found: bool, base: nat, size: nat)
    requires Canonical(s) && FirstLongestFree(s, found, base, size)
    ensures LongestFreeInterval(s, found, base, size)
  {
    if found {
      FreeIntervalInOneRegion(s, base, base + size);
      assert TypeAt(s, base) == Some(MEMTYPE_FREE);
    }
    forall lo: int, hi: int | lo < hi && AllFree(s, lo, hi)
      ensures found && hi - lo <= size && (hi - lo == size ==> base <= lo)
    {
      FreeIntervalInOneRegion(s, lo, hi);
      var i :| 0 <= i < |s| && s[i].typ == MEMTYPE_FREE && s[i].base <= lo && hi <= s[i].End();
      assert 0 < s[i].length <= size;
      var j :| 0 <= j < |s| && IsFirstLongest(s, j) && s[j].base == base && s[j].length == size;
      assert j < i ==> s[j].End() <= s[i].base;
    }
    if a: int :| TypeAt(s, a) == Some(MEMTYPE_FREE) {
      assert AllFree(s, a, a + 1);
    }
  }
}
