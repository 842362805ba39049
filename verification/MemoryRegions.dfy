/**
 * The meaning of an E820 region list, and what sanitizing and merging do to it.
 *
 * A region list denotes a partial function from addresses to memory types: an address
 * has the type of the first region that covers it.
 */
module MemoryRegions {
  import opened Machine

  const MEMTYPE_FREE: u32 := 1

  datatype MemoryRegion = MemoryRegion(base: nat, length: nat, typ: nat) {
    // The end of the region, as an unbounded sum
    function End(): nat {
      base + length
    }

    // What bootmem_add_region guarantees: the end does not wrap around
    predicate Fits() {
      base + length < TWO_64
    }

    predicate Covers(a: int) {
      base <= a < base + length
    }
  }

  function Last(s: seq<MemoryRegion>): MemoryRegion
    requires s != []
  {
    s[|s| - 1]
  }

  function Init(s: seq<MemoryRegion>): seq<MemoryRegion>
    requires s != []
  {
    s[..|s| - 1]
  }

  predicate AllFit(s: seq<MemoryRegion>) {
    forall i :: 0 <= i < |s| ==> s[i].Fits()
  }

  predicate SortedByBase(s: seq<MemoryRegion>) {
    forall i, j :: 0 <= i < j < |s| ==> s[i].base <= s[j].base
  }

  /** Non-empty regions in strictly increasing order that do not overlap. */
  predicate Separated(s: seq<MemoryRegion>) {
    && (forall i :: 0 <= i < |s| ==> s[i].length > 0)
    && (forall i, j :: 0 <= i < j < |s| ==> s[i].End() <= s[j].base)
  }

  /** No two consecutive regions touch and have the same type. */
  predicate Seamless(s: seq<MemoryRegion>) {
    forall i :: 0 < i < |s| ==> !(s[i - 1].typ == s[i].typ && s[i - 1].End() == s[i].base)
  }

  predicate Canonical(s: seq<MemoryRegion>) {
    Separated(s) && Seamless(s)
  }

  /** The type of address `a`: that of the first region covering it, if there is one. */
  ghost function TypeAt(s: seq<MemoryRegion>, a: int): Option<nat> {
    if s == [] then None
    else if TypeAt(Init(s), a).Some? then TypeAt(Init(s), a)
    else if Last(s).Covers(a) then Some(Last(s).typ)
    else None
  }

  ghost predicate SameMeaning(s: seq<MemoryRegion>, t: seq<MemoryRegion>) {
    forall a: int :: TypeAt(s, a) == TypeAt(t, a)
  }

  lemma {:induction false} TypeAtIsFirstCovering(s: seq<MemoryRegion>, a: int, i: nat)
    requires i < |s| && s[i].Covers(a)
    requires forall j :: 0 <= j < i ==> !s[j].Covers(a)
    ensures TypeAt(s, a) == Some(s[i].typ)
  {
    if i == |s| - 1 {
      UncoveredHasNoType(Init(s), a);
    } else {
      TypeAtIsFirstCovering(Init(s), a, i);
    }
  }

  lemma {:induction false} UncoveredHasNoType(s: seq<MemoryRegion>, a: int)
    ensures TypeAt(s, a) == None <==> forall j :: 0 <= j < |s| ==> !s[j].Covers(a)
  {
    if s != [] {
      UncoveredHasNoType(Init(s), a);
      assert forall j :: 0 <= j < |Init(s)| ==> Init(s)[j] == s[j];
    }
  }

  lemma TypeAtSnoc(s: seq<MemoryRegion>, r: MemoryRegion, a: int)
    ensures TypeAt(s + [r], a) ==
            if TypeAt(s, a).Some? then TypeAt(s, a) else if r.Covers(a) then Some(r.typ) else None
  {
    assert Init(s + [r]) == s;
  }

  // In a separated list the covering region is unique
  lemma TypeInSeparated(s: seq<MemoryRegion>, i: nat, a: int)
    requires Separated(s) && i < |s| && s[i].Covers(a)
    ensures TypeAt(s, a) == Some(s[i].typ)
  {
    forall j | 0 <= j < i
      ensures !s[j].Covers(a)
    {
      assert s[j].End() <= s[i].base;
    }
    TypeAtIsFirstCovering(s, a, i);
  }

  // ----- Sanitizing -----

  /** One round of the sanitizing loop: `out` is what has been kept, `r` the region read. */
  function SanitizeStep(out: seq<MemoryRegion>, r: MemoryRegion): seq<MemoryRegion> {
    if r.length == 0 then out
    else if out != [] && r.base < Last(out).End() then
      if r.End() > Last(out).End() then
        out + [MemoryRegion(Last(out).End(), r.End() - Last(out).End(), r.typ)]
      else out
    else out + [r]
  }

  function Sanitized(s: seq<MemoryRegion>): seq<MemoryRegion> {
    if s == [] then [] else SanitizeStep(Sanitized(Init(s)), Last(s))
  }

  lemma SanitizeStepMeaning(s: seq<MemoryRegion>, out: seq<MemoryRegion>, r: MemoryRegion, a: int)
    requires TypeAt(out, a) == TypeAt(s, a)
    requires out != [] && r.base <= a < Last(out).End() ==> TypeAt(s, a).Some?
    ensures TypeAt(SanitizeStep(out, r), a) == TypeAt(s + [r], a)
  {
    TypeAtSnoc(s, r, a);
    var next := SanitizeStep(out, r);
    if next != out {
      TypeAtSnoc(out, Last(next), a);
    }
  }

  /** Sanitizing a sorted list separates its regions and keeps the type of every address. */
  lemma {:induction false} SanitizeKeepsMeaning(s: seq<MemoryRegion>)
    requires SortedByBase(s)
    ensures Separated(Sanitized(s))
    ensures SameMeaning(Sanitized(s), s)
    ensures Sanitized(s) != [] ==>
              forall a :: Last(s).base <= a < Last(Sanitized(s)).End() ==> TypeAt(s, a).Some?
  {
    if s != [] {
      var front, r := Init(s), Last(s);
      SanitizeKeepsMeaning(front);
      assert s == front + [r];
      var out := Sanitized(front);
      assert out != [] ==> Last(front).base <= r.base;
      forall a: int
        ensures TypeAt(SanitizeStep(out, r), a) == TypeAt(s, a)
        ensures r.Covers(a) || (out != [] && r.base <= a < Last(out).End()) ==> TypeAt(s, a).Some?
      {
        SanitizeStepMeaning(front, out, r, a);
        TypeAtSnoc(front, r, a);
      }
    }
  }

  lemma {:induction false} SanitizeFits(s: seq<MemoryRegion>)
    requires AllFit(s)
    ensures AllFit(Sanitized(s)) && |Sanitized(s)| <= |s|
  {
    if s != [] {
      SanitizeFits(Init(s));
    }
  }

  lemma {:induction false} SanitizeOfSeparated(s: seq<MemoryRegion>)
    requires Separated(s)
    ensures Sanitized(s) == s
  {
    if s != [] {
      SanitizeOfSeparated(Init(s));
      assert s == Init(s) + [Last(s)];
    }
  }

  // ----- Merging -----

  /** One round of the merging loop. */
  function MergeStep(out: seq<MemoryRegion>, r: MemoryRegion): seq<MemoryRegion> {
    if out != [] && Last(out).typ == r.typ && Last(out).End() == r.base then
      Init(out) + [Last(out).(length := Last(out).length + r.length)]
    else out + [r]
  }

  function Merged(s: seq<MemoryRegion>): seq<MemoryRegion> {
    if s == [] then [] else MergeStep(Merged(Init(s)), Last(s))
  }

  /** Merging keeps the type of every address, whatever the list. */
  lemma {:induction false} MergeKeepsMeaning(s: seq<MemoryRegion>)
    ensures SameMeaning(Merged(s), s)
  {
    if s != [] {
      MergeKeepsMeaning(Init(s));
      var out, r := Merged(Init(s)), Last(s);
      assert s == Init(s) + [r];
      forall a: int
        ensures TypeAt(MergeStep(out, r), a) == TypeAt(s, a)
      {
        TypeAtSnoc(Init(s), r, a);
        if MergeStep(out, r) == out + [r] {
          TypeAtSnoc(out, r, a);
        } else {
          TypeAtSnoc(Init(out), Last(MergeStep(out, r)), a);
          assert out == Init(out) + [Last(out)];
        }
      }
    }
  }

  lemma {:induction false} MergeShape(s: seq<MemoryRegion>)
    ensures s != [] ==> Merged(s) != [] && Last(Merged(s)).End() == Last(s).End()
    ensures |Merged(s)| <= |s|
  {
    if s != [] {
      MergeShape(Init(s));
    }
  }

  lemma {:induction false} MergeFits(s: seq<MemoryRegion>)
    requires AllFit(s)
    ensures AllFit(Merged(s))
  {
    if s != [] {
      MergeFits(Init(s));
      assert Last(s).Fits();
    }
  }

  lemma {:induction false} MergeIsCanonical(s: seq<MemoryRegion>)
    requires Separated(s)
    ensures Canonical(Merged(s))
  {
    if s != [] {
      MergeIsCanonical(Init(s));
      MergeShape(Init(s));
      CanonicalMergeStep(Merged(Init(s)), Last(s));
    }
  }

  lemma CanonicalMergeStep(out: seq<MemoryRegion>, r: MemoryRegion)
    requires Canonical(out) && r.length > 0
    requires out != [] ==> Last(out).End() <= r.base
    ensures Canonical(MergeStep(out, r))
  {
    var next := MergeStep(out, r);
    forall i, j | 0 <= i < j < |next|
      ensures next[i].End() <= next[j].base
    {
      if j < |out| {
        assert out[i].End() <= out[j].base;
      } else if i < |out| - 1 {
        assert out[i].End() <= Last(out).base;
      }
    }
  }

  lemma {:induction false} MergeOfCanonical(s: seq<MemoryRegion>)
    requires Seamless(s)
    ensures Merged(s) == s
  {
    if s != [] {
      MergeOfCanonical(Init(s));
      assert s == Init(s) + [Last(s)];
    }
  }

  // ----- The normal form -----

  // The last address that `s` covers
  lemma LastCell(s: seq<MemoryRegion>)
    requires Separated(s) && s != []
    ensures TypeAt(s, Last(s).End() - 1) == Some(Last(s).typ)
    ensures forall a :: a >= Last(s).End() ==> TypeAt(s, a) == None
  {
    TypeInSeparated(s, |s| - 1, Last(s).End() - 1);
    forall a | a >= Last(s).End()
      ensures TypeAt(s, a) == None
    {
      UncoveredHasNoType(s, a);
    }
  }

  lemma Gap(s: seq<MemoryRegion>, i: nat, j: nat)
    requires Separated(s) && i + 1 < j < |s|
    ensures s[i].End() < s[j].base
  {
    assert s[i].End() <= s[i + 1].base && s[i + 1].End() <= s[j].base;
  }

  // Nothing of the last region's type touches it from below
  lemma BeforeLastRegion(s: seq<MemoryRegion>)
    requires Canonical(s) && s != []
    ensures TypeAt(s, Last(s).base - 1) != Some(Last(s).typ)
  {
    var a := Last(s).base - 1;
    UncoveredHasNoType(s, a);
    if j: nat :| j < |s| && s[j].Covers(a) {
      TypeInSeparated(s, j, a);
      if j < |s| - 2 {
        Gap(s, j, |s| - 1);
      }
    }
  }

  // Of two canonical lists with one meaning, neither ends in a region that starts later
  lemma LastRegionExtends(s: seq<MemoryRegion>, t: seq<MemoryRegion>)
    requires Canonical(s) && Canonical(t) && s != [] && t != []
    requires SameMeaning(s, t)
    ensures Last(s).End() == Last(t).End() && Last(s).typ == Last(t).typ
    ensures Last(s).base <= Last(t).base
  {
    LastCell(s);
    LastCell(t);
    assert TypeAt(t, Last(s).End() - 1).Some? && TypeAt(s, Last(t).End() - 1).Some?;
    BeforeLastRegion(s);
    if Last(t).base <= Last(s).base - 1 {
      TypeInSeparated(t, |t| - 1, Last(s).base - 1);
    }
  }

  lemma LastRegionsAgree(s: seq<MemoryRegion>, t: seq<MemoryRegion>)
    requires Canonical(s) && Canonical(t) && s != [] && t != []
    requires SameMeaning(s, t)
    ensures Last(s) == Last(t)
    ensures SameMeaning(Init(s), Init(t))
  {
    LastRegionExtends(s, t);
    LastRegionExtends(t, s);
    forall a: int
      ensures TypeAt(Init(s), a) == TypeAt(Init(t), a)
    {
      InitMeaning(s, a);
      InitMeaning(t, a);
    }
  }

  // A list that covers nothing is empty
  lemma EmptyMeaning(s: seq<MemoryRegion>, t: seq<MemoryRegion>)
    requires Canonical(t) && SameMeaning(s, t) && s == []
    ensures t == []
  {
    if t != [] {
      LastCell(t);
    }
  }

  /** Two canonical lists with the same meaning are the same list. */
  lemma {:induction false} CanonicalIsUnique(s: seq<MemoryRegion>, t: seq<MemoryRegion>)
    requires Canonical(s) && Canonical(t)
    requires SameMeaning(s, t)
    ensures s == t
  {
    if s == [] {
      EmptyMeaning(s, t);
    } else if t == [] {
      EmptyMeaning(t, s);
    } else {
      LastRegionsAgree(s, t);
      CanonicalInit(s);
      CanonicalInit(t);
      CanonicalIsUnique(Init(s), Init(t));
      SnocsEqual(s, t);
    }
  }

  lemma CanonicalInit(s: seq<MemoryRegion>)
    requires Canonical(s) && s != []
    ensures Canonical(Init(s))
  {
  }

  lemma SnocsEqual(s: seq<MemoryRegion>, t: seq<MemoryRegion>)
    requires s != [] && t != [] && Init(s) == Init(t) && Last(s) == Last(t)
    ensures s == t
  {
    assert s == Init(s) + [Last(s)] && t == Init(t) + [Last(t)];
  }

  lemma InitMeaning(s: seq<MemoryRegion>, a: int)
    requires Separated(s) && s != []
    ensures TypeAt(Init(s), a) == if Last(s).Covers(a) then None else TypeAt(s, a)
  {
    UncoveredHasNoType(Init(s), a);
    assert forall j :: 0 <= j < |s| - 1 ==> Init(s)[j] == s[j] && s[j].End() <= Last(s).base;
  }

  /** Sanitizing and then merging computes a normal form of the meaning. */
  lemma NormalForm(s: seq<MemoryRegion>, t: seq<MemoryRegion>)
    requires SortedByBase(s) && SortedByBase(t)
    ensures Canonical(Merged(Sanitized(s))) && SameMeaning(Merged(Sanitized(s)), s)
    ensures SameMeaning(s, t) <==> Merged(Sanitized(s)) == Merged(Sanitized(t))
    ensures Sanitized(Merged(Sanitized(s))) == Merged(Sanitized(s))
    ensures Merged(Merged(Sanitized(s))) == Merged(Sanitized(s))
  {
    NormalFormOfOne(s);
    NormalFormOfOne(t);
    if SameMeaning(s, t) {
      CanonicalIsUnique(Merged(Sanitized(s)), Merged(Sanitized(t)));
    }
    SanitizeOfSeparated(Merged(Sanitized(s)));
    MergeOfCanonical(Merged(Sanitized(s)));
  }

  lemma NormalFormOfOne(s: seq<MemoryRegion>)
    requires SortedByBase(s)
    ensures Canonical(Merged(Sanitized(s))) && SameMeaning(Merged(Sanitized(s)), s)
  {
    SanitizeKeepsMeaning(s);
    MergeKeepsMeaning(Sanitized(s));
    MergeIsCanonical(Sanitized(s));
  }

  // ----- Availability -----

  ghost predicate AllFree(s: seq<MemoryRegion>, lo: int, hi: int) {
    forall a: int :: lo <= a < hi ==> TypeAt(s, a) == Some(MEMTYPE_FREE)
  }

  ghost predicate InsideFreeRegion(s: seq<MemoryRegion>, lo: int, hi: int) {
    exists i :: 0 <= i < |s| && s[i].typ == MEMTYPE_FREE && s[i].base <= lo && hi <= s[i].End()
  }

  // The address just after a region of a canonical list is never of the region's type
  lemma TypeAfterRegion(s: seq<MemoryRegion>, i: nat)
    requires Canonical(s) && i < |s|
    ensures TypeAt(s, s[i].End()) != Some(s[i].typ)
  {
    UncoveredHasNoType(s, s[i].End());
    if j: nat :| j < |s| && s[j].Covers(s[i].End()) {
      TypeInSeparated(s, j, s[i].End());
      if i + 1 < j {
        Gap(s, i, j);
      }
    }
  }

  /** In a canonical list an interval is all free exactly when one free region contains it. */
  lemma FreeIntervalInOneRegion(s: seq<MemoryRegion>, lo: int, hi: int)
    requires Canonical(s) && lo < hi
    ensures AllFree(s, lo, hi) <==> InsideFreeRegion(s, lo, hi)
  {
    if AllFree(s, lo, hi) {
      UncoveredHasNoType(s, lo);
      var i :| 0 <= i < |s| && s[i].Covers(lo);
      TypeInSeparated(s, i, lo);
      TypeAfterRegion(s, i);
    }
    if i :| 0 <= i < |s| && s[i].typ == MEMTYPE_FREE && s[i].base <= lo && hi <= s[i].End() {
      forall a: int | lo <= a < hi
        ensures TypeAt(s, a) == Some(MEMTYPE_FREE)
      {
        TypeInSeparated(s, i, a);
      }
    }
  }

  /** An empty interval lies in a free region when the address on one of its sides is free. */
  lemma EmptyIntervalInFreeRegion(s: seq<MemoryRegion>, a: int)
    requires Separated(s)
    ensures InsideFreeRegion(s, a, a)
            <==> TypeAt(s, a) == Some(MEMTYPE_FREE) || TypeAt(s, a - 1) == Some(MEMTYPE_FREE)
  {
    forall b: int, i: int | 0 <= i < |s| && s[i].Covers(b)
      ensures TypeAt(s, b) == Some(s[i].typ)
    {
      TypeInSeparated(s, i, b);
    }
    UncoveredHasNoType(s, a);
    UncoveredHasNoType(s, a - 1);
    if i :| 0 <= i < |s| && s[i].typ == MEMTYPE_FREE && s[i].base <= a <= s[i].End() {
      assert s[i].Covers(a) || s[i].Covers(a - 1);
    }
  }

  // ----- Statistics -----

  datatype Kind = AnyType | FreeOnly | NotFree

  predicate Selects(k: Kind, typ: nat) {
    match k
    case AnyType => true
    case FreeOnly => typ == MEMTYPE_FREE
    case NotFree => typ != MEMTYPE_FREE
  }

  function Weight(k: Kind, r: MemoryRegion): nat {
    if Selects(k, r.typ) then r.length else 0
  }

  /** Sum of the lengths of the regions of kind `k`. */
  function TotalLength(s: seq<MemoryRegion>, k: Kind): nat {
    if s == [] then 0 else TotalLength(Init(s), k) + Weight(k, Last(s))
  }

  /** The addresses whose type is of kind `k`. */
  ghost function Cells(s: seq<MemoryRegion>, k: Kind): set<int> {
    set a: int | 0 <= a < TWO_64 && TypeAt(s, a).Some? && Selects(k, TypeAt(s, a).value)
  }

  /** What the three kinds of addresses are. */
  lemma CellsByType(s: seq<MemoryRegion>, a: int)
    ensures a in Cells(s, AnyType) <==> 0 <= a < TWO_64 && TypeAt(s, a) != None
    ensures a in Cells(s, FreeOnly) <==> 0 <= a < TWO_64 && TypeAt(s, a) == Some(1)
    ensures a in Cells(s, NotFree) <==> 0 <= a < TWO_64 && TypeAt(s, a) != None && TypeAt(s, a) != Some(1)
  {
  }

  /** In a separated list the lengths of kind `k` add up to the number of addresses of kind `k`. */
  lemma {:induction false} TotalLengthCountsCells(s: seq<MemoryRegion>, k: Kind)
    requires Separated(s) && AllFit(s)
    ensures TotalLength(s, k) == |Cells(s, k)|
  {
    if s == [] {
      assert Cells(s, k) == {};
    } else {
      TotalLengthCountsCells(Init(s), k);
      CellsOfLast(s, k);
    }
  }

  lemma CellsOfLast(s: seq<MemoryRegion>, k: Kind)
    requires Separated(s) && AllFit(s) && s != []
    ensures |Cells(s, k)| == |Cells(Init(s), k)| + Weight(k, Last(s))
  {
    var front, r := Cells(Init(s), k), Last(s);
    var added := if Selects(k, r.typ) then Interval(r.base, r.End()) else {};
    forall a: int
      ensures a in Cells(s, k) <==> a in front || a in added
      ensures !(a in front && a in added)
    {
      CellOfLast(s, k, a);
    }
    assert Cells(s, k) == front + added;
    assert front * added == {};
  }

  lemma CellOfLast(s: seq<MemoryRegion>, k: Kind, a: int)
    requires Separated(s) && AllFit(s) && s != []
    ensures a in Cells(s, k)
            <==> a in Cells(Init(s), k) || (Last(s).Covers(a) && Selects(k, Last(s).typ))
    ensures Last(s).Covers(a) ==> a !in Cells(Init(s), k)
  {
    InitMeaning(s, a);
    assert Last(s).Fits();
  }

  lemma {:induction false} TotalLengthSplits(s: seq<MemoryRegion>)
    ensures TotalLength(s, AnyType) == TotalLength(s, FreeOnly) + TotalLength(s, NotFree)
  {
    if s != [] {
      TotalLengthSplits(Init(s));
    }
  }

  lemma {:induction false} TotalLengthOfPrefix(s: seq<MemoryRegion>, i: nat, k: Kind)
    requires i <= |s|
    ensures TotalLength(s[..i], k) <= TotalLength(s, k)
  {
    if i < |s| {
      TotalLengthOfPrefix(Init(s), i, k);
      assert Init(s)[..i] == s[..i];
    } else {
      assert s[..i] == s;
    }
  }
}
