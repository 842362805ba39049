/** GRUB module ordering: repeated passes that place every module whose dependencies are placed. */
module GrubModules {
  import opened Machine

  datatype GrubModule = GrubModule(dependencies: seq<byte>, depCount: byte) {
    // The count does not exceed the dependency array
    predicate Valid() {
      depCount <= |dependencies|
    }
  }

  predicate AllValid(ms: seq<GrubModule>) {
    forall j :: 0 <= j < |ms| ==> ms[j].Valid()
  }

  /** Module `j` depends on module `d`; the comparison cuts the module count to 8 bits. */
  predicate DependsOn(ms: seq<GrubModule>, j: int, d: int) {
    && 0 <= j < |ms| && ms[j].Valid()
    && 0 <= d < |ms| % 0x100
    && d in ms[j].dependencies[..ms[j].depCount]
  }

  ghost predicate IsWalk(ms: seq<GrubModule>, w: seq<int>) {
    forall k :: 0 < k < |w| ==> DependsOn(ms, w[k - 1], w[k])
  }

  /** A closed walk along dependencies; `[j, j]` is one when `j` depends on itself. */
  ghost predicate IsCycle(ms: seq<GrubModule>, c: seq<int>) {
    |c| >= 2 && c[0] == c[|c| - 1] && IsWalk(ms, c)
  }

  ghost predicate Acyclic(ms: seq<GrubModule>) {
    forall c: seq<int> :: !IsCycle(ms, c)
  }

  /** A module that lists itself is a cycle. */
  lemma SelfDependencyIsCycle(ms: seq<GrubModule>, j: nat, k: nat)
    requires j < |ms| < 256 && ms[j].Valid() && k < ms[j].depCount as int && ms[j].dependencies[k] as int == j
    ensures !Acyclic(ms)
  {
    assert ms[j].dependencies[..ms[j].depCount][k] == j;
    assert DependsOn(ms, j, j);
    assert IsCycle(ms, [j, j]);
  }

  /** So are two that list each other. */
  lemma MutualDependencyIsCycle(ms: seq<GrubModule>, i: nat, j: nat, k: nat, m: nat)
    requires i < |ms| < 256 && j < |ms| && ms[i].Valid() && ms[j].Valid()
    requires k < ms[i].depCount as int && ms[i].dependencies[k] as int == j
    requires m < ms[j].depCount as int && ms[j].dependencies[m] as int == i
    ensures !Acyclic(ms)
  {
    assert ms[i].dependencies[..ms[i].depCount][k] == j && ms[j].dependencies[..ms[j].depCount][m] == i;
    assert DependsOn(ms, i, j) && DependsOn(ms, j, i);
    assert IsCycle(ms, [i, j, i]);
  }

  /** Dependencies on modules that do not exist, and those beyond the count, do not matter. */
  lemma OutOfRangeIsAcyclic(ms: seq<GrubModule>)
    requires forall j, k :: 0 <= j < |ms| && 0 <= k < |ms[j].dependencies| && k < ms[j].depCount as int ==>
                              ms[j].dependencies[k] as int >= |ms|
    ensures Acyclic(ms)
  {
    forall j, d
      ensures !DependsOn(ms, j, d)
    {
      NoDependency(ms, j, d);
    }
    assert forall c: seq<int> :: |c| >= 2 ==> !DependsOn(ms, c[0], c[1]);
  }

  lemma NoDependency(ms: seq<GrubModule>, j: int, d: int)
    requires 0 <= j < |ms| ==> forall k :: 0 <= k < |ms[j].dependencies| && k < ms[j].depCount as int ==>
                                             ms[j].dependencies[k] as int >= |ms|
    ensures !DependsOn(ms, j, d)
  {
  }

  // ----- Partial orders of placed modules -----

  predicate Distinct(p: seq<int>) {
    forall i, j :: 0 <= i < j < |p| ==> p[i] != p[j]
  }

  predicate InRange(p: seq<int>, n: int) {
    forall i :: 0 <= i < |p| ==> 0 <= p[i] < n
  }

  /** Distinct modules, each after everything it depends on. */
  ghost predicate Placed(ms: seq<GrubModule>, p: seq<int>) {
    && Distinct(p) && InRange(p, |ms|)
    && forall k, d :: 0 <= k < |p| && DependsOn(ms, p[k], d) ==> d in p[..k]
  }

  /** Every module that is not placed depends on one that is not. */
  ghost predicate Stuck(ms: seq<GrubModule>, p: seq<int>) {
    forall j {:trigger Blocked(ms, p, j)} :: 0 <= j < |ms| && j !in p ==> Blocked(ms, p, j)
  }

  ghost predicate Blocked(ms: seq<GrubModule>, p: seq<int>, j: int) {
    exists d :: DependsOn(ms, j, d) && d !in p
  }

  ghost function Elements(p: seq<int>): set<int> {
    set x | x in p
  }

  lemma {:induction false} DistinctCount(p: seq<int>)
    requires Distinct(p)
    ensures |Elements(p)| == |p|
  {
    if p == [] {
      assert Elements(p) == {};
    } else {
      var front := p[..|p| - 1];
      DistinctCount(front);
      assert p[|p| - 1] !in front;
      assert Elements(p) == Elements(front) + {p[|p| - 1]};
    }
  }

  /** Distinct numbers below `n` are at most `n`, and all of them if there are `n`. */
  lemma DistinctBound(p: seq<int>, n: nat)
    requires Distinct(p) && InRange(p, n)
    ensures |p| <= n
    ensures |p| == n ==> forall j :: 0 <= j < n ==> j in p
  {
    DistinctCount(p);
    assert Elements(p) <= Interval(0, n);
    SubsetCount(Elements(p), Interval(0, n));
    if |p| == n {
      forall j | 0 <= j < n
        ensures j in p
      {
        assert j in Elements(p);
      }
    }
  }

  lemma PlaceOne(ms: seq<GrubModule>, p: seq<int>, j: int)
    requires Placed(ms, p) && 0 <= j < |ms| && j !in p
    requires forall d :: DependsOn(ms, j, d) ==> d in p
    ensures Placed(ms, p + [j]) && |p| < |ms|
  {
    var q := p + [j];
    forall k, d | 0 <= k < |q| && DependsOn(ms, q[k], d)
      ensures d in q[..k]
    {
      assert q[..k] == if k < |p| then p[..k] else p;
      assert k < |p| ==> p[k] == q[k];
    }
    DistinctBound(q, |ms|);
  }

  // ----- Being stuck means there is a cycle -----

  // A walk of `k` steps along dependencies, through modules that are not placed
  lemma {:induction false} WalkOutside(ms: seq<GrubModule>, p: seq<int>, j: int, k: nat) returns (w: seq<int>)
    requires Stuck(ms, p) && 0 <= j < |ms| && j !in p
    ensures |w| == k + 1 && w[0] == j && InRange(w, |ms|) && IsWalk(ms, w)
    decreases k
  {
    if k == 0 {
      w := [j];
    } else {
      var d := UnplacedDependency(ms, p, j);
      var rest := WalkOutside(ms, p, d, k - 1);
      w := [j] + rest;
    }
  }

  lemma UnplacedDependency(ms: seq<GrubModule>, p: seq<int>, j: int) returns (d: int)
    requires Stuck(ms, p) && 0 <= j < |ms| && j !in p
    ensures DependsOn(ms, j, d) && d !in p && 0 <= d < |ms|
  {
    assert Blocked(ms, p, j);
    d :| DependsOn(ms, j, d) && d !in p;
  }

  lemma WalkWithRepeat(ms: seq<GrubModule>, w: seq<int>, a: nat, b: nat)
    requires IsWalk(ms, w) && a < b < |w| && w[a] == w[b]
    ensures IsCycle(ms, w[a..b + 1])
  {
    var c := w[a..b + 1];
    forall k | 0 < k < |c|
      ensures DependsOn(ms, c[k - 1], c[k])
    {
      assert DependsOn(ms, w[a + k - 1], w[a + k]);
    }
  }

  lemma StuckHasCycle(ms: seq<GrubModule>, p: seq<int>, j: int)
    requires Stuck(ms, p) && 0 <= j < |ms| && j !in p
    ensures !Acyclic(ms)
  {
    var w := WalkOutside(ms, p, j, |ms|);
    if Distinct(w) {
      DistinctBound(w, |ms|);
    } else {
      var a, b :| 0 <= a < b < |w| && w[a] == w[b];
      WalkWithRepeat(ms, w, a, b);
    }
  }

  // ----- A complete order leaves no cycle -----

  // Following dependencies moves towards the front of the order
  lemma {:induction false} WalkDescends(ms: seq<GrubModule>, p: seq<int>, c: seq<int>, k: nat, a: nat) returns (b: nat)
    requires Placed(ms, p) && a < |p| && k < |c| && c[0] == p[a]
    requires IsWalk(ms, c)
    ensures b + k <= a && c[k] == p[b]
  {
    if k == 0 {
      b := a;
    } else {
      var prev := WalkDescends(ms, p, c, k - 1, a);
      assert DependsOn(ms, c[k - 1], c[k]);
      assert c[k] in p[..prev];
      b :| 0 <= b < prev && p[..prev][b] == c[k];
    }
  }

  lemma CompleteOrderIsAcyclic(ms: seq<GrubModule>, p: seq<int>)
    requires Placed(ms, p) && |p| == |ms|
    ensures Acyclic(ms)
  {
    forall c: seq<int>
      ensures !IsCycle(ms, c)
    {
      DistinctBound(p, |ms|);
      if |c| >= 2 && IsWalk(ms, c) {
        assert DependsOn(ms, c[1 - 1], c[1]);
        assert c[0] in p;
        var a :| 0 <= a < |p| && p[a] == c[0];
        var b := WalkDescends(ms, p, c, |c| - 1, a);
      }
    }
  }

  /** A placed order that nothing can be added to is complete exactly when there is no cycle. */
  lemma CompleteIffAcyclic(ms: seq<GrubModule>, p: seq<int>)
    requires Placed(ms, p) && Stuck(ms, p)
    ensures |p| <= |ms|
    ensures |p| == |ms| <==> Acyclic(ms)
  {
    DistinctBound(p, |ms|);
    if |p| == |ms| {
      CompleteOrderIsAcyclic(ms, p);
    } else {
      var j := MissingModule(ms, p);
      StuckHasCycle(ms, p, j);
    }
  }

  lemma MissingModule(ms: seq<GrubModule>, p: seq<int>) returns (j: int)
    requires Distinct(p) && InRange(p, |ms|) && |p| < |ms|
    ensures 0 <= j < |ms| && j !in p
  {
    DistinctCount(p);
    if forall j :: 0 <= j < |ms| ==> j in p {
      assert Interval(0, |ms|) <= Elements(p);
      SubsetCount(Interval(0, |ms|), Elements(p));
    }
    j :| 0 <= j < |ms| && j !in p;
  }

  // ----- The sort -----

  ghost predicate Marks(built: seq<bool>, p: seq<int>) {
    forall j :: 0 <= j < |built| ==> (built[j] <==> j in p)
  }

  method DependenciesMet(ms: seq<GrubModule>, built: array<bool>, j: nat, ghost p: seq<int>) returns (met: bool)
    requires AllValid(ms) && built.Length == |ms| && j < |ms| && Marks(built[..], p)
    ensures met <==> forall d :: DependsOn(ms, j, d) ==> d in p
  {
    var m := ms[j];
    for k := 0 to m.depCount
      invariant forall d :: DependsOn(ms, j, d) && d in m.dependencies[..k] ==> d in p
    {
      var dep := m.dependencies[k];
      assert m.dependencies[..k + 1] == m.dependencies[..k] + [dep];
      if dep < |ms| % 0x100 && !built[dep] {
        assert dep in m.dependencies[..m.depCount];
        assert DependsOn(ms, j, dep);
        assert built[..][dep] == built[dep];
        return false;
      }
      assert dep < |ms| % 0x100 ==> built[..][dep] == built[dep];
    }
    return true;
  }

  // One pass over all modules; `p` is the order placed so far
  method Pass(ms: seq<GrubModule>, built: array<bool>, result: array<int>, start: nat, ghost p: seq<int>)
    returns (ridx: nat, ghost q: seq<int>)
    requires AllValid(ms) && built.Length == result.Length == |ms|
    requires start <= |ms| && result[..start] == p && Placed(ms, p) && Marks(built[..], p)
    modifies built, result
    ensures start <= ridx <= |ms| && result[..ridx] == q && Placed(ms, q) && Marks(built[..], q)
    ensures p <= q
    ensures q == p ==> Stuck(ms, q)
    ensures Stuck(ms, p) ==> q == p
  {
    ridx, q := start, p;
    for j := 0 to |ms|
      invariant start <= ridx <= |ms| && result[..ridx] == q && Placed(ms, q) && Marks(built[..], q)
      invariant p <= q
      invariant q == p ==> forall i {:trigger Blocked(ms, p, i)} :: 0 <= i < j && i !in p ==> Blocked(ms, p, i)
      invariant Stuck(ms, p) ==> q == p
    {
      assert built[..][j] == built[j];
      assert Stuck(ms, q) && j !in q ==> Blocked(ms, q, j);
      if built[j] {
        continue;
      }
      var met := DependenciesMet(ms, built, j, q);
      if met {
        PlaceOne(ms, q, j);
        result[ridx] := j;
        ridx := ridx + 1;
        built[j] := true;
        q := q + [j];
        assert result[..ridx] == q;
      }
    }
  }

  // The passes of one outer round; `count` is not reset between them
  method Round(ms: seq<GrubModule>, built: array<bool>, result: array<int>, start: nat, ghost p: seq<int>)
    returns (ridx: nat, ghost q: seq<int>)
    requires AllValid(ms) && built.Length == result.Length == |ms|
    requires start <= |ms| && result[..start] == p && Placed(ms, p) && Marks(built[..], p)
    modifies built, result
    ensures start <= ridx <= |ms| && result[..ridx] == q && Placed(ms, q) && Marks(built[..], q)
    ensures Stuck(ms, q)
  {
    ridx, q := start, p;
    var count := 0;
    for pass := 0 to |ms|
      invariant start <= ridx <= |ms| && result[..ridx] == q && Placed(ms, q) && Marks(built[..], q)
      invariant count == ridx - start
      invariant ridx >= pass || Stuck(ms, q)
      invariant Stuck(ms, p) ==> q == p
    {
      ghost var before := q;
      var next;
      next, q := Pass(ms, built, result, ridx, before);
      count := count + next - ridx;
      assert |before| == ridx && |q| == next;
      ridx := next;
      if count == 0 {
        break;
      }
    }
    if ridx == |ms| {
      DistinctBound(q, |ms|);
    }
  }

  /**
   * Succeeds exactly when the dependencies have no cycle, and then fills `order` with all
   * modules, each after everything it depends on.
   */
  method TopologicalSort(ms: seq<GrubModule>, order: array<int>) returns (ok: bool, orderCount: nat)
    requires AllValid(ms) && |ms| <= order.Length
    modifies order
    ensures ok <==> Acyclic(ms)
    ensures ok ==> orderCount == |ms| && Placed(ms, order[..|ms|])
    ensures ok ==> forall j :: 0 <= j < |ms| ==> j in order[..|ms|]
    ensures ok ==> order[|ms|..] == old(order[|ms|..])
    ensures !ok ==> orderCount == 0 && order[..] == old(order[..])
  {
    var built := new bool[|ms|](_ => false);
    var result := new int[|ms|](_ => 0);
    var ridx: nat := 0;
    ghost var p: seq<int> := [];
    for i := 0 to |ms|
      invariant ridx <= |ms| && result[..ridx] == p && Placed(ms, p) && Marks(built[..], p)
      invariant i > 0 || |ms| == 0 ==> Stuck(ms, p)
      invariant order[..] == old(order[..])
    {
      ridx, p := Round(ms, built, result, ridx, p);
    }
    CompleteIffAcyclic(ms, p);
    if ridx < |ms| {
      return false, 0;
    }
    DistinctBound(p, |ms|);
    forall k | 0 <= k < |ms| {
      order[k] := result[k];
    }
    assert order[..|ms|] == p;
    return true, |ms|;
  }

  /** An empty module list needs no sort. */
  method DependencyResolve(ms: seq<GrubModule>, order: array<int>) returns (ok: bool, orderCount: nat)
    requires AllValid(ms) && |ms| <= order.Length
    modifies order
    ensures ok <==> Acyclic(ms)
    ensures ok ==> orderCount == |ms| && Placed(ms, order[..|ms|])
    ensures ok ==> forall j :: 0 <= j < |ms| ==> j in order[..|ms|]
    ensures !ok ==> orderCount == 0 && order[..] == old(order[..])
  {
    if |ms| == 0 {
      CompleteIffAcyclic(ms, []);
      return true, 0;
    }
    ok, orderCount := TopologicalSort(ms, order);
  }
}
