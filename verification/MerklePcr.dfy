/**
 * A Merkle tree kept in an array, root first, with its leaves in reverse order at the end.
 * The node hash is any function of two digests.
 */
module MerklePcr {
  import opened Machine

  datatype Sibling<D> = Sibling(hash: D, isLeft: bool)

  datatype MerkleProof<D> = MerkleProof(siblings: seq<Sibling<D>>, leafIndex: nat, leafValue: D, expectedRoot: D)

  // ----- Trees in arrays -----

  ghost predicate HashedAt<D>(node: (D, D) -> D, nodes: seq<D>, j: nat) {
    2 * j + 2 < |nodes| ==> nodes[j] == node(nodes[2 * j + 1], nodes[2 * j + 2])
  }

  /** Every inner node is the hash of its two children. */
  ghost predicate IsHashTree<D>(node: (D, D) -> D, nodes: seq<D>) {
    forall j: nat :: HashedAt(node, nodes, j)
  }

  function Padded<D>(leaves: seq<D>, zero: D, width: nat): (padded: seq<D>)
    ensures |padded| >= width && |padded| >= |leaves|
    ensures |leaves| <= width ==> |padded| == width
  {
    leaves + seq(if width > |leaves| then width - |leaves| else 0, _ => zero)
  }

  /** The leaves of a tree, which its array holds in reverse. */
  function LeafAt<D>(nodes: seq<D>, i: nat): D
    requires i < |nodes|
  {
    nodes[|nodes| - 1 - i]
  }

  /** `nodes` is the hash tree over `leaves`, padded to 2^depth leaves. */
  ghost predicate IsTreeOver<D>(node: (D, D) -> D, nodes: seq<D>, leaves: seq<D>, zero: D, depth: nat) {
    && |leaves| <= Pow2(depth)
    && |nodes| == 2 * Pow2(depth) - 1
    && IsHashTree(node, nodes)
    && forall i :: 0 <= i < Pow2(depth) ==> LeafAt(nodes, i) == Padded(leaves, zero, Pow2(depth))[i]
  }

  // ----- Proofs -----

  function Combine<D>(node: (D, D) -> D, current: D, s: Sibling<D>): D {
    if s.isLeft then node(s.hash, current) else node(current, s.hash)
  }

  /** What a verifier computes from a leaf and the siblings above it. */
  function Climb<D>(node: (D, D) -> D, current: D, siblings: seq<Sibling<D>>): D {
    if siblings == [] then current else Climb(node, Combine(node, current, siblings[0]), siblings[1..])
  }

  lemma {:induction false} ClimbSnoc<D>(node: (D, D) -> D, current: D, siblings: seq<Sibling<D>>, s: Sibling<D>)
    ensures Climb(node, current, siblings + [s]) == Combine(node, Climb(node, current, siblings), s)
  {
    if siblings == [] {
      assert [s][1..] == [];
    } else {
      ClimbSnoc(node, Combine(node, current, siblings[0]), siblings[1..], s);
      assert (siblings + [s])[1..] == siblings[1..] + [s];
    }
  }

  // The array position that the directions of a proof spell, going down from `top`
  function PositionFrom<D>(top: nat, siblings: seq<Sibling<D>>): nat {
    if siblings == [] then top
    else 2 * PositionFrom(top, siblings[1..]) + if siblings[0].isLeft then 2 else 1
  }

  /** The array position that the directions of a proof spell, going down from the root. */
  function Position<D>(siblings: seq<Sibling<D>>): nat {
    PositionFrom(0, siblings)
  }

  lemma {:induction false} PositionLevel<D>(siblings: seq<Sibling<D>>)
    ensures Pow2(|siblings|) - 1 <= Position(siblings) <= 2 * Pow2(|siblings|) - 2
  {
    if siblings != [] {
      PositionLevel(siblings[1..]);
    }
  }

  lemma {:induction false} Pow2Monotone(j: nat, k: nat)
    requires j <= k
    ensures Pow2(j) <= Pow2(k)
  {
    if j < k {
      Pow2Monotone(j, k - 1);
    }
  }

  // ----- Binding -----

  ghost predicate Collision<D>(node: (D, D) -> D, a: D, b: D, c: D, d: D) {
    (a != c || b != d) && node(a, b) == node(c, d)
  }

  /** Somewhere on its way up, the verifier hashes a pair that is not the tree's but hashes alike. */
  ghost predicate CollidesOnPath<D>(node: (D, D) -> D, nodes: seq<D>, current: D, siblings: seq<Sibling<D>>) {
    siblings != []
    && (CollidesOnPath(node, nodes, Combine(node, current, siblings[0]), siblings[1..])
        || (var q := Position(siblings[1..]);
            && 2 * q + 2 < |nodes|
            && (if siblings[0].isLeft
                then Collision(node, siblings[0].hash, current, nodes[2 * q + 1], nodes[2 * q + 2])
                else Collision(node, current, siblings[0].hash, nodes[2 * q + 1], nodes[2 * q + 2]))))
  }

  /** A proof that climbs to the root starts from the tree's own node, or exhibits a collision. */
  lemma {:induction false} ProofBinds<D>(node: (D, D) -> D, nodes: seq<D>, depth: nat,
                                         current: D, siblings: seq<Sibling<D>>)
    requires IsHashTree(node, nodes) && |nodes| == 2 * Pow2(depth) - 1 && |siblings| <= depth
    requires Climb(node, current, siblings) == nodes[0]
    ensures Position(siblings) < |nodes|
    ensures current == nodes[Position(siblings)] || CollidesOnPath(node, nodes, current, siblings)
  {
    PositionLevel(siblings);
    Pow2Monotone(|siblings|, depth);
    if siblings != [] {
      ProofBinds(node, nodes, depth, Combine(node, current, siblings[0]), siblings[1..]);
      var q: nat := Position(siblings[1..]);
      assert 2 * q + 2 < |nodes| by {
        PositionLevel(siblings[1..]);
      }
      assert HashedAt(node, nodes, q);
    }
  }

  ghost predicate Injective<D(!new)>(node: (D, D) -> D) {
    forall a, b, c, d :: node(a, b) == node(c, d) ==> a == c && b == d
  }

  lemma {:induction false} InjectiveNeverCollides<D(!new)>(node: (D, D) -> D, nodes: seq<D>, current: D,
                                                           siblings: seq<Sibling<D>>)
    requires Injective(node)
    ensures !CollidesOnPath(node, nodes, current, siblings)
    decreases |siblings|
  {
    if siblings != [] {
      InjectiveNeverCollides(node, nodes, Combine(node, current, siblings[0]), siblings[1..]);
    }
  }

  /**
   * A proof with exactly `depth` siblings that verifies carries the leaf stored where its
   * directions point, unless it exhibits a collision of the node hash.
   */
  lemma VerifiedLeafIsStored<D>(node: (D, D) -> D, nodes: seq<D>, leaves: seq<D>, zero: D, depth: nat,
                                proof: MerkleProof<D>)
    requires IsTreeOver(node, nodes, leaves, zero, depth)
    requires |proof.siblings| == depth && proof.expectedRoot == nodes[0]
    requires Climb(node, proof.leafValue, proof.siblings) == proof.expectedRoot
    ensures var i := |nodes| - 1 - Position(proof.siblings);
            && 0 <= i < Pow2(depth)
            && (proof.leafValue == Padded(leaves, zero, Pow2(depth))[i]
                || CollidesOnPath(node, nodes, proof.leafValue, proof.siblings))
  {
    ProofBinds(node, nodes, depth, proof.leafValue, proof.siblings);
    PositionLevel(proof.siblings);
  }

  ghost predicate CollidesBetween<D>(node: (D, D) -> D, a: seq<D>, b: seq<D>, j: nat)
    requires |a| <= |b|
  {
    2 * j + 2 < |a| && Collision(node, a[2 * j + 1], a[2 * j + 2], b[2 * j + 1], b[2 * j + 2])
  }

  // Going down from equal roots, all nodes are equal as long as no two pairs collide
  lemma {:induction false} EqualRootsEqualNodes<D>(node: (D, D) -> D, a: seq<D>, b: seq<D>, k: nat)
    requires IsHashTree(node, a) && IsHashTree(node, b) && |a| <= |b| && |a| % 2 == 1
    requires a[0] == b[0] && k <= |a|
    requires forall j: nat {:trigger CollidesBetween(node, a, b, j)} :: !CollidesBetween(node, a, b, j)
    ensures a[..k] == b[..k]
  {
    if k > 0 {
      EqualRootsEqualNodes(node, a, b, k - 1);
      if k > 1 {
        var j: nat := (k - 2) / 2;
        assert a[j] == a[..k - 1][j] == b[..k - 1][j] == b[j];
        assert HashedAt(node, a, j) && HashedAt(node, b, j);
        assert !CollidesBetween(node, a, b, j);
        assert a[k - 1] == b[k - 1];
      }
      assert a[..k] == a[..k - 1] + [a[k - 1]] && b[..k] == b[..k - 1] + [b[k - 1]];
    }
  }

  // Going up from equal leaves, all nodes are equal
  lemma {:induction false} EqualLeavesEqualNodes<D>(node: (D, D) -> D, a: seq<D>, b: seq<D>, width: nat, k: nat)
    requires IsHashTree(node, a) && IsHashTree(node, b) && |a| == |b| == 2 * width - 1
    requires a[width - 1..] == b[width - 1..]
    requires k < width
    ensures a[k..] == b[k..]
    decreases width - k
  {
    if k < width - 1 {
      EqualLeavesEqualNodes(node, a, b, width, k + 1);
      var u, v := a[k + 1..], b[k + 1..];
      assert a[2 * k + 1] == u[k] && b[2 * k + 1] == v[k];
      assert a[2 * k + 2] == u[k + 1] && b[2 * k + 2] == v[k + 1];
      assert HashedAt(node, a, k) && HashedAt(node, b, k);
      assert a[k..] == [a[k]] + u && b[k..] == [b[k]] + v;
    }
  }

  lemma EqualLeafRegions<D>(a: seq<D>, b: seq<D>, width: nat)
    requires |a| == |b| == 2 * width - 1
    requires forall i :: 0 <= i < width ==> LeafAt(a, i) == LeafAt(b, i)
    ensures a[width - 1..] == b[width - 1..]
  {
    forall k | width - 1 <= k < |a|
      ensures a[k] == b[k]
    {
      assert LeafAt(a, |a| - 1 - k) == LeafAt(b, |b| - 1 - k);
    }
  }

  /**
   * Two trees of the same depth have equal roots exactly when their padded leaves are equal,
   * unless two pairs of children collide.
   */
  lemma RootsBindLeaves<D>(node: (D, D) -> D, a: seq<D>, b: seq<D>, la: seq<D>, lb: seq<D>, zero: D, depth: nat)
    requires IsTreeOver(node, a, la, zero, depth) && IsTreeOver(node, b, lb, zero, depth)
    ensures Padded(la, zero, Pow2(depth)) == Padded(lb, zero, Pow2(depth)) ==> a == b
    ensures a[0] == b[0] ==>
              Padded(la, zero, Pow2(depth)) == Padded(lb, zero, Pow2(depth))
              || exists j: nat :: CollidesBetween(node, a, b, j)
  {
    var pa, pb := Padded(la, zero, Pow2(depth)), Padded(lb, zero, Pow2(depth));
    Pow2Positive(depth);
    if pa == pb {
      EqualLeafRegions(a, b, Pow2(depth));
      EqualLeavesEqualNodes(node, a, b, Pow2(depth), 0);
      assert a[0..] == a && b[0..] == b;
    }
    if a[0] == b[0] && forall j: nat {:trigger CollidesBetween(node, a, b, j)} :: !CollidesBetween(node, a, b, j) {
      EqualRootsEqualNodes(node, a, b, |a|);
      assert a[..|a|] == a && b[..|b|] == b;
      assert forall i :: 0 <= i < Pow2(depth) ==> pa[i] == LeafAt(a, i) == LeafAt(b, i) == pb[i];
      assert pa == pb;
    }
  }

  /** With an injective node hash, equal roots and equal leaf counts mean equal leaves. */
  lemma EqualRootsEqualLeaves<D(!new)>(node: (D, D) -> D, a: seq<D>, b: seq<D>, la: seq<D>, lb: seq<D>,
                                       zero: D, depth: nat)
    requires Injective(node)
    requires IsTreeOver(node, a, la, zero, depth) && IsTreeOver(node, b, lb, zero, depth)
    requires |la| == |lb| && a[0] == b[0]
    ensures la == lb
  {
    RootsBindLeaves(node, a, b, la, lb, zero, depth);
    assert Padded(la, zero, Pow2(depth))[..|la|] == la;
    assert Padded(lb, zero, Pow2(depth))[..|lb|] == lb;
  }

  // ----- The leaf count -----

  /** The padded leaves are the nodes of a tree on the level that ends before node 2^(depth + 1) - 1, in reverse. */
  ghost predicate IsLevel<D>(nodes: seq<D>, leaves: seq<D>, zero: D, depth: nat)
    requires |leaves| <= Pow2(depth) && 2 * Pow2(depth) - 1 <= |nodes|
  {
    forall i :: 0 <= i < Pow2(depth) ==> nodes[2 * Pow2(depth) - 2 - i] == Padded(leaves, zero, Pow2(depth))[i]
  }

  // A tree holds its own leaves on its last level, and so does every tree that it is the top of
  lemma TopHasLeaves<D>(node: (D, D) -> D, a: seq<D>, b: seq<D>, la: seq<D>, zero: D, depth: nat)
    requires IsTreeOver(node, a, la, zero, depth) && IsHashTree(node, b) && |a| <= |b|
    ensures IsLevel(b, la, zero, depth) <==> a == b[..|a|]
  {
    var top, width := b[..|a|], Pow2(depth);
    Pow2Positive(depth);
    assert forall i :: 0 <= i < width ==> LeafAt(a, i) == a[2 * width - 2 - i];
    if IsLevel(b, la, zero, depth) {
      TopIsHashTree(node, b, |a|);
      assert forall i :: 0 <= i < width ==> LeafAt(top, i) == b[2 * width - 2 - i];
      EqualLeafRegions(a, top, width);
      EqualLeavesEqualNodes(node, a, top, width, 0);
      assert a[0..] == a && top[0..] == top;
    }
  }

  lemma TopIsHashTree<D>(node: (D, D) -> D, b: seq<D>, n: nat)
    requires IsHashTree(node, b) && n <= |b|
    ensures IsHashTree(node, b[..n])
  {
    forall j: nat
      ensures HashedAt(node, b[..n], j)
    {
      assert HashedAt(node, b, j);
    }
  }

  /**
   * Two trees of any depths have equal roots exactly when the padded leaves of the shallower one
   * are the nodes of the deeper one on that level, unless two pairs of children collide.
   */
  lemma EqualRootsExactly<D>(node: (D, D) -> D, a: seq<D>, b: seq<D>, la: seq<D>, lb: seq<D>, zero: D,
                             d: nat, e: nat)
    requires IsTreeOver(node, a, la, zero, d) && IsTreeOver(node, b, lb, zero, e) && d <= e
    ensures |a| <= |b| && (IsLevel(b, la, zero, d) <==> a == b[..|a|])
    ensures IsLevel(b, la, zero, d) ==> a[0] == b[0]
    ensures a[0] == b[0] ==> IsLevel(b, la, zero, d) || exists j: nat :: CollidesBetween(node, a, b, j)
  {
    Pow2Monotone(d, e);
    Pow2Positive(d);
    TopHasLeaves(node, a, b, la, zero, d);
    if a[0] == b[0] && forall j: nat {:trigger CollidesBetween(node, a, b, j)} :: !CollidesBetween(node, a, b, j) {
      EqualRootsEqualNodes(node, a, b, |a|);
      assert a[..|a|] == a;
    }
  }

  /** `lb` is `la` with leaves equal to the padding added. */
  ghost predicate AddsPadding<D>(la: seq<D>, lb: seq<D>, zero: D) {
    |la| <= |lb| && lb[..|la|] == la && forall i :: |la| <= i < |lb| ==> lb[i] == zero
  }

  // At one depth the padded leaves agree exactly when the leaves differ by padding
  lemma LevelAtOneDepth<D>(node: (D, D) -> D, b: seq<D>, la: seq<D>, lb: seq<D>, zero: D, depth: nat)
    requires IsTreeOver(node, b, lb, zero, depth) && |la| <= |lb|
    ensures IsLevel(b, la, zero, depth) <==> AddsPadding(la, lb, zero)
  {
    var width := Pow2(depth);
    var pa, pb := Padded(la, zero, width), Padded(lb, zero, width);
    assert forall i :: 0 <= i < width ==> pb[i] == LeafAt(b, i) == b[2 * width - 2 - i];
    assert forall i :: 0 <= i < width ==> pa[i] == if i < |la| then la[i] else zero;
    assert forall i :: 0 <= i < width ==> pb[i] == if i < |lb| then lb[i] else zero;
    if IsLevel(b, la, zero, depth) {
      assert forall i :: 0 <= i < width ==> pa[i] == pb[i];
      assert forall i :: 0 <= i < |la| ==> la[i] == pa[i] == pb[i] == lb[i];
      assert forall i :: |la| <= i < |lb| ==> lb[i] == pb[i] == pa[i] == zero;
    }
    if AddsPadding(la, lb, zero) {
      assert forall i :: 0 <= i < |la| ==> la[i] == lb[..|la|][i] == lb[i];
      assert forall i :: 0 <= i < width ==> pa[i] == pb[i];
    }
  }

  /** The depth that building a tree over `n` leaves gives it. */
  predicate HasDepth(n: nat, depth: nat) {
    n <= Pow2(depth) && (depth > 0 ==> Pow2(depth - 1) < n)
  }

  lemma DepthMonotone(m: nat, n: nat, d: nat, e: nat)
    requires HasDepth(m, d) && HasDepth(n, e) && m <= n
    ensures d <= e
  {
    if e < d {
      Pow2Monotone(e, d - 1);
    }
  }

  /** The one condition under which a tree over more leaves can share a root without a collision. */
  ghost predicate SharesRoot<D>(b: seq<D>, la: seq<D>, lb: seq<D>, zero: D, d: nat, e: nat)
    requires |la| <= Pow2(d) && 2 * Pow2(d) - 1 <= |b|
  {
    if d == e then AddsPadding(la, lb, zero) else IsLevel(b, la, zero, d)
  }

  /**
   * Exactly when a root fails to tell a tree from one over more leaves: at one depth the
   * additional leaves equal the padding; across depths the padded leaves of the smaller tree are
   * nodes of the larger one. Otherwise equal roots exhibit a collision.
   */
  lemma LeafCountBoundExactly<D(!new)>(node: (D, D) -> D, a: seq<D>, b: seq<D>, la: seq<D>, lb: seq<D>, zero: D,
                                       d: nat, e: nat)
    requires |la| < |lb| && HasDepth(|la|, d) && HasDepth(|lb|, e)
    requires IsTreeOver(node, a, la, zero, d) && IsTreeOver(node, b, lb, zero, e)
    ensures d <= e && |a| <= |b|
    ensures SharesRoot(b, la, lb, zero, d, e) ==> a[0] == b[0]
    ensures a[0] == b[0] ==>
              SharesRoot(b, la, lb, zero, d, e) || exists j: nat :: CollidesBetween(node, a, b, j)
    ensures Injective(node) ==> (a[0] == b[0] <==> SharesRoot(b, la, lb, zero, d, e))
  {
    DepthMonotone(|la|, |lb|, d, e);
    EqualRootsExactly(node, a, b, la, lb, zero, d, e);
    if d == e {
      LevelAtOneDepth(node, b, la, lb, zero, d);
    }
  }

  /** The leaf count is not bound: a last leaf equal to the padding can be left out. */
  lemma LeafCountNotBound<D>(node: (D, D) -> D, a: seq<D>, leaves: seq<D>, zero: D, depth: nat)
    requires IsTreeOver(node, a, leaves, zero, depth) && |leaves| < Pow2(depth)
    ensures IsTreeOver(node, a, leaves + [zero], zero, depth)
  {
    assert Padded(leaves + [zero], zero, Pow2(depth)) == Padded(leaves, zero, Pow2(depth));
  }

  /** One leaf that is the hash of two others has the same root as they have. */
  lemma NodeAsLeaf<D>(node: (D, D) -> D, x: D, y: D, zero: D)
    ensures IsTreeOver(node, [node(y, x)], [node(y, x)], zero, 0)
    ensures IsTreeOver(node, [node(y, x), y, x], [x, y], zero, 1)
  {
    var t := [node(y, x), y, x];
    assert Pow2(1) == 2;
    assert LeafAt(t, 0) == x && LeafAt(t, 1) == y;
    assert Padded([x, y], zero, 2) == [x, y];
  }

  // ----- Sizes, in 8 bits -----

  method NextPowerOfTwo(n: byte) returns (p: nat, ghost k: nat)
    requires n <= 0x80
    ensures p == Pow2(k) && n <= p <= 0x80
    ensures k > 0 ==> Pow2(k - 1) < n
  {
    p, k := 1, 0;
    while p < n
      invariant p == Pow2(k) && p <= 0x80
      invariant k > 0 ==> Pow2(k - 1) < n
      decreases n - p
    {
      assert p <= 0x40 by {
        if p > 0x40 {
          SmallPowers(k);
        }
      }
      p := p * 2 % 0x100;
      k := k + 1;
    }
  }

  lemma SmallPowers(k: nat)
    ensures Pow2(0) == 1 && Pow2(1) == 2 && Pow2(2) == 4 && Pow2(3) == 8
    ensures Pow2(4) == 16 && Pow2(5) == 32 && Pow2(6) == 64 && Pow2(7) == 128 && Pow2(8) == 256
    ensures k > 8 ==> Pow2(k) > 256
  {
    assert Pow2(2) == 4;
    assert Pow2(4) == 16;
    assert Pow2(6) == 64;
    if k > 8 {
      Pow2Monotone(9, k);
    }
  }

  // The exponent of the largest power of two up to `n`
  function Log2Floor(n: nat): nat {
    if n <= 1 then 0 else Log2Floor(n / 2) + 1
  }

  lemma {:induction false} Log2FloorBounds(n: nat)
    requires n > 0
    ensures Pow2(Log2Floor(n)) <= n < 2 * Pow2(Log2Floor(n))
  {
    if n > 1 {
      Log2FloorBounds(n / 2);
    }
  }

  /** The number of levels above the leaves. */
  method Log2Ceil(n: byte) returns (d: nat)
    ensures n <= Pow2(d)
    ensures d > 0 ==> Pow2(d - 1) < n
  {
    d := 0;
    var v := n;
    while v > 1
      invariant d + Log2Floor(v) == Log2Floor(n)
    {
      v := v / 2;
      d := d + 1;
    }
    if n > 0 {
      Log2FloorBounds(n);
    }
    SmallPowers(d);
    if d > 0 {
      assert Pow2(d - 1) < n;
    }
    if Pow2(d) % 0x100 < n {
      d := d + 1;
    }
  }

  // ----- The tree -----

  class MerkleTree<D(==, !new)> {
    const node: (D, D) -> D
    const zero: D
    const maxLeaves: byte
    const nodes: array<D>
    var nodeCount: nat
    var leafCount: nat
    var depth: nat
    var built: bool
    // The leaves the tree was built over
    ghost var leaves: seq<D>

    // The array has room for the tree over the largest number of leaves
    ghost predicate Valid()
      reads this, nodes
    {
      && maxLeaves <= 0x80 && nodes.Length >= 0xFF
      && (built ==>
            && nodeCount == 2 * Pow2(depth) - 1 <= 0xFF && leafCount == |leaves| && HasDepth(leafCount, depth)
            && IsTreeOver(node, nodes[..nodeCount], leaves, zero, depth))
    }

    constructor (node: (D, D) -> D, zero: D, maxLeaves: byte)
      requires maxLeaves <= 0x80
      ensures Valid() && !built && fresh(nodes)
      ensures this.node == node && this.zero == zero && this.maxLeaves == maxLeaves
    {
      this.node, this.zero, this.maxLeaves := node, zero, maxLeaves;
      nodes := new D[0xFF](_ => zero);
      nodeCount, leafCount, depth, built := 0, 0, 0, false;
      leaves := [];
    }

    /** Returns 0, or -2 for a leaf count of zero or over the limit. */
    method Build(leaves: seq<D>) returns (status: int)
      requires Valid() && |leaves| < 0x100
      modifies this, nodes
      ensures Valid()
      ensures status == if |leaves| == 0 || |leaves| > maxLeaves then -2 else 0
      ensures status == 0 ==> built && this.leaves == leaves
      ensures status != 0 ==> unchanged(this) && unchanged(nodes)
    {
      if |leaves| == 0 || |leaves| > maxLeaves {
        return -2;
      }
      var width, k := NextPowerOfTwo(|leaves|);
      var levels := Log2Ceil(width);
      DepthOfPower(k, levels);
      depth := levels;
      leafCount := |leaves|;
      this.leaves := leaves;
      nodeCount := 2 * width - 1;
      FillNodes(Padded(leaves, zero, width));
      built := true;
      return 0;
    }

    method FillNodes(padded: seq<D>)
      requires nodeCount == 2 * |padded| - 1 <= nodes.Length && |padded| > 0
      modifies nodes
      ensures IsHashTree(node, nodes[..nodeCount])
      ensures forall i :: 0 <= i < |padded| ==> LeafAt(nodes[..nodeCount], i) == padded[i]
    {
      PlaceLeaves(padded);
      HashUp(|padded|);
    }

    // Leaf `i` goes to the `i`-th place from the end
    method PlaceLeaves(padded: seq<D>)
      requires nodeCount == 2 * |padded| - 1 <= nodes.Length && |padded| > 0
      modifies nodes
      ensures forall i :: 0 <= i < |padded| ==> LeafAt(nodes[..nodeCount], i) == padded[i]
    {
      for i := 0 to |padded|
        invariant forall k :: 0 <= k < i ==> LeafAt(nodes[..nodeCount], k) == padded[k]
      {
        nodes[nodeCount - 1 - i] := padded[i];
      }
    }

    // Fills the inner nodes from the last to the root
    method HashUp(width: nat)
      requires width > 0 && nodeCount == 2 * width - 1 <= nodes.Length
      modifies nodes
      ensures IsHashTree(node, nodes[..nodeCount])
      ensures forall i :: 0 <= i < width ==> LeafAt(nodes[..nodeCount], i) == old(LeafAt(nodes[..nodeCount], i))
    {
      var j := nodeCount - 1 - width;
      while j >= 0
        invariant -1 <= j < width - 1
        invariant forall k: nat :: j < k ==> HashedAt(node, nodes[..nodeCount], k)
        invariant forall i :: 0 <= i < width ==> LeafAt(nodes[..nodeCount], i) == old(LeafAt(nodes[..nodeCount], i))
      {
        var li, ri := 2 * j + 1, 2 * j + 2;
        ghost var before := nodes[..nodeCount];
        if li < nodeCount && ri < nodeCount {
          nodes[j] := node(nodes[li], nodes[ri]);
        }
        forall k: nat | j - 1 < k
          ensures HashedAt(node, nodes[..nodeCount], k)
        {
          if k > j {
            assert HashedAt(node, before, k);
          }
        }
        j := j - 1;
      }
    }

    /** Returns 0 with a proof, -2 before a tree is built and -3 for an index beyond the leaves. */
    method GenerateProof(leafIndex: nat) returns (status: int, proof: MerkleProof<D>)
      requires Valid()
      ensures status == if !built then -2 else if leafIndex >= leafCount then -3 else 0
      ensures status == 0 ==>
                && |proof.siblings| == depth && proof.leafIndex == leafIndex
                && proof.leafValue == leaves[leafIndex] && proof.expectedRoot == nodes[0]
                && Climb(node, proof.leafValue, proof.siblings) == proof.expectedRoot
                && Position(proof.siblings) == nodeCount - 1 - leafIndex
    {
      proof := MerkleProof([], 0, zero, zero);
      if !built {
        return -2, proof;
      }
      if leafIndex >= leafCount {
        return -3, proof;
      }
      ghost var t := nodes[..nodeCount];
      var leafValue := nodes[nodeCount - 1 - leafIndex];
      assert LeafAt(t, leafIndex) == leaves[leafIndex];
      var siblings := CollectSiblings(nodeCount - 1 - leafIndex, leafValue);
      return 0, MerkleProof(siblings, leafIndex, leafValue, nodes[0]);
    }

    // The siblings on the way from a leaf position to the root
    method CollectSiblings(start: nat, ghost leafValue: D) returns (siblings: seq<Sibling<D>>)
      requires nodeCount == 2 * Pow2(depth) - 1 <= nodes.Length && IsHashTree(node, nodes[..nodeCount])
      requires Pow2(depth) - 1 <= start < nodeCount && nodes[start] == leafValue
      ensures |siblings| == depth && Position(siblings) == start
      ensures Climb(node, leafValue, siblings) == nodes[0]
    {
      ghost var t := nodes[..nodeCount];
      var pos: nat := start;
      siblings := [];
      for level := 0 to depth
        invariant |siblings| == level
        invariant pos < nodeCount && AtLevel(pos, depth - level)
        invariant Reaches(node, t, leafValue, start, siblings, pos)
      {
        LevelUp(pos, depth - level);
        var parent: nat := (pos - 1) / 2;
        var siblingPos, isLeft;
        if pos % 2 == 1 {
          siblingPos, isLeft := pos + 1, false;
        } else {
          siblingPos, isLeft := pos - 1, true;
        }
        if siblingPos < nodeCount {
          ReachParent(node, t, leafValue, start, siblings, pos);
          siblings := siblings + [Sibling(nodes[siblingPos], isLeft)];
        }
        pos := parent;
      }
      assert pos == 0;
    }
  }

  predicate AtLevel(pos: nat, level: nat) {
    Pow2(level) - 1 <= pos <= 2 * Pow2(level) - 2
  }

  lemma LevelUp(pos: nat, level: nat)
    requires level > 0 && AtLevel(pos, level)
    ensures pos > 0 && AtLevel((pos - 1) / 2, level - 1)
    ensures pos % 2 == 1 ==> AtLevel(pos + 1, level)
  {
    Pow2Positive(level - 1);
  }

  /** The siblings collected so far lead from the leaf to node `pos`. */
  ghost predicate Reaches<D>(node: (D, D) -> D, t: seq<D>, leaf: D, start: nat, siblings: seq<Sibling<D>>, pos: nat) {
    pos < |t| && Climb(node, leaf, siblings) == t[pos] && PositionFrom(pos, siblings) == start
  }

  lemma ReachParent<D>(node: (D, D) -> D, t: seq<D>, leaf: D, start: nat, siblings: seq<Sibling<D>>, pos: nat)
    requires IsHashTree(node, t) && Reaches(node, t, leaf, start, siblings, pos)
    requires pos > 0 && (pos % 2 == 1 ==> pos + 1 < |t|)
    ensures var s := if pos % 2 == 1 then Sibling(t[pos + 1], false) else Sibling(t[pos - 1], true);
            Reaches(node, t, leaf, start, siblings + [s], (pos - 1) / 2)
  {
    var s := if pos % 2 == 1 then Sibling(t[pos + 1], false) else Sibling(t[pos - 1], true);
    var parent: nat := (pos - 1) / 2;
    assert HashedAt(node, t, parent);
    ClimbSnoc(node, leaf, siblings, s);
    PositionFromSnoc(parent, siblings, s);
  }

  lemma {:induction false} PositionFromSnoc<D>(top: nat, siblings: seq<Sibling<D>>, s: Sibling<D>)
    ensures PositionFrom(top, siblings + [s]) ==
            PositionFrom(2 * top + if s.isLeft then 2 else 1, siblings)
  {
    if siblings == [] {
      assert [s][1..] == [];
      assert [] + [s] == [s];
    } else {
      PositionFromSnoc(top, siblings[1..], s);
      assert (siblings + [s])[1..] == siblings[1..] + [s];
    }
  }

  lemma DepthOfPower(k: nat, d: nat)
    requires Pow2(k) <= Pow2(d)
    requires d > 0 ==> Pow2(d - 1) < Pow2(k)
    ensures d == k
  {
    if k < d {
      Pow2Monotone(k, d - 1);
    } else if d < k {
      Pow2Monotone(d + 1, k);
      Pow2Positive(d);
    }
  }

  /** Accepts exactly the proofs whose leaf climbs to the expected root. */
  method VerifyProof<D(==)>(node: (D, D) -> D, proof: MerkleProof<D>) returns (valid: bool)
    ensures valid <==> Climb(node, proof.leafValue, proof.siblings) == proof.expectedRoot
  {
    if |proof.siblings| == 0 {
      return proof.leafValue == proof.expectedRoot;
    }
    var current := proof.leafValue;
    for i := 0 to |proof.siblings|
      invariant Climb(node, current, proof.siblings[i..]) == Climb(node, proof.leafValue, proof.siblings)
    {
      var s := proof.siblings[i];
      assert proof.siblings[i..][1..] == proof.siblings[i + 1..];
      current := if s.isLeft then node(s.hash, current) else node(current, s.hash);
    }
    return current == proof.expectedRoot;
  }
}
