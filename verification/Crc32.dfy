/** Feeding bits into a register, whatever the register is. */
module BitFolds {

  function Fold<R>(step: (R, bool) -> R, c: R, bits: seq<bool>): R {
    if bits == [] then c else step(Fold(step, c, bits[..|bits| - 1]), bits[|bits| - 1])
  }

  lemma {:induction false} FoldJoins<R>(step: (R, bool) -> R, c: R, x: seq<bool>, y: seq<bool>)
    ensures Fold(step, c, x + y) == Fold(step, Fold(step, c, x), y)
  {
    if y == [] {
      assert x + y == x;
    } else {
      FoldJoins(step, c, x, y[..|y| - 1]);
      assert (x + y)[..|x + y| - 1] == x + y[..|y| - 1];
    }
  }

  /** When no step merges two states, equal suffixes cannot undo a difference. */
  lemma {:induction false} FoldInjective<R(!new)>(step: (R, bool) -> R, c: R, d: R, bits: seq<bool>)
    requires forall x, y, b :: step(x, b) == step(y, b) ==> x == y
    requires Fold(step, c, bits) == Fold(step, d, bits)
    ensures c == d
  {
    if bits != [] {
      FoldInjective(step, c, d, bits[..|bits| - 1]);
    }
  }

  /**
   * If different bits put two equal states at distance 0, and one more bit on each side takes
   * them from distance `m` to distance `m + 1`, then different bits leave some distance.
   */
  lemma {:induction false} FoldApart<R(!new)>(step: (R, bool) -> R, apart: (nat, R, R) -> bool,
                                              limit: nat, c: R, u: seq<bool>, v: seq<bool>)
    returns (m: nat)
    requires |u| == |v| <= limit && u != v
    requires forall x, a, b :: a != b ==> apart(0, step(x, a), step(x, b))
    requires forall k: nat, x, y, a, b :: k + 1 < limit && apart(k, x, y) ==> apart(k + 1, step(x, a), step(y, b))
    ensures m < |u| && apart(m, Fold(step, c, u), Fold(step, c, v))
  {
    var n := |u| - 1;
    if u[..n] == v[..n] {
      assert u == u[..n] + [u[n]] && v == v[..n] + [v[n]];
      m := 0;
    } else {
      var k := FoldApart(step, apart, limit, c, u[..n], v[..n]);
      m := k + 1;
    }
  }

  /** Where two bit sequences differ. */
  function Differ(u: seq<bool>, v: seq<bool>): (w: seq<bool>)
    requires |u| == |v|
    ensures |w| == |u|
  {
    seq(|u|, i requires 0 <= i < |u| => u[i] != v[i])
  }

  /** When the difference of two steps is a step of the difference, so it is for folds. */
  lemma {:induction false} FoldLinear<R(!new)>(step: (R, bool) -> R, xor: (R, R) -> R, x: R, y: R,
                                               u: seq<bool>, v: seq<bool>)
    requires forall p, q, a, b :: xor(step(p, a), step(q, b)) == step(xor(p, q), a != b)
    requires |u| == |v|
    ensures xor(Fold(step, x, u), Fold(step, y, v)) == Fold(step, xor(x, y), Differ(u, v))
  {
    if u != [] {
      var n := |u| - 1;
      FoldLinear(step, xor, x, y, u[..n], v[..n]);
      assert Differ(u, v)[..n] == Differ(u[..n], v[..n]);
    }
  }

  function Iterate<R>(f: R -> R, x: R, n: nat): R {
    if n == 0 then x else f(Iterate(f, x, n - 1))
  }

  lemma {:induction false} IterateJoins<R>(f: R -> R, x: R, m: nat, n: nat)
    ensures Iterate(f, x, m + n) == Iterate(f, Iterate(f, x, m), n)
  {
    if n > 0 {
      IterateJoins(f, x, m, n - 1);
    }
  }

  lemma {:induction false} IterateFixed<R>(f: R -> R, x: R, n: nat)
    requires f(x) == x
    ensures Iterate(f, x, n) == x
  {
    if n > 0 {
      IterateFixed(f, x, n - 1);
    }
  }

  /** The parities of `r` and its halves. */
  function LowBits<R>(half: R -> R, odd: R -> bool, r: R, n: nat): (bits: seq<bool>)
    ensures |bits| == n
  {
    if n == 0 then [] else LowBits(half, odd, r, n - 1) + [odd(Iterate(half, r, n - 1))]
  }

  // Words whose halves have equal parities have equal low bits
  lemma {:induction false} SameLowBits<R>(half: R -> R, odd: R -> bool, r: R, s: R, n: nat)
    requires forall k: nat :: k < n ==> odd(Iterate(half, r, k)) == odd(Iterate(half, s, k))
    ensures LowBits(half, odd, r, n) == LowBits(half, odd, s, n)
  {
    if n > 0 {
      SameLowBits(half, odd, r, s, n - 1);
    }
  }

  /**
   * If a step of a combined register feeds the low bit of the word and halves it, then `n`
   * steps feed the `n` low bits.
   */
  lemma {:induction false} FeedWord<R(!new)>(step: R -> R, feed: (R, bool) -> R, xor: (R, R) -> R,
                                             half: R -> R, odd: R -> bool, c: R, r: R, n: nat)
    requires forall x, y :: step(xor(x, y)) == xor(feed(x, odd(y)), half(y))
    ensures Iterate(step, xor(c, r), n) ==
            xor(Fold(feed, c, LowBits(half, odd, r, n)), Iterate(half, r, n))
  {
    if n > 0 {
      FeedWord(step, feed, xor, half, odd, c, r, n - 1);
      FoldSnoc(feed, c, LowBits(half, odd, r, n - 1), odd(Iterate(half, r, n - 1)));
    }
  }

  lemma FoldSnoc<R>(step: (R, bool) -> R, c: R, bits: seq<bool>, b: bool)
    ensures Fold(step, c, bits + [b]) == step(Fold(step, c, bits), b)
  {
    assert (bits + [b])[..|bits|] == bits;
  }

  /** A part of the word whose bits do not reach the low end is only shifted. */
  lemma {:induction false} HighPartShifts<R(!new)>(step: R -> R, xor: (R, R) -> R, half: R -> R,
                                                   odd: R -> bool, x: R, h: R, n: nat)
    requires forall a, b :: !odd(b) ==> step(xor(a, b)) == xor(step(a), half(b))
    requires forall k: nat :: k < n ==> !odd(Iterate(half, h, k))
    ensures Iterate(step, xor(x, h), n) == xor(Iterate(step, x, n), Iterate(half, h, n))
  {
    if n > 0 {
      HighPartShifts(step, xor, half, odd, x, h, n - 1);
    }
  }

  lemma {:induction false} LowBitsDetermine<R(!new)>(half: R -> R, odd: R -> bool, r: R, s: R, n: nat)
    requires forall x, y :: half(x) == half(y) && odd(x) == odd(y) ==> x == y
    requires LowBits(half, odd, r, n) == LowBits(half, odd, s, n)
    requires Iterate(half, r, n) == Iterate(half, s, n)
    ensures r == s
  {
    if n > 0 {
      var u, v := LowBits(half, odd, r, n), LowBits(half, odd, s, n);
      assert u[n - 1] == v[n - 1];
      assert u[..n - 1] == LowBits(half, odd, r, n - 1) && v[..n - 1] == LowBits(half, odd, s, n - 1);
      LowBitsDetermine(half, odd, r, s, n - 1);
    }
  }

  lemma {:induction false} IterateAlong<R>(f: R -> R, xs: seq<R>, n: nat)
    requires n < |xs|
    requires forall k :: 0 < k < |xs| ==> xs[k] == f(xs[k - 1])
    ensures Iterate(f, xs[0], n) == xs[n]
  {
    if n > 0 {
      IterateAlong(f, xs, n - 1);
    }
  }

  lemma IterateChain<R>(f: R -> R, xs: seq<R>)
    requires |xs| == 9
    requires xs[1] == f(xs[0]) && xs[2] == f(xs[1]) && xs[3] == f(xs[2]) && xs[4] == f(xs[3])
    requires xs[5] == f(xs[4]) && xs[6] == f(xs[5]) && xs[7] == f(xs[6]) && xs[8] == f(xs[7])
    ensures forall n: nat :: n < 9 ==> Iterate(f, xs[0], n) == xs[n]
  {
    forall n: nat | n < 9
      ensures Iterate(f, xs[0], n) == xs[n]
    {
      IterateAlong(f, xs, n);
    }
  }

  /** The bits of all the bytes of a message in turn. */
  function Flatten<B>(bits: B -> seq<bool>, data: seq<B>): seq<bool> {
    if data == [] then [] else Flatten(bits, data[..|data| - 1]) + bits(data[|data| - 1])
  }

  lemma {:induction false} FlattenJoins<B>(bits: B -> seq<bool>, a: seq<B>, b: seq<B>)
    ensures Flatten(bits, a + b) == Flatten(bits, a) + Flatten(bits, b)
  {
    if b == [] {
      assert a + b == a;
    } else {
      FlattenJoins(bits, a, b[..|b| - 1]);
      assert (a + b)[..|a + b| - 1] == a + b[..|b| - 1];
    }
  }

  lemma {:induction false} FlattenLength<B(!new)>(bits: B -> seq<bool>, data: seq<B>)
    requires forall b :: |bits(b)| == 8
    ensures |Flatten(bits, data)| == 8 * |data|
  {
    if data != [] {
      FlattenLength(bits, data[..|data| - 1]);
    }
  }

  lemma {:induction false} FlattenInjective<B(!new)>(bits: B -> seq<bool>, a: seq<B>, b: seq<B>)
    requires forall x, y :: bits(x) == bits(y) ==> x == y
    requires forall x :: |bits(x)| == 8
    requires |a| == |b| && Flatten(bits, a) == Flatten(bits, b)
    ensures a == b
  {
    if a != [] {
      var n := |a| - 1;
      FlattenLength(bits, a[..n]);
      FlattenLength(bits, b[..n]);
      var u, v := Flatten(bits, a), Flatten(bits, b);
      assert u[..8 * n] == Flatten(bits, a[..n]) && v[..8 * n] == Flatten(bits, b[..n]);
      assert u[8 * n..] == bits(a[n]) && v[8 * n..] == bits(b[n]);
      FlattenInjective(bits, a[..n], b[..n]);
      assert a == a[..n] + [a[n]] && b == b[..n] + [b[n]];
    }
  }
}

/**
 * CRC-32 with the reflected polynomial 0xEDB88320: a table-driven update, what it computes bit
 * by bit, and the burst errors it detects.
 */
module Crc32 {
  import opened BitFolds

  const CRC32_POLYNOMIAL: bv32 := 0xEDB88320
  const CRC32_INITIAL: bv32 := 0xFFFFFFFF
  const CRC32_FINAL_XOR: bv32 := 0xFFFFFFFF

  // ----- The bit-serial register -----

  /** One shift of the register. */
  function Step(c: bv32): bv32 {
    if c & 1 == 1 then (c >> 1) ^ CRC32_POLYNOMIAL else c >> 1
  }

  function Xor(a: bv32, b: bv32): bv32 {
    a ^ b
  }

  function Half(r: bv32): bv32 {
    r >> 1
  }

  predicate Odd(r: bv32) {
    r & 1 == 1
  }

  function FeedBit(c: bv32, b: bool): bv32 {
    if b then Step(c ^ 1) else Step(c)
  }

  /** Feeding bits one at a time into the register `c`. */
  function FeedBits(c: bv32, bits: seq<bool>): bv32 {
    Fold(FeedBit, c, bits)
  }

  function ByteBits(b: bv8): (bits: seq<bool>)
    ensures |bits| == 8
  {
    LowBits(Half, Odd, b as bv32, 8)
  }

  /** The bits of a message, least significant bit of each byte first. */
  function BitsOf(data: seq<bv8>): seq<bool> {
    Flatten(ByteBits, data)
  }

  /** The checksum, defined bit by bit. */
  function Crc(data: seq<bv8>): bv32 {
    Xor(FeedBits(CRC32_INITIAL, BitsOf(data)), CRC32_FINAL_XOR)
  }

  // ----- The step is linear and one-to-one -----

  // A register combined with the polynomial, if the bit that leaves or enters it is set
  function Fed(s: bv32, b: bool): bv32 {
    if b then s ^ CRC32_POLYNOMIAL else s
  }

  lemma FedMoves(s: bv32, t: bv32, b: bool)
    ensures Xor(s, Fed(t, b)) == Xor(Fed(s, b), t)
  {
  }

  lemma FedOutside(s: bv32, t: bv32, b: bool)
    ensures Xor(Fed(s, b), t) == Fed(Xor(s, t), b)
  {
  }

  lemma FedTwice(s: bv32, a: bool, b: bool)
    ensures Fed(Fed(s, a), b) == Fed(s, a != b)
  {
  }

  lemma FedDifference(s: bv32, t: bv32, a: bool, b: bool)
    ensures Xor(Fed(s, a), Fed(t, b)) == Fed(Xor(s, t), a != b)
  {
    FedMoves(Fed(s, a), t, b);
    FedTwice(s, a, b);
    FedOutside(s, t, a != b);
  }

  lemma StepIsFed(r: bv32)
    ensures Step(r) == Fed(Half(r), Odd(r))
  {
  }

  lemma XorHalves(a: bv32, b: bv32)
    ensures Half(Xor(a, b)) == Xor(Half(a), Half(b))
  {
  }

  lemma XorOdd(a: bv32, b: bv32)
    ensures Odd(Xor(a, b)) <==> Odd(a) != Odd(b)
  {
  }

  lemma StepLinear(a: bv32, b: bv32)
    ensures Step(Xor(a, b)) == Xor(Step(a), Step(b))
  {
    StepIsFed(a);
    StepIsFed(b);
    StepIsFed(Xor(a, b));
    XorHalves(a, b);
    XorOdd(a, b);
    FedDifference(Half(a), Half(b), Odd(a), Odd(b));
  }

  lemma XorParts(a: bv32, b: bv32)
    ensures (a ^ b) & 1 == (a & 1) ^ (b & 1)
    ensures (a ^ b) >> 1 == (a >> 1) ^ (b >> 1)
    ensures a & 1 == 0 || a & 1 == 1
  {
  }

  lemma BitsRegroup(a: bv32, b: bv32, p: bv32)
    ensures (a ^ p) ^ b == (a ^ b) ^ p && a ^ (b ^ p) == (a ^ b) ^ p && (a ^ p) ^ (b ^ p) == a ^ b
  {
  }

  lemma StepInjective(a: bv32, b: bv32)
    requires Step(a) == Step(b)
    ensures a == b
  {
  }

  lemma FeedBitInjective(c: bv32, d: bv32, b: bool)
    requires FeedBit(c, b) == FeedBit(d, b)
    ensures c == d
  {
    if b {
      StepInjective(c ^ 1, d ^ 1);
      XorCancel(c, d, 1);
    } else {
      StepInjective(c, d);
    }
  }

  /** Equal suffixes cannot undo a difference. */
  lemma FeedBitsInjective(c: bv32, d: bv32, bits: seq<bool>)
    requires FeedBits(c, bits) == FeedBits(d, bits)
    ensures c == d
  {
    forall x, y, b | FeedBit(x, b) == FeedBit(y, b)
      ensures x == y
    {
      FeedBitInjective(x, y, b);
    }
    FoldInjective(FeedBit, c, d, bits);
  }

  lemma XorCancel(x: bv32, y: bv32, v: bv32)
    ensures x ^ v == y ^ v ==> x == y
    ensures x ^ y == 0 <==> x == y
  {
  }

  // ----- Bursts -----

  // 2^(31 - m)
  function Threshold(m: nat): bv32
    requires m < 32
  {
    (0x8000_0000 as bv32) >> m
  }

  lemma ThresholdHalves(m: nat)
    requires m < 31
    ensures Threshold(m) & 1 == 0 && Threshold(m) >> 1 == Threshold(m + 1)
  {
  }

  lemma ThresholdRange(m: nat)
    requires m < 32
    ensures 0 < Threshold(m) <= 0x8000_0000
  {
  }

  predicate AtLeast(d: bv32, t: bv32) {
    d >= t
  }

  /** The two registers differ in a bit among the `m + 1` highest. */
  predicate Apart(m: nat, x: bv32, y: bv32) {
    m < 32 && AtLeast(Xor(x, y), Threshold(m))
  }

  lemma StepOfFlipped(c: bv32)
    ensures Step(c ^ 1) == Step(c) ^ CRC32_POLYNOMIAL
  {
    XorParts(c, 1);
    BitsRegroup(c >> 1, 0, CRC32_POLYNOMIAL);
    if c & 1 == 1 {
      assert (c ^ 1) & 1 == 0 && (c ^ 1) >> 1 == c >> 1;
    } else {
      assert (c ^ 1) & 1 == 1 && (c ^ 1) >> 1 == c >> 1;
    }
  }

  lemma FeedBitIsStep(c: bv32, b: bool)
    ensures FeedBit(c, b) == Fed(Step(c), b)
  {
    if b {
      StepOfFlipped(c);
    }
  }

  /** The difference of two registers is itself a register, fed with the difference of the bits. */
  lemma FeedDifference(x: bv32, y: bv32, a: bool, b: bool)
    ensures Xor(FeedBit(x, a), FeedBit(y, b)) == FeedBit(Xor(x, y), a != b)
  {
    FeedBitIsStep(x, a);
    FeedBitIsStep(y, b);
    FeedBitIsStep(Xor(x, y), a != b);
    StepLinear(x, y);
    FedDifference(Step(x), Step(y), a, b);
  }

  lemma ApartAtFirst(x: bv32, a: bool, b: bool)
    requires a != b
    ensures Apart(0, FeedBit(x, a), FeedBit(x, b))
  {
    FeedDifference(x, x, a, b);
    FirstDifference(x);
  }

  lemma FirstDifference(x: bv32)
    ensures AtLeast(FeedBit(Xor(x, x), true), Threshold(0))
  {
  }

  // The polynomial has its highest bit set, and a shifted register has not
  lemma HalfAbove(d: bv32, t: bv32)
    requires t & 1 == 0 && AtLeast(d, t) && t <= 0x8000_0000
    ensures AtLeast(d >> 1, t >> 1) && AtLeast((d >> 1) ^ CRC32_POLYNOMIAL, t >> 1)
  {
  }

  lemma FeedBitCases(d: bv32, e: bool)
    ensures FeedBit(d, e) == d >> 1 || FeedBit(d, e) == (d >> 1) ^ CRC32_POLYNOMIAL
  {
    FeedBitIsStep(d, e);
    BitsRegroup(d >> 1, 0, CRC32_POLYNOMIAL);
    XorCancel(d >> 1, 0, 0);
  }

  // A difference of at least an even threshold stays above half of it, whatever bit comes next
  lemma DifferenceStays(d: bv32, e: bool, t: bv32)
    requires t & 1 == 0 && AtLeast(d, t) && t <= 0x8000_0000
    ensures AtLeast(FeedBit(d, e), t >> 1)
  {
    HalfAbove(d, t);
    FeedBitCases(d, e);
  }

  lemma ApartStays(m: nat, x: bv32, y: bv32, a: bool, b: bool)
    requires m < 31 && Apart(m, x, y)
    ensures Apart(m + 1, FeedBit(x, a), FeedBit(y, b))
  {
    FeedDifference(x, y, a, b);
    ThresholdHalves(m);
    ThresholdRange(m);
    DifferenceStays(Xor(x, y), a != b, Threshold(m));
  }

  lemma ApartDiffer(m: nat, x: bv32, y: bv32)
    requires Apart(m, x, y)
    ensures x != y
  {
    ThresholdRange(m);
    XorCancel(x, y, 0);
  }

  /** Two different sequences of up to 32 bits take a register to different values. */
  lemma BurstDiffers(c: bv32, u: seq<bool>, v: seq<bool>)
    requires |u| == |v| <= 32 && u != v
    ensures FeedBits(c, u) != FeedBits(c, v)
  {
    forall x, a, b | a != b
      ensures Apart(0, FeedBit(x, a), FeedBit(x, b))
    {
      ApartAtFirst(x, a, b);
    }
    forall k: nat, x, y, a, b | k + 1 < 32 && Apart(k, x, y)
      ensures Apart(k + 1, FeedBit(x, a), FeedBit(y, b))
    {
      ApartStays(k, x, y, a, b);
    }
    var m := FoldApart(FeedBit, Apart, 32, c, u, v);
    ApartDiffer(m, FeedBits(c, u), FeedBits(c, v));
  }

  lemma HalvesDetermine(x: bv32, y: bv32)
    requires Half(x) == Half(y) && Odd(x) == Odd(y)
    ensures x == y
  {
  }

  lemma HalfOfShift(r: bv32)
    ensures Half(r) == r >> 1 && Half(r >> 1) == r >> 2 && Half(r >> 2) == r >> 3 && Half(r >> 3) == r >> 4
    ensures Half(r >> 4) == r >> 5 && Half(r >> 5) == r >> 6 && Half(r >> 6) == r >> 7 && Half(r >> 7) == r >> 8
  {
  }

  lemma HalvesOf(r: bv32)
    ensures Iterate(Half, r, 0) == r && Iterate(Half, r, 1) == r >> 1
    ensures Iterate(Half, r, 2) == r >> 2 && Iterate(Half, r, 3) == r >> 3
    ensures Iterate(Half, r, 4) == r >> 4 && Iterate(Half, r, 5) == r >> 5
    ensures Iterate(Half, r, 6) == r >> 6 && Iterate(Half, r, 7) == r >> 7
    ensures Iterate(Half, r, 8) == r >> 8
  {
    HalfOfShift(r);
    IterateChain(Half, [r, r >> 1, r >> 2, r >> 3, r >> 4, r >> 5, r >> 6, r >> 7, r >> 8]);
  }

  lemma ByteFits(b: bv8)
    ensures (b as bv32) >> 8 == 0 && (b as bv32) as bv8 == b
  {
  }

  lemma ByteBitsInjective(a: bv8, b: bv8)
    requires ByteBits(a) == ByteBits(b)
    ensures a == b
  {
    forall x, y | Half(x) == Half(y) && Odd(x) == Odd(y)
      ensures x == y
    {
      HalvesDetermine(x, y);
    }
    ByteFits(a);
    ByteFits(b);
    HalvesOf(a as bv32);
    HalvesOf(b as bv32);
    LowBitsDetermine(Half, Odd, a as bv32, b as bv32, 8);
  }

  lemma BitsOfInjective(a: seq<bv8>, b: seq<bv8>)
    requires |a| == |b|
    ensures |BitsOf(a)| == |BitsOf(b)| == 8 * |a|
    ensures BitsOf(a) == BitsOf(b) ==> a == b
  {
    FlattenLength(ByteBits, a);
    FlattenLength(ByteBits, b);
    forall x, y | ByteBits(x) == ByteBits(y)
      ensures x == y
    {
      ByteBitsInjective(x, y);
    }
    if BitsOf(a) == BitsOf(b) {
      FlattenInjective(ByteBits, a, b);
    }
  }

  /** Different messages that agree outside a window of 32 consecutive bits differ in their CRC. */
  lemma BurstDetected(a: seq<bv8>, b: seq<bv8>, start: nat)
    requires |a| == |b| && a != b
    requires |BitsOf(a)| == |BitsOf(b)|
    requires forall k :: 0 <= k < |BitsOf(a)| && !(start <= k < start + 32) ==> BitsOf(a)[k] == BitsOf(b)[k]
    ensures Crc(a) != Crc(b)
  {
    var x, y := BitsOf(a), BitsOf(b);
    BitsOfInjective(a, b);
    var s := if start < |x| then start else |x|;
    var e := if start + 32 < |x| then start + 32 else |x|;
    WindowDifference(CRC32_INITIAL, x, y, s, e);
    XorCancel(FeedBits(CRC32_INITIAL, x), FeedBits(CRC32_INITIAL, y), CRC32_FINAL_XOR);
  }

  lemma WindowDifference(c: bv32, x: seq<bool>, y: seq<bool>, s: nat, e: nat)
    requires |x| == |y| && x != y && s <= e <= |x| && e <= s + 32
    requires x[..s] == y[..s] && x[e..] == y[e..]
    ensures FeedBits(c, x) != FeedBits(c, y)
  {
    assert x == x[..s] + x[s..e] + x[e..] && y == y[..s] + y[s..e] + y[e..];
    WindowDecides(c, x, y, s, e);
    BurstDiffers(FeedBits(c, x[..s]), x[s..e], y[s..e]);
  }

  // Equal bits before and after a window leave the decision to the window
  lemma WindowDecides(c: bv32, x: seq<bool>, y: seq<bool>, s: nat, e: nat)
    requires |x| == |y| && s <= e <= |x|
    requires x[..s] == y[..s] && x[e..] == y[e..]
    ensures var before := FeedBits(c, x[..s]);
            FeedBits(c, x) == FeedBits(c, y) <==> FeedBits(before, x[s..e]) == FeedBits(before, y[s..e])
  {
    assert x == x[..s] + x[s..e] + x[e..] && y == y[..s] + y[s..e] + y[e..];
    FoldJoins(FeedBit, c, x[..s] + x[s..e], x[e..]);
    FoldJoins(FeedBit, c, x[..s], x[s..e]);
    FoldJoins(FeedBit, c, y[..s] + y[s..e], y[e..]);
    FoldJoins(FeedBit, c, y[..s], y[s..e]);
    var before := FeedBits(c, x[..s]);
    var u, v := FeedBits(before, x[s..e]), FeedBits(before, y[s..e]);
    if FeedBits(u, x[e..]) == FeedBits(v, x[e..]) {
      FeedBitsInjective(u, v, x[e..]);
    }
  }

  // ----- The table -----

  /** What the table holds at index `i`. */
  function TableEntry(i: nat): bv32
    requires i < 256
  {
    Iterate(Step, i as bv32, 8)
  }

  // A bit fed into the register is the low bit of the word combined with it
  lemma FeedOne(c: bv32, r: bv32)
    ensures Step(Xor(c, r)) == Xor(FeedBit(c, Odd(r)), Half(r))
  {
    StepLinear(c, r);
    FeedBitIsStep(c, Odd(r));
    StepIsFed(r);
    FedMoves(Step(c), Half(r), Odd(r));
  }

  lemma XorZero(x: bv32)
    ensures Xor(x, 0) == x
  {
  }

  /** Combining a byte with the register and shifting eight times feeds the byte's bits. */
  lemma ByteStep(c: bv32, b: bv8)
    ensures FeedBits(c, ByteBits(b)) == Iterate(Step, Xor(c, b as bv32), 8)
  {
    forall x, y
      ensures Step(Xor(x, y)) == Xor(FeedBit(x, Odd(y)), Half(y))
    {
      FeedOne(x, y);
    }
    var r := b as bv32;
    FeedWord(Step, FeedBit, Xor, Half, Odd, c, r, 8);
    HalvesOf(r);
    ByteFits(b);
    XorZero(FeedBits(c, ByteBits(b)));
  }

  lemma HighPart(c: bv32)
    ensures Xor(c & 0xFF, c & 0xFFFF_FF00) == c
    ensures var h := c & 0xFFFF_FF00;
            && h & 1 == 0 && (h >> 1) & 1 == 0 && (h >> 2) & 1 == 0 && (h >> 3) & 1 == 0
            && (h >> 4) & 1 == 0 && (h >> 5) & 1 == 0 && (h >> 6) & 1 == 0 && (h >> 7) & 1 == 0
            && h >> 8 == c >> 8
  {
  }

  lemma HighHalves(c: bv32, h: bv32)
    requires h == c & 0xFFFF_FF00
    ensures forall k: nat :: k < 8 ==> !Odd(Iterate(Half, h, k))
    ensures Iterate(Half, h, 8) == c >> 8
  {
    HighPart(c);
    HalvesOf(h);
  }

  lemma SmallWord(y: bv32)
    requires y <= 0xFF
    ensures y as int < 256
  {
  }

  lemma WordRoundTrip(y: bv32)
    ensures (y as int) as bv32 == y
  {
  }

  /** Eight shifts are those of the low byte, combined with the other bytes moved down. */
  lemma SplitSteps(c: bv32)
    ensures Iterate(Step, c, 8) == Xor(Iterate(Step, c & 0xFF, 8), c >> 8)
  {
    forall a, b | !Odd(b)
      ensures Step(Xor(a, b)) == Xor(Step(a), Half(b))
    {
      FeedOne(a, b);
    }
    HighPart(c);
    HighHalves(c, c & 0xFFFF_FF00);
    HighPartShifts(Step, Xor, Half, Odd, c & 0xFF, c & 0xFFFF_FF00, 8);
  }

  lemma ByteAboveLow(c: bv32, b: bv8)
    ensures Xor(c, b as bv32) >> 8 == c >> 8
  {
  }

  lemma OneByte(b: bv8)
    ensures BitsOf([b]) == ByteBits(b)
  {
    assert Flatten(ByteBits, []) == [];
  }

  lemma EntrySteps(i: int, y: bv32)
    requires y <= 0xFF && i == y as int
    ensures 0 <= i < 256 && TableEntry(i) == Iterate(Step, y, 8)
  {
    SmallWord(y);
    WordRoundTrip(y);
  }

  /** The table-driven update of one byte feeds its eight bits. */
  lemma TableStep(c: bv32, b: bv8, i: int)
    requires i == (Xor(c, b as bv32) & 0xFF) as int
    ensures 0 <= i < 256
    ensures Xor(TableEntry(i), c >> 8) == FeedBits(c, BitsOf([b]))
  {
    OneByte(b);
    var x := Xor(c, b as bv32);
    EntrySteps(i, x & 0xFF);
    SplitSteps(x);
    ByteAboveLow(c, b);
    ByteStep(c, b);
  }

  // ----- Windows of 33 bits -----

  /** A set bit and then the polynomial, lowest bit first. */
  function Pattern(): (w: seq<bool>)
    ensures |w| == 33
  {
    [true] + LowBits(Half, Odd, CRC32_POLYNOMIAL, 32)
  }

  lemma Zeros()
    ensures Step(0) == 0 && Half(0) == 0 && FeedBit(0, true) == CRC32_POLYNOMIAL
  {
  }

  lemma HalvesOfAll(r: bv32)
    ensures Iterate(Half, r, 32) == 0
  {
    IterateJoins(Half, r, 8, 24);
    IterateJoins(Half, r >> 8, 8, 16);
    IterateJoins(Half, r >> 8 >> 8, 8, 8);
    HalvesOf(r);
    HalvesOf(r >> 8);
    HalvesOf(r >> 8 >> 8);
    HalvesOf(r >> 8 >> 8 >> 8);
  }

  /** A register that is fed its own bits ends at zero. */
  lemma FeedOwnBits(r: bv32)
    ensures FeedBits(r, LowBits(Half, Odd, r, 32)) == 0
  {
    forall x, y
      ensures Step(Xor(x, y)) == Xor(FeedBit(x, Odd(y)), Half(y))
    {
      FeedOne(x, y);
    }
    FeedWord(Step, FeedBit, Xor, Half, Odd, r, r, 32);
    HalvesOfAll(r);
    XorSame(r);
    Zeros();
    IterateFixed(Step, 0, 32);
    XorZero(FeedBits(r, LowBits(Half, Odd, r, 32)));
  }

  lemma XorInjective(x: bv32, y: bv32, v: bv32)
    ensures Xor(x, v) == Xor(y, v) ==> x == y
  {
  }

  lemma XorSame(x: bv32)
    ensures Xor(x, x) == 0
  {
  }

  lemma DifferenceOfFeeds(c: bv32, u: seq<bool>, v: seq<bool>)
    requires |u| == |v|
    ensures FeedBits(c, u) == FeedBits(c, v) <==> FeedBits(0, Differ(u, v)) == 0
  {
    forall p, q, a, b
      ensures Xor(FeedBit(p, a), FeedBit(q, b)) == FeedBit(Xor(p, q), a != b)
    {
      FeedDifference(p, q, a, b);
    }
    FoldLinear(FeedBit, Xor, c, c, u, v);
    XorSame(c);
    XorIsZero(FeedBits(c, u), FeedBits(c, v));
  }

  lemma XorIsZero(x: bv32, y: bv32)
    ensures Xor(x, y) == 0 <==> x == y
  {
    XorCancel(x, y, 0);
  }

  // After a set bit, 32 more take the register from zero back to zero only if they are the polynomial's
  lemma BackToZero(w: seq<bool>)
    requires |w| == 33 && w[0]
    ensures FeedBits(0, w) == 0 <==> w == Pattern()
  {
    var p, rest := CRC32_POLYNOMIAL, w[1..];
    var own := LowBits(Half, Odd, p, 32);
    Zeros();
    assert w == [true] + rest;
    FoldJoins(FeedBit, 0, [true], rest);
    FoldSnoc(FeedBit, 0, [], true);
    assert [] + [true] == [true];
    FeedOwnBits(p);
    if rest != own {
      BurstDiffers(p, rest, own);
      assert w[1..] == rest && Pattern()[1..] == own;
    }
  }

  /** Two different sequences of 33 bits are told apart unless they differ by the pattern. */
  lemma PatternCollides(c: bv32, u: seq<bool>, v: seq<bool>)
    requires |u| == |v| == 33 && u != v
    ensures FeedBits(c, u) == FeedBits(c, v) <==> Differ(u, v) == Pattern()
  {
    if u[0] == v[0] {
      assert u == [u[0]] + u[1..] && v == [u[0]] + v[1..];
      assert !Differ(u, v)[0];
      FoldJoins(FeedBit, c, [u[0]], u[1..]);
      FoldJoins(FeedBit, c, [u[0]], v[1..]);
      BurstDiffers(FeedBits(c, [u[0]]), u[1..], v[1..]);
    } else {
      DifferenceOfFeeds(c, u, v);
      BackToZero(Differ(u, v));
    }
  }

  /**
   * Different messages that agree outside a window of 33 bits have one CRC exactly when they
   * differ in it by the pattern, so that no longer window than 32 bits would do.
   */
  lemma BurstOf33(a: seq<bv8>, b: seq<bv8>, start: nat)
    requires |a| == |b| && a != b
    requires |BitsOf(a)| == |BitsOf(b)| && start + 33 <= |BitsOf(a)|
    requires forall k :: 0 <= k < |BitsOf(a)| && !(start <= k < start + 33) ==> BitsOf(a)[k] == BitsOf(b)[k]
    ensures Crc(a) == Crc(b) <==>
            Differ(BitsOf(a)[start..start + 33], BitsOf(b)[start..start + 33]) == Pattern()
  {
    var x, y := BitsOf(a), BitsOf(b);
    BitsOfInjective(a, b);
    WindowOf33(CRC32_INITIAL, x, y, start);
    EqualCrcs(a, b);
  }

  lemma EqualCrcs(a: seq<bv8>, b: seq<bv8>)
    ensures Crc(a) == Crc(b) <==> FeedBits(CRC32_INITIAL, BitsOf(a)) == FeedBits(CRC32_INITIAL, BitsOf(b))
  {
    XorInjective(FeedBits(CRC32_INITIAL, BitsOf(a)), FeedBits(CRC32_INITIAL, BitsOf(b)), CRC32_FINAL_XOR);
  }

  lemma WindowOf33(c: bv32, x: seq<bool>, y: seq<bool>, s: nat)
    requires |x| == |y| && x != y && s + 33 <= |x|
    requires forall k :: 0 <= k < |x| && !(s <= k < s + 33) ==> x[k] == y[k]
    ensures FeedBits(c, x) == FeedBits(c, y) <==> Differ(x[s..s + 33], y[s..s + 33]) == Pattern()
  {
    var e := s + 33;
    assert x == x[..s] + x[s..e] + x[e..] && y == y[..s] + y[s..e] + y[e..];
    WindowDecides(c, x, y, s, e);
    PatternCollides(FeedBits(c, x[..s]), x[s..e], y[s..e]);
  }

  // The registers after each byte
  predicate Passes(data: seq<bv8>, registers: seq<bv32>) {
    && |registers| == |data| + 1 && registers[0] == CRC32_INITIAL
    && forall k :: 0 <= k < |data| ==> ByteTakes(registers[k], data[k], registers[k + 1])
  }

  predicate ByteTakes(c: bv32, b: bv8, d: bv32) {
    Iterate(Step, Xor(c, b as bv32), 8) == d
  }

  lemma {:induction false} PassesFeeds(data: seq<bv8>, registers: seq<bv32>)
    requires Passes(data, registers)
    ensures FeedBits(CRC32_INITIAL, BitsOf(data)) == registers[|data|]
    decreases |data|
  {
    if data == [] {
      assert BitsOf(data) == [];
    } else {
      var n := |data| - 1;
      PassesFeeds(data[..n], registers[..n + 1]);
      assert data == data[..n] + [data[n]];
      UpdatesJoin(CRC32_INITIAL, data[..n], [data[n]]);
      OneByte(data[n]);
      ByteStep(registers[n], data[n]);
      assert ByteTakes(registers[n], data[n], registers[n + 1]);
    }
  }

  /** Five bytes that have the CRC of five zeros. */
  lemma UndetectedBurst() returns (a: seq<bv8>, b: seq<bv8>)
    ensures a == [0x41, 0x06, 0x71, 0xDB, 0x01] && b == [0, 0, 0, 0, 0]
    ensures Crc(a) == Crc(b)
  {
    a, b := [0x41, 0x06, 0x71, 0xDB, 0x01], [0, 0, 0, 0, 0];
    var c := [0xFFFFFFFF, 0x2C266174, 0xBE273671, 0x00BE2736, 0xDEBB20E2, 0x39DD08E2];
    var d := [0xFFFFFFFF, 0x2DFD1072, 0xBE26ED00, 0x00BE26ED, 0xDEBB20E3, 0x39DD08E2];
    assert Passes(a, c);
    assert Passes(b, d);
    PassesFeeds(a, c);
    PassesFeeds(b, d);
  }

  // ----- The final exclusive or -----

  lemma DigitsPass() returns (digits: seq<bv8>, registers: seq<bv32>)
    ensures digits == [0x31, 0x32, 0x33, 0x34, 0x35, 0x36, 0x37, 0x38, 0x39]
    ensures Passes(digits, registers) && registers[9] == 0x340B_C6D9
  {
    digits := [0x31, 0x32, 0x33, 0x34, 0x35, 0x36, 0x37, 0x38, 0x39];
    registers := [
      0xFFFFFFFF, 0x7C231048, 0xB0ACBB32, 0x77B79C2D, 0x641C1F5C,
      0x340AC5E3, 0xF68D2C9E, 0xAFFC9660, 0x651F2550, 0x340BC6D9
    ];
  }

  lemma DigitsFinal()
    ensures Xor(0x340B_C6D9, CRC32_FINAL_XOR) == 0xCBF4_3926
  {
  }

  /** The checksum of the digits 1 to 9. */
  lemma CheckValue() returns (digits: seq<bv8>)
    ensures digits == [0x31, 0x32, 0x33, 0x34, 0x35, 0x36, 0x37, 0x38, 0x39]
    ensures Crc(digits) == 0xCBF4_3926
  {
    var registers;
    digits, registers := DigitsPass();
    PassesFeeds(digits, registers);
    DigitsFinal();
  }

  /** The four bytes of a checksum, lowest first. */
  function CrcBytes(w: bv32): seq<bv8> {
    [LowByte(w), LowByte(Rest(w)), LowByte(Rest(Rest(w))), LowByte(Rest(Rest(Rest(w))))]
  }

  function Rest(w: bv32): bv32 {
    w >> 8
  }

  function LowByte(w: bv32): bv8 {
    (w & 0xFF) as bv8
  }

  lemma LowByteFits(w: bv32)
    ensures LowByte(w) as bv32 == w & 0xFF
  {
  }

  lemma LowByteBits(w: bv32, y: bv32)
    requires y == w & 0xFF
    ensures Odd(y) == Odd(w) && Odd(y >> 1) == Odd(w >> 1) && Odd(y >> 2) == Odd(w >> 2) && Odd(y >> 3) == Odd(w >> 3)
    ensures Odd(y >> 4) == Odd(w >> 4) && Odd(y >> 5) == Odd(w >> 5) && Odd(y >> 6) == Odd(w >> 6)
    ensures Odd(y >> 7) == Odd(w >> 7)
  {
  }

  lemma LowByteParities(w: bv32, y: bv32, k: nat)
    requires y == w & 0xFF && k < 8
    ensures Odd(Iterate(Half, w, k)) == Odd(Iterate(Half, y, k))
  {
    LowByteBits(w, y);
    HalvesOf(w);
    HalvesOf(y);
    if k < 4 {
      assert k == 0 || k == 1 || k == 2 || k == 3;
    } else {
      assert k == 4 || k == 5 || k == 6 || k == 7;
    }
  }

  /** The low byte of a word, and the word without it. */
  predicate TakesOff(w: bv32, b: bv8, next: bv32) {
    b == LowByte(w) && next == w >> 8
  }

  lemma LowBitsOfByte(w: bv32, b: bv8, next: bv32)
    requires TakesOff(w, b, next)
    ensures LowBits(Half, Odd, w, 8) == ByteBits(b) && Iterate(Half, w, 8) == next
  {
    LowByteFits(w);
    HalvesOf(w);
    forall k: nat | k < 8
      ensures Odd(Iterate(Half, w, k)) == Odd(Iterate(Half, w & 0xFF, k))
    {
      LowByteParities(w, w & 0xFF, k);
    }
    SameLowBits(Half, Odd, w, w & 0xFF, 8);
  }

  // Feeding the low byte of a word leaves the other bytes to be fed
  lemma FeedLowByte(c: bv32, w: bv32, b: bv8, next: bv32)
    requires TakesOff(w, b, next)
    ensures Xor(FeedBits(c, ByteBits(b)), next) == Iterate(Step, Xor(c, w), 8)
  {
    forall x, y
      ensures Step(Xor(x, y)) == Xor(FeedBit(x, Odd(y)), Half(y))
    {
      FeedOne(x, y);
    }
    FeedWord(Step, FeedBit, Xor, Half, Odd, c, w, 8);
    LowBitsOfByte(w, b, next);
  }

  lemma TakesOffLow(w: bv32)
    ensures TakesOff(w, LowByte(w), Rest(w))
  {
  }

  lemma NothingLeft(w: bv32)
    ensures Rest(Rest(Rest(Rest(w)))) == 0
  {
  }

  lemma BytesTakenOff(w: bv32, t: seq<bv8>, w1: bv32, w2: bv32, w3: bv32, w4: bv32)
    requires |t| == 4 && w1 == Rest(w) && w2 == Rest(w1) && w3 == Rest(w2) && w4 == Rest(w3)
    requires t[0] == LowByte(w) && t[1] == LowByte(w1) && t[2] == LowByte(w2) && t[3] == LowByte(w3)
    ensures TakesOff(w, t[0], w1) && TakesOff(w1, t[1], w2) && TakesOff(w2, t[2], w3) && TakesOff(w3, t[3], w4)
  {
    TakesOffLow(w);
    TakesOffLow(w1);
    TakesOffLow(w2);
    TakesOffLow(w3);
  }

  /** Feeding the four bytes of a word shifts the register combined with it 32 times. */
  lemma FeedFourBytes(c: bv32, w: bv32)
    ensures FeedBits(c, BitsOf(CrcBytes(w))) ==
            Iterate(Step, Iterate(Step, Iterate(Step, Iterate(Step, Xor(c, w), 8), 8), 8), 8)
  {
    var w1 := Rest(w);
    var w2 := Rest(w1);
    var w3 := Rest(w2);
    NothingLeft(w);
    BytesTakenOff(w, CrcBytes(w), w1, w2, w3, 0);
    FeedTaken(c, w, w1, w2, w3, CrcBytes(w));
  }

  lemma FeedTaken(c: bv32, w: bv32, w1: bv32, w2: bv32, w3: bv32, t: seq<bv8>)
    requires |t| == 4
    requires TakesOff(w, t[0], w1) && TakesOff(w1, t[1], w2) && TakesOff(w2, t[2], w3) && TakesOff(w3, t[3], 0)
    ensures FeedBits(c, BitsOf(t)) ==
            Iterate(Step, Iterate(Step, Iterate(Step, Iterate(Step, Xor(c, w), 8), 8), 8), 8)
  {
    var c1 := FeedBits(c, ByteBits(t[0]));
    var c2 := FeedBits(c1, ByteBits(t[1]));
    var c3 := FeedBits(c2, ByteBits(t[2]));
    FeedLowByte(c, w, t[0], w1);
    FeedLowByte(c1, w1, t[1], w2);
    FeedLowByte(c2, w2, t[2], w3);
    FeedLowByte(c3, w3, t[3], 0);
    XorZero(FeedBits(c3, ByteBits(t[3])));
    FeedFour(c, t);
  }

  lemma FeedFour(c: bv32, t: seq<bv8>)
    requires |t| == 4
    ensures FeedBits(c, BitsOf(t)) ==
            FeedBits(FeedBits(FeedBits(FeedBits(c, ByteBits(t[0])), ByteBits(t[1])), ByteBits(t[2])), ByteBits(t[3]))
  {
    assert t == [t[0]] + [t[1]] + [t[2]] + [t[3]];
    OneByte(t[0]);
    OneByte(t[1]);
    OneByte(t[2]);
    OneByte(t[3]);
    UpdatesJoin(c, [t[0]], [t[1]]);
    UpdatesJoin(c, [t[0]] + [t[1]], [t[2]]);
    UpdatesJoin(c, [t[0]] + [t[1]] + [t[2]], [t[3]]);
  }

  lemma AllOnesShifted()
    ensures Iterate(Step, 0xFFFFFFFF, 8) == 0x2DFD1072 && Iterate(Step, 0x2DFD1072, 8) == 0xBE26ED00
    ensures Iterate(Step, 0xBE26ED00, 8) == 0x00BE26ED && Iterate(Step, 0x00BE26ED, 8) == 0xDEBB20E3
  {
  }

  lemma XorBack(c: bv32)
    ensures Xor(c, Xor(c, CRC32_FINAL_XOR)) == 0xFFFF_FFFF
  {
  }

  /** A message followed by its checksum, lowest byte first, leaves one and the same register. */
  lemma Residue(m: seq<bv8>)
    ensures FeedBits(0xFFFF_FFFF, BitsOf(m + CrcBytes(Crc(m)))) == 0xDEBB_20E3
  {
    var c := FeedBits(CRC32_INITIAL, BitsOf(m));
    UpdatesJoin(CRC32_INITIAL, m, CrcBytes(Crc(m)));
    FeedFourBytes(c, Crc(m));
    XorBack(c);
    AllOnesShifted();
  }

  /** The first `n` entries are in place. */
  predicate Filled(table: seq<bv32>, n: nat)
    requires n <= |table| <= 256
  {
    forall i :: 0 <= i < n ==> table[i] == TableEntry(i)
  }

  lemma FilledNext(table: seq<bv32>, n: nat, entry: bv32)
    requires n < |table| <= 256 && Filled(table, n) && entry == TableEntry(n)
    ensures Filled(table[n := entry], n + 1)
  {
  }

  class CrcTable {
    const table: array<bv32>
    var ready: bool

    ghost predicate Valid()
      reads this, table
    {
      && table.Length == 256
      && (ready ==> Filled(table[..], 256))
    }

    constructor ()
      ensures Valid() && fresh(table) && !ready
    {
      table := new bv32[256](_ => 0);
      ready := false;
    }

    method BuildTable()
      requires Valid()
      modifies this, table
      ensures Valid() && ready
    {
      if ready {
        return;
      }
      for i := 0 to 256
        invariant table.Length == 256 && Filled(table[..], i)
      {
        var entry := BuildEntry(i);
        FilledNext(table[..], i, entry);
        table[i] := entry;
      }
      ready := true;
    }

    method BuildEntry(i: nat) returns (crc: bv32)
      requires i < 256
      ensures crc == TableEntry(i)
    {
      crc := i as bv32;
      for j := 0 to 8
        invariant crc == Iterate(Step, i as bv32, j)
      {
        if crc & 1 == 1 {
          crc := (crc >> 1) ^ CRC32_POLYNOMIAL;
        } else {
          crc := crc >> 1;
        }
      }
    }

    method Init() returns (crc: bv32)
      requires Valid()
      modifies this, table
      ensures Valid() && crc == CRC32_INITIAL
    {
      BuildTable();
      return CRC32_INITIAL;
    }

    /** The table-driven update feeds every bit of the data. */
    method Update(crc: bv32, data: seq<bv8>) returns (r: bv32)
      requires Valid()
      modifies this, table
      ensures Valid() && r == FeedBits(crc, BitsOf(data))
    {
      BuildTable();
      r := crc;
      for i := 0 to |data|
        invariant Valid() && ready
        invariant r == FeedBits(crc, BitsOf(data[..i]))
      {
        assert data[..i + 1] == data[..i] + [data[i]];
        UpdatesJoin(crc, data[..i], [data[i]]);
        r := UpdateByte(r, data[i]);
      }
      assert data[..|data|] == data;
    }

    method UpdateByte(crc: bv32, b: bv8) returns (r: bv32)
      requires Valid() && ready
      ensures r == FeedBits(crc, BitsOf([b]))
    {
      var index := (Xor(crc, b as bv32) & 0xFF) as int;
      TableStep(crc, b, index);
      r := Xor(table[index], crc >> 8);
    }

    method Compute(data: seq<bv8>) returns (r: bv32)
      requires Valid()
      modifies this, table
      ensures Valid() && r == Crc(data)
    {
      var crc := Init();
      crc := Update(crc, data);
      return crc ^ CRC32_FINAL_XOR;
    }
  }

  /** Updating with two pieces in turn is updating with their concatenation. */
  lemma UpdatesJoin(c: bv32, a: seq<bv8>, b: seq<bv8>)
    ensures FeedBits(FeedBits(c, BitsOf(a)), BitsOf(b)) == FeedBits(c, BitsOf(a + b))
  {
    FlattenJoins(ByteBits, a, b);
    FoldJoins(FeedBit, c, BitsOf(a), BitsOf(b));
  }
}
