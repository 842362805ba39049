/** Fixed-width unsigned integers of the C sources, as bounded mathematical integers. */
module Machine {

  const TWO_16: int := 0x1_0000
  const TWO_32: int := 0x1_0000_0000
  const TWO_64: int := 0x1_0000_0000_0000_0000

  type byte = x: int | 0 <= x < 0x100
  type u16 = x: int | 0 <= x < 0x1_0000
  type u32 = x: int | 0 <= x < 0x1_0000_0000
  type u64 = x: int | 0 <= x < 0x1_0000_0000_0000_0000

  /** Addition of two uint64_t values, with wrap-around. */
  function Add64(x: u64, y: u64): u64 {
    if x + y < TWO_64 then x + y else x + y - TWO_64
  }

  /** The value a uint64_t keeps of an unbounded one. */
  function Low64(x: nat): u64 {
    x % TWO_64
  }

  /** `x >> 8 * k` */
  function Shift8(x: nat, k: nat): nat {
    if k == 0 then x else Shift8(x, k - 1) / 0x100
  }

  lemma ShiftedOut(x: u64)
    ensures Shift8(x, 8) == 0
  {
    assert Shift8(x, 1) < 0x100_0000_0000_0000;
    assert Shift8(x, 2) < 0x1_0000_0000_0000;
    assert Shift8(x, 3) < 0x100_0000_0000;
    assert Shift8(x, 4) < 0x1_0000_0000;
    assert Shift8(x, 5) < 0x100_0000;
    assert Shift8(x, 6) < 0x1_0000;
    assert Shift8(x, 7) < 0x100;
  }

  function Pow2(k: nat): nat {
    if k == 0 then 1 else 2 * Pow2(k - 1)
  }

  lemma {:induction false} Pow2Positive(k: nat)
    ensures Pow2(k) > 0
  {
    if k > 0 {
      Pow2Positive(k - 1);
    }
  }

  datatype Option<+T> = None | Some(value: T)

  /** The integers from `lo` up to but not including `hi`. */
  ghost function Interval(lo: int, hi: int): (r: set<int>)
    ensures forall a :: a in r <==> lo <= a < hi
    ensures |r| == if lo <= hi then hi - lo else 0
    decreases hi - lo
  {
    if lo < hi then Interval(lo, hi - 1) + {hi - 1} else {}
  }

  lemma {:induction false} SubsetCount<T>(a: set<T>, b: set<T>)
    requires a <= b
    ensures |a| <= |b| && (|a| == |b| ==> a == b)
  {
    if a != {} {
      var x :| x in a;
      SubsetCount(a - {x}, b - {x});
      assert a == a - {x} + {x};
      assert b == b - {x} + {x};
    }
  }

  // ----- Sequences and bytes -----

  type Bytes = seq<byte>

  /** The little-endian 16-bit value at an index. */
  function Word16(b: Bytes, at: nat): u16
    requires at + 2 <= |b|
  {
    (b[at] as int) + (b[at + 1] as int) * 0x100
  }

  /** The little-endian 32-bit value at an index. */
  function Word32(b: Bytes, at: nat): u32
    requires at + 4 <= |b|
  {
    b[at] as int + (b[at + 1] as int) * 0x100 + (b[at + 2] as int) * 0x1_0000 + (b[at + 3] as int) * 0x100_0000
  }

  /** At most the first `n` elements. */
  function First<T>(s: seq<T>, n: nat): seq<T> {
    if |s| <= n then s else s[..n]
  }

  lemma Associative<T>(a: seq<T>, b: seq<T>, c: seq<T>)
    ensures (a + b) + c == a + (b + c)
  {
  }
}
