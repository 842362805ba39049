/**
 * SHA-256 as FIPS 180-4 defines it, over an abstract compression function: pad the message
 * (section 5.1.1), cut it into blocks and fold the compression function over them.
 */
module Sha256 {
  import opened Machine

  const BLOCK_SIZE := 64

  type HashState = h: seq<u32> | |h| == 8 witness seq(8, _ => 0)
  type Digest = d: seq<byte> | |d| == 32 witness seq(32, _ => 0)
  type Compression = (HashState, seq<byte>) -> HashState

  const IV: HashState := [
    0x6a09e667, 0xbb67ae85, 0x3c6ef372, 0xa54ff53a,
    0x510e527f, 0x9b05688c, 0x1f83d9ab, 0x5be0cd19
  ]

  function Zeros(n: nat): seq<byte> {
    seq(n, _ => 0)
  }

  function BigEndian64(x: u64): (b: seq<byte>)
    ensures |b| == 8
  {
    seq(8, i requires 0 <= i < 8 => Shift8(x, 7 - i) % 0x100)
  }

  function DigestOf(h: HashState): Digest {
    seq(32, i requires 0 <= i < 32 => Shift8(h[i / 4], 3 - i % 4) % 0x100)
  }

  /** The compression function folded over the blocks of `m`. */
  function Fold(c: Compression, m: seq<byte>): HashState
    requires |m| % BLOCK_SIZE == 0
  {
    if m == [] then IV
    else c(Fold(c, m[..|m| - BLOCK_SIZE]), m[|m| - BLOCK_SIZE..])
  }

  // The number of zero bytes between the bit '1' and the length
  function ZeroCount(length: nat): nat {
    (119 - length % BLOCK_SIZE) % BLOCK_SIZE
  }

  lemma PaddedLength(length: nat)
    ensures (length + ZeroCount(length) + 9) % BLOCK_SIZE == 0
  {
  }

  function PadWith(m: seq<byte>, bits: u64): (p: seq<byte>)
    ensures |p| % BLOCK_SIZE == 0
  {
    PaddedLength(|m|);
    var p := m + [0x80] + Zeros(ZeroCount(|m|)) + BigEndian64(bits);
    assert |p| == |m| + ZeroCount(|m|) + 9;
    p
  }

  /** The padded message; the length field holds the bit length modulo 2^64. */
  function Pad(m: seq<byte>): (p: seq<byte>)
    ensures |p| % BLOCK_SIZE == 0
  {
    PadWith(m, Low64(8 * |m|))
  }

  function Hash(c: Compression, m: seq<byte>): Digest {
    DigestOf(Fold(c, Pad(m)))
  }

  /** The digest holds the eight state words in order, each with its highest byte first. */
  predicate Spells(d: Digest, h: HashState) {
    forall k :: 0 <= k < 8 ==> WordAt(d, 4 * k) == h[k]
  }

  function WordAt(d: seq<byte>, at: nat): nat
    requires at + 4 <= |d|
  {
    (d[at] as int) * 0x100_0000 + (d[at + 1] as int) * 0x1_0000 + (d[at + 2] as int) * 0x100 + d[at + 3] as int
  }

  lemma FourBytes(x: u32, a: byte, b: byte, c: byte, d: byte)
    requires a == Shift8(x, 3) % 0x100 && b == Shift8(x, 2) % 0x100
    requires c == Shift8(x, 1) % 0x100 && d == Shift8(x, 0) % 0x100
    ensures x == (a as int) * 0x100_0000 + (b as int) * 0x1_0000 + (c as int) * 0x100 + d as int
  {
    var x1, x2, x3 := Shift8(x, 1), Shift8(x, 2), Shift8(x, 3);
    assert x1 == x / 0x100 && x2 == x1 / 0x100 && x3 == x2 / 0x100;
    assert x == 0x100 * x1 + d && x1 == 0x100 * x2 + c && x2 == 0x100 * x3 + b;
    assert x3 == a;
  }

  lemma DigestSpells(h: HashState)
    ensures Spells(DigestOf(h), h)
  {
    var d := DigestOf(h);
    forall k | 0 <= k < 8
      ensures WordAt(d, 4 * k) == h[k]
    {
      assert (4 * k) / 4 == k && (4 * k + 1) / 4 == k && (4 * k + 2) / 4 == k && (4 * k + 3) / 4 == k;
      FourBytes(h[k], d[4 * k], d[4 * k + 1], d[4 * k + 2], d[4 * k + 3]);
    }
  }

  lemma LowByte(u: nat, d: byte, v: nat, e: byte)
    requires u * 0x100 + d == v * 0x100 + e
    ensures u == v && d == e
  {
  }

  // The bytes of a word are determined by it
  lemma BytesOfWord(d: seq<byte>, e: seq<byte>, at: nat)
    requires at + 4 <= |d| && at + 4 <= |e| && WordAt(d, at) == WordAt(e, at)
    ensures d[at..at + 4] == e[at..at + 4]
  {
    var u2, v2 := (d[at] as int) * 0x100 + d[at + 1] as int, (e[at] as int) * 0x100 + e[at + 1] as int;
    var u3, v3 := u2 * 0x100 + d[at + 2] as int, v2 * 0x100 + e[at + 2] as int;
    LowByte(u3, d[at + 3], v3, e[at + 3]);
    LowByte(u2, d[at + 2], v2, e[at + 2]);
    LowByte(d[at] as int, d[at + 1], e[at] as int, e[at + 1]);
  }

  /** Only one digest spells a state. */
  lemma SpellsOne(d: Digest, e: Digest, h: HashState)
    requires Spells(d, h) && Spells(e, h)
    ensures d == e
  {
    forall i | 0 <= i < 32
      ensures d[i] == e[i]
    {
      var k := i / 4;
      BytesOfWord(d, e, 4 * k);
      assert d[i] == d[4 * k..4 * k + 4][i - 4 * k] == e[4 * k..4 * k + 4][i - 4 * k] == e[i];
    }
  }

  /** Writes the digest of a state, byte by byte. */
  method WriteDigest(h: HashState) returns (digest: Digest)
    ensures digest == DigestOf(h)
  {
    var bytes := new byte[32](_ => 0);
    for i := 0 to 8
      invariant forall k :: 0 <= k < i ==> WordAt(bytes[..], 4 * k) == h[k]
    {
      WriteWord(bytes, 4 * i, h[i]);
    }
    digest := bytes[..];
    DigestSpells(h);
    SpellsOne(digest, DigestOf(h), h);
  }

  method WriteWord(bytes: array<byte>, at: nat, x: u32)
    requires at + 4 <= bytes.Length
    modifies bytes
    ensures WordAt(bytes[..], at) == x
    ensures forall k :: 0 <= k < at ==> bytes[k] == old(bytes[k])
  {
    bytes[at] := x / 0x100_0000;
    bytes[at + 1] := x / 0x1_0000 % 0x100;
    bytes[at + 2] := x / 0x100 % 0x100;
    bytes[at + 3] := x % 0x100;
  }

  /** What a hash is, byte by byte. */
  lemma HashSpells(c: Compression, m: seq<byte>)
    ensures Spells(Hash(c, m), Fold(c, Pad(m)))
  {
    DigestSpells(Fold(c, Pad(m)));
  }

  /** With a compression function that changes nothing the digest is the initial state. */
  lemma InitialDigest(c: Compression, m: seq<byte>) returns (d: Digest)
    requires forall h: HashState, b: seq<byte> :: c(h, b) == h
    ensures d == Hash(c, m)
    ensures d == [
                0x6a, 0x09, 0xe6, 0x67, 0xbb, 0x67, 0xae, 0x85, 0x3c, 0x6e, 0xf3, 0x72, 0xa5, 0x4f, 0xf5, 0x3a,
                0x51, 0x0e, 0x52, 0x7f, 0x9b, 0x05, 0x68, 0x8c, 0x1f, 0x83, 0xd9, 0xab, 0x5b, 0xe0, 0xcd, 0x19
              ]
  {
    var bytes: seq<byte> := [
      0x6a, 0x09, 0xe6, 0x67, 0xbb, 0x67, 0xae, 0x85, 0x3c, 0x6e, 0xf3, 0x72, 0xa5, 0x4f, 0xf5, 0x3a,
      0x51, 0x0e, 0x52, 0x7f, 0x9b, 0x05, 0x68, 0x8c, 0x1f, 0x83, 0xd9, 0xab, 0x5b, 0xe0, 0xcd, 0x19
    ];
    d := bytes;
    FoldKeeps(c, Pad(m));
    DigestSpells(IV);
    SpellsInitial(d);
    SpellsOne(d, DigestOf(IV), IV);
  }

  lemma SpellsInitial(d: Digest)
    requires d[..16] == [0x6a, 0x09, 0xe6, 0x67, 0xbb, 0x67, 0xae, 0x85, 0x3c, 0x6e, 0xf3, 0x72, 0xa5, 0x4f, 0xf5, 0x3a]
    requires d[16..] == [0x51, 0x0e, 0x52, 0x7f, 0x9b, 0x05, 0x68, 0x8c, 0x1f, 0x83, 0xd9, 0xab, 0x5b, 0xe0, 0xcd, 0x19]
    ensures Spells(d, IV)
  {
    assert forall i :: 0 <= i < 16 ==> d[i] == d[..16][i] && d[16 + i] == d[16..][i];
    assert WordAt(d, 0) == IV[0] && WordAt(d, 4) == IV[1] && WordAt(d, 8) == IV[2] && WordAt(d, 12) == IV[3];
    assert WordAt(d, 16) == IV[4] && WordAt(d, 20) == IV[5] && WordAt(d, 24) == IV[6] && WordAt(d, 28) == IV[7];
  }

  lemma {:induction false} FoldKeeps(c: Compression, m: seq<byte>)
    requires |m| % BLOCK_SIZE == 0 && forall h: HashState, b: seq<byte> :: c(h, b) == h
    ensures Fold(c, m) == IV
  {
    if m != [] {
      FoldKeeps(c, m[..|m| - BLOCK_SIZE]);
    }
  }

  /** The padded message: the message, byte 0x80, zeros, and the bit length with its highest byte first. */
  lemma PadShape(m: seq<byte>)
    ensures var p := Pad(m); var n := |p| - 8;
            && n > |m| && p[..|m|] == m && p[|m|] == 0x80
            && (forall k :: |m| < k < n ==> p[k] == 0)
            && SpelledBy(p[n..]) == 8 * |m| % 0x1_0000_0000_0000_0000
  {
    var p, bits := Pad(m), Low64(8 * |m|);
    var n := |p| - 8;
    assert p == m + [0x80] + Zeros(ZeroCount(|m|)) + BigEndian64(bits);
    assert p[n..] == BigEndian64(bits);
    SpelledByBigEndian(bits);
  }

  /** The number that bytes spell, highest byte first. */
  function SpelledBy(b: seq<byte>): nat {
    if b == [] then 0 else SpelledBy(b[..|b| - 1]) * 0x100 + b[|b| - 1]
  }

  lemma {:induction false} SpelledByShifts(x: nat, b: seq<byte>, n: nat)
    requires n <= |b| && forall i :: 0 <= i < |b| ==> b[i] == Shift8(x, |b| - 1 - i) % 0x100
    requires Shift8(x, |b|) == 0
    ensures SpelledBy(b[..n]) == Shift8(x, |b| - n)
  {
    if n > 0 {
      SpelledByShifts(x, b, n - 1);
      assert b[..n][..n - 1] == b[..n - 1];
    }
  }

  lemma SpelledByBigEndian(x: u64)
    ensures SpelledBy(BigEndian64(x)) == x
  {
    ShiftedOut(x);
    SpelledByShifts(x, BigEndian64(x), 8);
    assert BigEndian64(x)[..8] == BigEndian64(x);
  }

  /** The padding adds the least number of zeros that makes room for the length. */
  lemma PaddingIsLeast(length: nat, k: nat)
    ensures (length + 1 + ZeroCount(length)) % BLOCK_SIZE == 56
    ensures (length + 1 + k) % BLOCK_SIZE == 56 ==> ZeroCount(length) <= k
  {
  }

  lemma {:induction false} ShiftsDetermine(x: nat, y: nat, k: nat)
    requires Shift8(x, k) == Shift8(y, k)
    requires forall i :: 0 <= i < k ==> Shift8(x, i) % 0x100 == Shift8(y, i) % 0x100
    ensures x == y
  {
    if k > 0 {
      ShiftsDetermine(x, y, k - 1);
    }
  }

  lemma BigEndian64Injective(x: u64, y: u64)
    requires BigEndian64(x) == BigEndian64(y)
    ensures x == y
  {
    ShiftedOut(x);
    ShiftedOut(y);
    forall i | 0 <= i < 8
      ensures Shift8(x, i) % 0x100 == Shift8(y, i) % 0x100
    {
      assert BigEndian64(x)[7 - i] == BigEndian64(y)[7 - i];
    }
    ShiftsDetermine(x, y, 8);
  }

  lemma PadWithInjective(m: seq<byte>, a: u64, n: seq<byte>, b: u64)
    requires PadWith(m, a) == PadWith(n, b)
    ensures a == b
    ensures |m| == |n| ==> m == n
  {
    var p, q := PadWith(m, a), PadWith(n, b);
    assert p[|p| - 8..] == BigEndian64(a) && q[|q| - 8..] == BigEndian64(b);
    BigEndian64Injective(a, b);
    assert p[..|m|] == m && q[..|n|] == n;
  }

  lemma ShortPad(m: seq<byte>)
    requires 8 * |m| < TWO_64
    ensures Pad(m) == PadWith(m, 8 * |m|)
  {
  }

  /** Messages shorter than 2^64 bits that pad to the same bytes are the same message. */
  lemma PadIsInjective(m: seq<byte>, n: seq<byte>)
    requires 8 * |m| < TWO_64 && 8 * |n| < TWO_64
    requires Pad(m) == Pad(n)
    ensures m == n
  {
    ShortPad(m);
    ShortPad(n);
    PadWithInjective(m, 8 * |m|, n, 8 * |n|);
  }

  // ----- Streaming -----

  /** A chaining state, and the bytes fed in since the last whole block. */
  datatype Stream = Stream(state: HashState, pending: seq<byte>)

  const START := Stream(IV, [])

  function Feed(c: Compression, st: Stream, b: byte): (next: Stream)
    requires |st.pending| < BLOCK_SIZE
    ensures |next.pending| < BLOCK_SIZE
  {
    var p := st.pending + [b];
    if |p| == BLOCK_SIZE then Stream(c(st.state, p), []) else Stream(st.state, p)
  }

  /** Feeding the bytes `d` one by one. */
  function FeedAll(c: Compression, st: Stream, d: seq<byte>): (next: Stream)
    requires |st.pending| < BLOCK_SIZE
    ensures |next.pending| < BLOCK_SIZE
    decreases |d|
  {
    if |d| == 0 then st else FeedAll(c, Feed(c, st, d[0]), d[1..])
  }

  /** Cutting the input does not matter. */
  lemma {:induction false} FeedAllJoins(c: Compression, st: Stream, d: seq<byte>, e: seq<byte>)
    requires |st.pending| < BLOCK_SIZE
    ensures FeedAll(c, st, d + e) == FeedAll(c, FeedAll(c, st, d), e)
    decreases |d|
  {
    if |d| == 0 {
      assert d + e == e;
    } else {
      FeedAllJoins(c, Feed(c, st, d[0]), d[1..], e);
      assert (d + e)[1..] == d[1..] + e;
    }
  }

  /** Bytes that do not complete a block. */
  lemma {:induction false} FeedPartial(c: Compression, st: Stream, d: seq<byte>)
    requires |st.pending| + |d| < BLOCK_SIZE
    ensures FeedAll(c, st, d) == Stream(st.state, st.pending + d)
    decreases |d|
  {
    if |d| == 0 {
      assert st.pending + d == st.pending;
    } else {
      FeedPartial(c, Feed(c, st, d[0]), d[1..]);
      assert st.pending + [d[0]] + d[1..] == st.pending + d;
    }
  }

  /** Bytes that complete exactly one block. */
  lemma {:induction false} FeedBlock(c: Compression, st: Stream, d: seq<byte>)
    requires |st.pending| < BLOCK_SIZE && |st.pending| + |d| == BLOCK_SIZE
    ensures FeedAll(c, st, d) == Stream(c(st.state, st.pending + d), [])
    decreases |d|
  {
    assert st.pending + [d[0]] + d[1..] == st.pending + d;
    if |d| > 1 {
      FeedBlock(c, Feed(c, st, d[0]), d[1..]);
    } else {
      assert d[1..] == [];
      assert d == [d[0]];
    }
  }

  // A whole block after a prefix that leaves nothing pending
  lemma FeedNextBlock(c: Compression, st: Stream, before: seq<byte>, block: seq<byte>, state: HashState)
    requires |st.pending| < BLOCK_SIZE && |block| == BLOCK_SIZE
    requires FeedAll(c, st, before) == Stream(state, [])
    ensures FeedAll(c, st, before + block) == Stream(c(state, block), [])
  {
    FeedAllJoins(c, st, before, block);
    FeedBlock(c, Stream(state, []), block);
    assert [] + block == block;
  }

  // A last part shorter than a block
  lemma FeedRest(c: Compression, st: Stream, before: seq<byte>, rest: seq<byte>, state: HashState)
    requires |st.pending| < BLOCK_SIZE && |rest| < BLOCK_SIZE
    requires FeedAll(c, st, before) == Stream(state, [])
    ensures FeedAll(c, st, before + rest) == Stream(state, rest)
  {
    FeedAllJoins(c, st, before, rest);
    FeedShort(c, state, rest);
  }

  lemma FeedShort(c: Compression, state: HashState, rest: seq<byte>)
    requires |rest| < BLOCK_SIZE
    ensures FeedAll(c, Stream(state, []), rest) == Stream(state, rest)
  {
    FeedPartial(c, Stream(state, []), rest);
    assert [] + rest == rest;
  }

  lemma {:induction false} PendingLength(c: Compression, st: Stream, d: seq<byte>)
    requires |st.pending| < BLOCK_SIZE
    ensures |FeedAll(c, st, d).pending| == (|st.pending| + |d|) % BLOCK_SIZE
    decreases |d|
  {
    if |d| > 0 {
      PendingLength(c, Feed(c, st, d[0]), d[1..]);
    }
  }

  /** On a whole number of blocks, feeding is folding. */
  lemma {:induction false} FeedIsFold(c: Compression, m: seq<byte>)
    requires |m| % BLOCK_SIZE == 0
    ensures FeedAll(c, START, m) == Stream(Fold(c, m), [])
  {
    if m != [] {
      var front, d := m[..|m| - BLOCK_SIZE], m[|m| - BLOCK_SIZE..];
      FeedIsFold(c, front);
      FeedAllJoins(c, START, front, d);
      assert m == front + d;
      FeedBlock(c, Stream(Fold(c, front), []), d);
      assert [] + d == d;
    }
  }

  // The bytes that padding adds after `r` pending bytes, cut where a block ends
  function ShortTail(r: nat, bits: u64): (t: seq<byte>)
    requires r < 56
    ensures r + |t| == BLOCK_SIZE
  {
    [0x80] + Zeros(55 - r) + BigEndian64(bits)
  }

  function LongTail(r: nat): (t: seq<byte>)
    requires r < BLOCK_SIZE
    ensures r + |t| == BLOCK_SIZE
  {
    [0x80] + Zeros(63 - r)
  }

  function LengthBlock(bits: u64): (t: seq<byte>)
    ensures |t| == BLOCK_SIZE
  {
    Zeros(56) + BigEndian64(bits)
  }

  /** The chaining state after the one or two blocks that the padding completes. */
  function Finished(c: Compression, st: Stream, bits: u64): HashState
    requires |st.pending| < BLOCK_SIZE
  {
    var r := |st.pending|;
    if r < 56 then c(st.state, st.pending + ShortTail(r, bits))
    else c(c(st.state, st.pending + LongTail(r)), LengthBlock(bits))
  }

  lemma PadShort(m: seq<byte>, bits: u64)
    requires |m| % BLOCK_SIZE < 56
    ensures PadWith(m, bits) == m + ShortTail(|m| % BLOCK_SIZE, bits)
  {
    assert ZeroCount(|m|) == 55 - |m| % BLOCK_SIZE;
  }

  lemma PadLong(m: seq<byte>, bits: u64)
    requires |m| % BLOCK_SIZE >= 56
    ensures PadWith(m, bits) == m + LongTail(|m| % BLOCK_SIZE) + LengthBlock(bits)
  {
    var r := |m| % BLOCK_SIZE;
    assert ZeroCount(|m|) == 63 - r + 56;
    assert Zeros(ZeroCount(|m|)) == Zeros(63 - r) + Zeros(56);
  }

  lemma CompletesBlock(n: nat, k: nat)
    requires n % BLOCK_SIZE + k == BLOCK_SIZE
    ensures (n + k) % BLOCK_SIZE == 0
  {
  }

  // `t` completes the pending block, `e` is one more
  lemma FoldOneMore(c: Compression, m: seq<byte>, t: seq<byte>)
    requires |m| % BLOCK_SIZE + |t| == BLOCK_SIZE
    ensures |m + t| % BLOCK_SIZE == 0
    ensures var st := FeedAll(c, START, m); Fold(c, m + t) == c(st.state, st.pending + t)
  {
    CompletesBlock(|m|, |t|);
    PendingLength(c, START, m);
    FeedAllJoins(c, START, m, t);
    FeedBlock(c, FeedAll(c, START, m), t);
    FeedIsFold(c, m + t);
  }

  lemma FoldTwoMore(c: Compression, m: seq<byte>, t: seq<byte>, e: seq<byte>)
    requires |m| % BLOCK_SIZE + |t| == BLOCK_SIZE && |e| == BLOCK_SIZE
    ensures |m + t + e| % BLOCK_SIZE == 0
    ensures var st := FeedAll(c, START, m); Fold(c, m + t + e) == c(c(st.state, st.pending + t), e)
  {
    FoldOneMore(c, m, t);
    assert (m + t + e)[..|m + t|] == m + t && (m + t + e)[|m + t|..] == e;
  }

  lemma FinishedIsFold(c: Compression, m: seq<byte>, bits: u64)
    ensures Finished(c, FeedAll(c, START, m), bits) == Fold(c, PadWith(m, bits))
  {
    var st, r := FeedAll(c, START, m), |m| % BLOCK_SIZE;
    PendingLength(c, START, m);
    assert |st.pending| == r;
    if r < 56 {
      PadShort(m, bits);
      FoldOneMore(c, m, ShortTail(r, bits));
    } else {
      PadLong(m, bits);
      FoldTwoMore(c, m, LongTail(r), LengthBlock(bits));
    }
  }

  /** Finishing the stream of a message gives its hash. */
  lemma FinishedIsHash(c: Compression, m: seq<byte>)
    ensures DigestOf(Finished(c, FeedAll(c, START, m), Low64(8 * |m|))) == Hash(c, m)
  {
    FinishedIsFold(c, m, Low64(8 * |m|));
  }

  lemma Low64Periodic(q: nat, r: nat)
    ensures Low64(q * TWO_64 + r) == Low64(r)
  {
  }

  lemma BlockPeriodic(q: nat, r: nat)
    ensures (q * BLOCK_SIZE + r) % BLOCK_SIZE == r % BLOCK_SIZE
  {
  }

  /** A counter kept modulo 2^64. */
  lemma CountBytes(n: nat, k: u64)
    ensures Low64(n + k) == Add64(Low64(n), k)
  {
    Low64Periodic(n / TWO_64, Low64(n) + k);
  }

  lemma CountedBits(n: nat)
    ensures Low64(8 * Low64(n)) == Low64(8 * n)
    ensures Low64(n) % BLOCK_SIZE == n % BLOCK_SIZE
  {
    Low64Periodic(8 * (n / TWO_64), 8 * Low64(n));
    BlockPeriodic(n / TWO_64 * (TWO_64 / BLOCK_SIZE), Low64(n));
  }
}
