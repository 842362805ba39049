/** Cache-as-RAM: cache lines that stand in for memory before DRAM is set up. */
module CacheAsRam {
  import opened Machine

  const TEST_PATTERN: u64 := 0xDEADBEEFCAFEBABE

  // ----- Flat memory -----

  /** Where the `i`-th byte from an offset lies in a memory of the given size. */
  function Place(offset: nat, i: nat, size: nat): nat
    requires size > 0
  {
    (offset + i) % size
  }

  /** Bytes stored one after the other from `offset` on, modulo the size of the memory. */
  function Stored(flat: seq<byte>, offset: nat, data: seq<byte>): (r: seq<byte>)
    requires |flat| > 0
    ensures |r| == |flat|
  {
    if data == [] then flat
    else
      var n := |data| - 1;
      Stored(flat, offset, data[..n])[Place(offset, n, |flat|) := data[n]]
  }

  function Loaded(flat: seq<byte>, offset: nat, n: nat): seq<byte>
    requires |flat| > 0
  {
    seq(n, i requires 0 <= i < n => flat[Place(offset, i, |flat|)])
  }

  /** The eight bytes of a value, least significant first. */
  function Bytes8(v: u64): (b: seq<byte>)
    ensures |b| == 8
  {
    seq(8, i requires 0 <= i < 8 => Shift8(v, i) % 0x100)
  }

  function Pow256(k: nat): nat {
    if k == 0 then 1 else 0x100 * Pow256(k - 1)
  }

  function Value(b: seq<byte>): nat {
    if b == [] then 0 else Value(b[..|b| - 1]) + b[|b| - 1] * Pow256(|b| - 1)
  }

  lemma {:induction false} ValueOfShifts(v: nat, k: nat)
    ensures Value(seq(k, i requires 0 <= i < k => Shift8(v, i) % 0x100)) + Shift8(v, k) * Pow256(k) == v
  {
    if k > 0 {
      ValueOfShifts(v, k - 1);
      var b := seq(k, i requires 0 <= i < k => Shift8(v, i) % 0x100);
      assert b[..k - 1] == seq(k - 1, i requires 0 <= i < k - 1 => Shift8(v, i) % 0x100);
      Regroup(Shift8(v, k - 1), Pow256(k - 1));
    }
  }

  /** The value of eight bytes, least significant first. */
  lemma ValueOfEight(b: seq<byte>)
    requires |b| == 8
    ensures Value(b) == b[0] as int + (b[1] as int) * 0x100 + (b[2] as int) * 0x1_0000 + (b[3] as int) * 0x100_0000
                        + (b[4] as int) * 0x1_0000_0000 + (b[5] as int) * 0x100_0000_0000
                        + (b[6] as int) * 0x1_0000_0000_0000 + (b[7] as int) * 0x100_0000_0000_0000
  {
    PowersOf256();
    ValueOfLast(b, 1, 1);
    ValueOfLast(b, 2, 0x100);
    ValueOfLast(b, 3, 0x1_0000);
    ValueOfLast(b, 4, 0x100_0000);
    ValueOfLast(b, 5, 0x1_0000_0000);
    ValueOfLast(b, 6, 0x100_0000_0000);
    ValueOfLast(b, 7, 0x1_0000_0000_0000);
    ValueOfLast(b, 8, 0x100_0000_0000_0000);
    assert b[..8] == b && b[..0] == [];
  }

  lemma PowersOf256()
    ensures Pow256(0) == 1 && Pow256(1) == 0x100 && Pow256(2) == 0x1_0000 && Pow256(3) == 0x100_0000
    ensures Pow256(4) == 0x1_0000_0000 && Pow256(5) == 0x100_0000_0000 && Pow256(6) == 0x1_0000_0000_0000
    ensures Pow256(7) == 0x100_0000_0000_0000
  {
  }

  lemma ValueOfLast(b: seq<byte>, n: nat, p: nat)
    requires 0 < n <= |b| && p == Pow256(n - 1)
    ensures Value(b[..n]) == Value(b[..n - 1]) + b[n - 1] * p
  {
    assert b[..n][..n - 1] == b[..n - 1];
  }

  /** The bytes of the pattern that enabling stores. */
  lemma PatternBytes()
    ensures Bytes8(TEST_PATTERN) == [0xBE, 0xBA, 0xFE, 0xCA, 0xEF, 0xBE, 0xAD, 0xDE]
  {
    assert Shift8(TEST_PATTERN, 1) == 0xDEADBEEFCAFEBA && Shift8(TEST_PATTERN, 2) == 0xDEADBEEFCAFE;
    assert Shift8(TEST_PATTERN, 3) == 0xDEADBEEFCA && Shift8(TEST_PATTERN, 4) == 0xDEADBEEF;
    assert Shift8(TEST_PATTERN, 5) == 0xDEADBE && Shift8(TEST_PATTERN, 6) == 0xDEAD;
    assert Shift8(TEST_PATTERN, 7) == 0xDE;
  }

  lemma Regroup(x: nat, p: nat)
    ensures x % 0x100 * p + x / 0x100 * (0x100 * p) == x * p
  {
    assert x == x % 0x100 + x / 0x100 * 0x100;
    assert (x % 0x100 + x / 0x100 * 0x100) * p == x % 0x100 * p + x / 0x100 * 0x100 * p;
    assert x / 0x100 * 0x100 * p == x / 0x100 * (0x100 * p);
  }

  /** The bytes of a value spell it. */
  lemma ValueOfBytes8(v: u64)
    ensures Value(Bytes8(v)) == v
  {
    ValueOfShifts(v, 8);
    ShiftedOut(v);
  }

  lemma {:induction false} ValueOfZeros(b: seq<byte>)
    requires forall i :: 0 <= i < |b| ==> b[i] == 0
    ensures Value(b) == 0
  {
    if b != [] {
      ValueOfZeros(b[..|b| - 1]);
    }
  }

  lemma {:induction false} ValueBound(b: seq<byte>)
    ensures Value(b) < Pow256(|b|)
  {
    if b != [] {
      ValueBound(b[..|b| - 1]);
      ByteTimes(b[|b| - 1], Pow256(|b| - 1));
    }
  }

  lemma ByteTimes(b: byte, p: nat)
    ensures b * p <= 0xFF * p
  {
    assert (0xFF - b) * p >= 0;
  }

  lemma EightBytesFit()
    ensures Pow256(8) == TWO_64
  {
    assert Pow256(2) == 0x1_0000;
    assert Pow256(4) == 0x1_0000_0000;
    assert Pow256(6) == 0x1_0000_0000_0000;
  }

  // ----- Offsets -----

  lemma MulAtLeast(a: int, m: nat)
    requires a >= 1
    ensures a * m >= m
  {
  }

  lemma PositiveFactor(a: int, m: nat)
    requires a * m > 0
    ensures a > 0
  {
  }

  lemma DivModUnique(x: nat, m: nat, q: nat, r: nat)
    requires m > 0 && x == q * m + r && r < m
    ensures x / m == q && x % m == r
  {
    var d := x / m - q;
    assert x == (q + d) * m + x % m;
    assert d * m == r - x % m;
    if d >= 1 {
      MulAtLeast(d, m);
    } else if d <= -1 {
      MulAtLeast(-d, m);
    }
  }

  lemma LineInRange(r: nat, lines: nat, lineSize: nat)
    requires lineSize > 0 && r < lines * lineSize
    ensures r / lineSize < lines
  {
    var line := r / lineSize;
    assert r == line * lineSize + r % lineSize;
    assert (lines - line) * lineSize == lines * lineSize - line * lineSize;
    PositiveFactor(lines - line, lineSize);
  }

  lemma SplitOffset(q: nat, lines: nat, line: nat, lineSize: nat, place: nat)
    ensures q * (lines * lineSize) + (line * lineSize + place) == (q * lines + line) * lineSize + place
  {
    assert q * (lines * lineSize) == q * lines * lineSize;
  }

  /** The line and the place in it of an offset are those of the offset modulo the size. */
  lemma OffsetInFlat(offset: nat, lines: nat, lineSize: nat, size: nat)
    requires lines > 0 && lineSize > 0 && size > 0 && size == lines * lineSize
    ensures offset % size / lineSize == offset / lineSize % lines
    ensures offset % size % lineSize == offset % lineSize
  {
    var q, r := offset / size, offset % size;
    var line, place := r / lineSize, r % lineSize;
    LineInRange(r, lines, lineSize);
    SplitOffset(q, lines, line, lineSize, place);
    assert r == line * lineSize + place;
    assert offset == q * size + r;
    DivModUnique(offset, lineSize, q * lines + line, place);
    DivModUnique(q * lines + line, lines, q, line);
  }

  // A line that starts at a multiple of the line size does not wrap within itself
  lemma WithinLine(offset: nat, i: nat, lineSize: nat)
    requires lineSize > 0 && offset % lineSize + i < lineSize
    ensures (offset + i) / lineSize == offset / lineSize && (offset + i) % lineSize == offset % lineSize + i
  {
    DivModUnique(offset + i, lineSize, offset / lineSize, offset % lineSize + i);
  }

  // ----- The cache -----

  class CacheAsRam {
    const lines: nat
    const lineSize: nat
    const size: nat
    const memory: array2<byte>
    const valid: array<bool>
    const dirty: array<bool>
    var enabled: bool
    var globallyOn: bool
    var teardownComplete: bool

    ghost predicate Shaped() {
      && lines > 0 && lineSize >= 8 && size == lines * lineSize && size > 0
      && TWO_64 % size == 0 && lines < TWO_32
      && memory.Length0 == lines && memory.Length1 == lineSize
      && valid.Length == lines && dirty.Length == lines
    }

    /** Lines that are not in use hold zeros. */
    ghost predicate Clean()
      requires Shaped()
      reads memory, valid
    {
      forall l, p :: 0 <= l < lines && 0 <= p < lineSize && !valid[l] ==> memory[l, p] == 0
    }

    ghost predicate Valid()
      reads this, memory, valid
    {
      Shaped() && (enabled ==> globallyOn && Clean())
    }

    function LineOf(offset: nat): nat
      requires lines > 0 && lineSize > 0
    {
      offset / lineSize % lines
    }

    ghost function ByteAt(k: nat): byte
      requires Shaped() && k < size
      reads memory, valid
    {
      LineInRange(k, lines, lineSize);
      if valid[k / lineSize] then memory[k / lineSize, k % lineSize] else 0
    }

    /** The memory as software sees it. */
    ghost function Flat(): (flat: seq<byte>)
      requires Shaped()
      reads memory, valid
      ensures |flat| == size
    {
      seq(size, k requires 0 <= k < size && Shaped() reads memory, valid => ByteAt(k))
    }

    constructor (lines: nat, lineSize: nat, size: nat)
      requires 0 < lines < TWO_32 && lineSize >= 8 && size == lines * lineSize > 0 && TWO_64 % size == 0
      ensures Valid() && fresh(memory) && fresh(valid) && fresh(dirty)
      ensures this.lines == lines && this.lineSize == lineSize && this.size == size
      ensures Initial()
    {
      this.lines, this.lineSize, this.size := lines, lineSize, size;
      memory := new byte[lines, lineSize]((_, _) => 0);
      valid := new bool[lines](_ => false);
      dirty := new bool[lines](_ => false);
      enabled, globallyOn, teardownComplete := false, false, false;
      new;
      UnusedIsZero();
    }

    lemma UnusedIsZero()
      requires Shaped() && forall l :: 0 <= l < lines ==> !valid[l]
      ensures Flat() == seq(size, _ => 0)
    {
      forall k | 0 <= k < size
        ensures ByteAt(k) == 0
      {
        LineInRange(k, lines, lineSize);
        assert !valid[k / lineSize];
      }
      assert forall k :: 0 <= k < size ==> Flat()[k] == ByteAt(k);
    }

    // The state that initialisation produces
    ghost predicate Initial()
      reads this, memory, valid, dirty
    {
      && Shaped() && Clean() && !enabled && !teardownComplete
      && (forall l :: 0 <= l < lines ==> !valid[l] && !dirty[l])
      && Flat() == seq(size, _ => 0)
    }

    method Init()
      requires Shaped()
      modifies this, memory, valid, dirty
      ensures Valid() && Initial()
    {
      enabled, teardownComplete := false, false;
      forall l, p | 0 <= l < lines && 0 <= p < lineSize {
        memory[l, p] := 0;
      }
      forall l | 0 <= l < lines {
        valid[l] := false;
      }
      forall l | 0 <= l < lines {
        dirty[l] := false;
      }
      UnusedIsZero();
    }

    // Stores one byte and marks its line
    method StoreByte(offset: nat, b: byte)
      requires Shaped() && Clean()
      modifies memory, valid, dirty
      ensures Clean()
      ensures Flat() == old(Flat())[offset % size := b]
      ensures valid[..] == old(valid[..])[LineOf(offset) := true]
      ensures dirty[..] == old(dirty[..])[LineOf(offset) := true]
    {
      var line := LineOf(offset);
      valid[line] := true;
      dirty[line] := true;
      memory[line, offset % lineSize] := b;
      OffsetInFlat(offset, lines, lineSize, size);
      forall k | 0 <= k < size
        ensures ByteAt(k) == if k == offset % size then b else old(Flat())[k]
      {
        LineInRange(k, lines, lineSize);
        if k / lineSize == line && k % lineSize == offset % lineSize {
          assert k == k / lineSize * lineSize + k % lineSize;
          assert offset % size == offset % size / lineSize * lineSize + offset % size % lineSize;
        }
        assert old(Flat())[k] == old(ByteAt(k));
      }
    }

    // Stores bytes one after the other; 64-bit offsets wrap around
    method StoreBytes(offset: u64, data: seq<byte>)
      requires Shaped() && Clean()
      modifies memory, valid, dirty
      ensures Clean()
      ensures Flat() == Stored(old(Flat()), offset, data)
      ensures forall l :: 0 <= l < lines ==>
                (valid[l] <==> old(valid[l]) || Touches(offset, |data|, l))
    {
      assert Stored(Flat(), offset, data[..0]) == Flat();
      for i := 0 to |data|
        invariant Clean()
        invariant Flat() == Stored(old(Flat()), offset, data[..i])
        invariant forall l :: 0 <= l < lines ==> (valid[l] <==> old(valid[l]) || Touches(offset, i, l))
      {
        ghost var before := valid[..];
        WrappedOffset(offset + i, size);
        OffsetInFlat(offset + i, lines, lineSize, size);
        OffsetInFlat(Low64(offset + i), lines, lineSize, size);
        assert data[..i + 1][..i] == data[..i];
        StoreByte(Low64(offset + i), data[i]);
        forall l | 0 <= l < lines
          ensures valid[l] <==> old(valid[l]) || Touches(offset, i + 1, l)
        {
          TouchesNext(offset, i, l);
          assert valid[l] == valid[..][l];
        }
      }
      assert data[..|data|] == data;
    }

    /** One of the `n` bytes from `offset` on lies in line `l`. */
    predicate Touches(offset: nat, n: nat, l: nat)
      requires lines > 0 && lineSize > 0
    {
      exists i :: 0 <= i < n && LineAfter(offset, i) == l
    }

    function LineAfter(offset: nat, i: nat): nat
      requires lines > 0 && lineSize > 0
    {
      LineOf(offset + i)
    }

    lemma TouchesNext(offset: nat, n: nat, l: nat)
      requires lines > 0 && lineSize > 0
      ensures Touches(offset, n + 1, l) <==> Touches(offset, n, l) || LineOf(offset + n) == l
    {
      assert LineAfter(offset, n) == LineOf(offset + n);
    }

    /** Stores a value that does not cross the end of a line; ignored while disabled. */
    method Write(offset: u64, value: u64)
      requires Valid() && offset % lineSize + 8 <= lineSize
      modifies memory, valid, dirty
      ensures Valid()
      ensures Flat() == if enabled then Stored(old(Flat()), offset, Bytes8(value)) else old(Flat())
      ensures forall l :: 0 <= l < lines ==>
                (valid[l] <==> old(valid[l]) || (enabled && Touches(offset, 8, l)))
    {
      if !enabled || !globallyOn {
        return;
      }
      StoreBytes(offset, Bytes8(value));
    }

    /** Stores a block of any length; ignored while disabled. */
    method WriteBlock(offset: u64, src: seq<byte>)
      requires Valid()
      modifies memory, valid, dirty
      ensures Valid()
      ensures Flat() == if enabled then Stored(old(Flat()), offset, src) else old(Flat())
      ensures forall l :: 0 <= l < lines ==>
                (valid[l] <==> old(valid[l]) || (enabled && Touches(offset, |src|, l)))
    {
      if !enabled || !globallyOn {
        return;
      }
      StoreBytes(offset, src);
    }

    // The byte that software reads at an offset
    method LoadByte(offset: nat) returns (b: byte)
      requires Shaped()
      ensures b == Flat()[offset % size]
    {
      OffsetInFlat(offset, lines, lineSize, size);
      var line := LineOf(offset);
      if valid[line] {
        return memory[line, offset % lineSize];
      }
      return 0;
    }

    /** Reads a value that does not cross the end of a line; 0 while disabled. */
    method Read(offset: u64) returns (value: u64)
      requires Valid() && offset % lineSize + 8 <= lineSize
      ensures value == if enabled then Value(Loaded(Flat(), offset, 8)) else 0
    {
      if !enabled || !globallyOn {
        return 0;
      }
      ghost var bytes := Loaded(Flat(), offset, 8);
      ValueBound(bytes);
      EightBytesFit();
      forall i | 0 <= i < 8
        ensures bytes[i] == LineByte(offset, i)
      {
        LineByteIsFlat(offset, i);
      }
      if !valid[LineOf(offset)] {
        ValueOfZeros(bytes);
        return 0;
      }
      value := ReadLine(LineOf(offset), offset % lineSize, bytes);
    }

    method ReadLine(line: nat, start: nat, ghost bytes: seq<byte>) returns (result: nat)
      requires Shaped() && line < lines && start + 8 <= lineSize && |bytes| == 8
      requires forall i :: 0 <= i < 8 ==> bytes[i] == memory[line, start + i]
      ensures result == Value(bytes)
    {
      result := 0;
      for i := 0 to 8
        invariant result == Value(bytes[..i])
      {
        assert bytes[..i + 1][..i] == bytes[..i];
        result := result + memory[line, start + i] * Pow256(i);
      }
      assert bytes[..8] == bytes;
    }

    // The `i`-th byte from an offset, in the offset's own line
    ghost function LineByte(offset: nat, i: nat): byte
      requires Shaped() && offset % lineSize + i < lineSize
      reads memory, valid
    {
      if valid[LineOf(offset)] then memory[LineOf(offset), offset % lineSize + i] else 0
    }

    lemma LineByteIsFlat(offset: nat, i: nat)
      requires Shaped() && offset % lineSize + i < lineSize
      ensures Flat()[Place(offset, i, size)] == LineByte(offset, i)
    {
      WithinLine(offset, i, lineSize);
      OffsetInFlat(offset + i, lines, lineSize, size);
    }

    /** Reads a block of any length into `dest`, which is left alone while disabled. */
    method ReadBlock(offset: u64, dest: array<byte>, n: nat)
      requires Valid() && n <= dest.Length
      modifies dest
      ensures enabled ==> dest[..n] == Loaded(Flat(), offset, n)
      ensures !enabled ==> dest[..n] == old(dest[..n])
      ensures dest[n..] == old(dest[n..])
    {
      if !enabled || !globallyOn {
        return;
      }
      for i := 0 to n
        invariant forall k :: 0 <= k < i ==> dest[k] == Loaded(Flat(), offset, n)[k]
        invariant dest[n..] == old(dest[n..])
      {
        WrappedOffset(offset + i, size);
        dest[i] := LoadByte(Low64(offset + i));
      }
    }

    /**
     * Turns the mode on and stores the test pattern, which reads back; does nothing when it is on.
     * Lines that an earlier session left behind have to be cleared first.
     */
    method Enable() returns (ok: bool)
      requires Valid() && Clean()
      modifies this, memory, valid, dirty
      ensures Valid() && ok && enabled && teardownComplete == old(teardownComplete)
      ensures Flat() == if old(enabled) then old(Flat()) else Stored(old(Flat()), 0, Bytes8(TEST_PATTERN))
      ensures !old(enabled) ==> size >= 8 && Flat()[..8] == [0xBE, 0xBA, 0xFE, 0xCA, 0xEF, 0xBE, 0xAD, 0xDE]
    {
      if enabled {
        return true;
      }
      ghost var flat := Flat();
      enabled, globallyOn := true, true;
      SizeAtLeastLine(lines, lineSize, size);
      assert 0 % lineSize == 0;
      Write(0, TEST_PATTERN);
      var readBack := Read(0);
      LoadedAfterStored(flat, 0, Bytes8(TEST_PATTERN));
      ValueOfBytes8(TEST_PATTERN);
      PatternStored(flat);
      assert readBack == TEST_PATTERN;
      return true;
    }

    /** `now` has the touched lines from `first` up to `last` copied into `before`. */
    ghost predicate Flushed(now: seq<byte>, before: seq<byte>, flat: seq<byte>, first: nat, last: nat)
      requires lineSize > 0 && |flat| == size && last <= lines == valid.Length
      reads valid
    {
      && |now| == |before|
      && forall k :: 0 <= k < |now| ==>
           now[k] == if k < size && first <= k / lineSize < last && valid[k / lineSize] then flat[k] else before[k]
    }

    lemma FlushedNext(now: seq<byte>, mid: seq<byte>, before: seq<byte>, flat: seq<byte>, line: nat)
      requires lineSize > 0 && |flat| == size && line < lines == valid.Length
      requires Flushed(mid, before, flat, 0, line) && Flushed(now, mid, flat, line, line + 1)
      ensures Flushed(now, before, flat, 0, line + 1)
    {
    }

    // Copies the touched lines out
    method Flush(dram: array<byte>)
      requires Shaped() && dram.Length >= size
      modifies dram
      ensures Flushed(dram[..], old(dram[..]), Flat(), 0, lines)
    {
      ghost var flat := Flat();
      var line := 0;
      while line < lines
        invariant line <= lines && Flat() == flat
        invariant Flushed(dram[..], old(dram[..]), flat, 0, line)
      {
        ghost var mid := dram[..];
        FlushLine(line, dram, flat);
        FlushedNext(dram[..], mid, old(dram[..]), flat, line);
        line := line + 1;
      }
    }

    method FlushLine(line: nat, dram: array<byte>, ghost flat: seq<byte>)
      requires Shaped() && dram.Length >= size && line < lines && flat == Flat()
      modifies dram
      ensures Flushed(dram[..], old(dram[..]), flat, line, line + 1)
    {
      if valid[line] {
        LineEnd(line, lines, lineSize, size);
        forall p | 0 <= p < lineSize {
          dram[line * lineSize + p] := memory[line, p];
        }
        forall k | 0 <= k < dram.Length
          ensures dram[k] == if k < size && k / lineSize == line && valid[line] then flat[k] else old(dram[k])
        {
          if line * lineSize <= k < line * lineSize + lineSize {
            DivModUnique(k, lineSize, line, k - line * lineSize);
          } else {
            NotInLine(k, line, lineSize);
          }
        }
      }
    }

    lemma AllLinesFlushed(now: seq<byte>, before: seq<byte>, flat: seq<byte>)
      requires Shaped() && |flat| == size && Flushed(now, before, flat, 0, lines)
      ensures forall k :: 0 <= k < |now| ==>
                (k < size ==> k / lineSize < lines)
                && now[k] == if k < size && valid[k / lineSize] then flat[k] else before[k]
    {
      forall k | 0 <= k < size
        ensures k / lineSize < lines
      {
        LineInRange(k, lines, lineSize);
      }
    }

    /**
     * Copies every line that was written to the DRAM target, if there is one, forgets all lines
     * and turns the mode off.
     */
    method Teardown(dram: array?<byte>)
      requires Valid() && (dram != null ==> dram.Length >= size)
      modifies this, valid, dirty, dram
      ensures Valid() && !enabled && teardownComplete == (old(enabled) || old(teardownComplete))
      ensures old(enabled) && dram != null ==>
                forall k :: 0 <= k < dram.Length ==>
                  dram[k] == if k < size && old(valid[k / lineSize]) then old(Flat()[k]) else old(dram[k])
      ensures !old(enabled) && dram != null ==> dram[..] == old(dram[..])
      ensures old(enabled) ==> forall l :: 0 <= l < lines ==> !valid[l] && !dirty[l]
    {
      if !enabled {
        return;
      }
      if dram != null {
        Flush(dram);
        AllLinesFlushed(dram[..], old(dram[..]), Flat());
      }
      forall l | 0 <= l < lines {
        valid[l] := false;
      }
      forall l | 0 <= l < lines {
        dirty[l] := false;
      }
      enabled, globallyOn, teardownComplete := false, false, true;
    }
  }

  lemma LineEnd(line: nat, lines: nat, lineSize: nat, size: nat)
    requires line < lines && size == lines * lineSize
    ensures line * lineSize + lineSize <= size
  {
    assert (lines - line) * lineSize == lines * lineSize - line * lineSize;
    MulAtLeast(lines - line, lineSize);
  }

  lemma NotInLine(k: nat, line: nat, lineSize: nat)
    requires lineSize > 0 && !(line * lineSize <= k < line * lineSize + lineSize)
    ensures k / lineSize != line
  {
    assert k == k / lineSize * lineSize + k % lineSize;
  }

  // ----- What flat memory guarantees -----

  lemma SizeAtLeastLine(lines: nat, lineSize: nat, size: nat)
    requires lines > 0 && size == lines * lineSize
    ensures size >= lineSize
  {
    MulAtLeast(lines, lineSize);
  }

  lemma MultipleOfSize(k: nat, q: nat, size: nat, r: nat)
    ensures q * (k * size) + r == (q * k) * size + r
  {
    assert q * (k * size) == q * k * size;
  }

  /** Offsets that wrap around at 2^64 keep their place modulo the size. */
  lemma WrappedOffset(x: nat, size: nat)
    requires size > 0 && TWO_64 % size == 0
    ensures Low64(x) % size == x % size
  {
    var k, q := TWO_64 / size, x / TWO_64;
    var r := Low64(x);
    assert TWO_64 == k * size;
    assert x == q * TWO_64 + r;
    MultipleOfSize(k, q, size, r);
    MultipleOfSize(1, r / size, size, r % size);
    assert x == (q * k + r / size) * size + r % size;
    DivModUnique(x, size, q * k + r / size, r % size);
  }

  lemma DistinctPlaces(o: nat, i: nat, n: nat, size: nat)
    requires size > 0 && i < n < i + size
    ensures Place(o, i, size) != Place(o, n, size)
  {
    if (o + i) % size == (o + n) % size {
      var a, b := (o + i) / size, (o + n) / size;
      assert n - i == (b - a) * size;
      if b - a >= 1 {
        MulAtLeast(b - a, size);
      } else if a - b >= 1 {
        MulAtLeast(a - b, size);
      }
    }
  }

  lemma SmallModulo(i: nat, m: nat)
    requires i < m
    ensures i % m == i
  {
  }

  lemma FirstLoaded(flat: seq<byte>, n: nat)
    requires n <= |flat|
    ensures n > 0 ==> Loaded(flat, 0, n) == flat[..n]
  {
    forall i | 0 <= i < n
      ensures Place(0, i, |flat|) == i
    {
      SmallModulo(i, |flat|);
    }
  }

  // What enabling leaves at the start of the memory
  lemma PatternStored(flat: seq<byte>)
    requires |flat| >= 8
    ensures Stored(flat, 0, Bytes8(TEST_PATTERN))[..8] == [0xBE, 0xBA, 0xFE, 0xCA, 0xEF, 0xBE, 0xAD, 0xDE]
  {
    var r := Stored(flat, 0, Bytes8(TEST_PATTERN));
    LoadedAfterStored(flat, 0, Bytes8(TEST_PATTERN));
    FirstLoaded(r, 8);
    PatternBytes();
  }

  /** What was stored is loaded again. */
  lemma {:induction false} StoredHolds(flat: seq<byte>, o: nat, data: seq<byte>, i: nat)
    requires |flat| > 0 && i < |data| <= |flat|
    ensures Stored(flat, o, data)[(o + i) % |flat|] == data[i]
  {
    var n := |data| - 1;
    if i < n {
      StoredHolds(flat, o, data[..n], i);
      DistinctPlaces(o, i, n, |flat|);
    }
  }

  lemma LoadedAfterStored(flat: seq<byte>, o: nat, data: seq<byte>)
    requires |flat| > 0 && |data| <= |flat|
    ensures Loaded(Stored(flat, o, data), o, |data|) == data
  {
    forall i | 0 <= i < |data|
      ensures Loaded(Stored(flat, o, data), o, |data|)[i] == data[i]
    {
      StoredHolds(flat, o, data, i);
    }
  }

  /** Storing changes nothing else. */
  lemma {:induction false} StoredLeaves(flat: seq<byte>, o: nat, data: seq<byte>, k: nat)
    requires k < |flat|
    requires forall i :: 0 <= i < |data| ==> k != Place(o, i, |flat|)
    ensures Stored(flat, o, data)[k] == flat[k]
  {
    if data != [] {
      assert Place(o, |data| - 1, |flat|) != k;
      StoredLeaves(flat, o, data[..|data| - 1], k);
    }
  }
}
