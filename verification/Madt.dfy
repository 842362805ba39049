/** The ACPI MADT: its byte layout (section 5.2.12 of ACPI 6.5), a builder and a parser. */
module Madt {
  import opened Machine

  const MADT_MAX_ENTRIES := 64
  const ACPI_MAX_LAPIC := 256
  const ACPI_MAX_IOAPIC := 8
  const MADT_HEADER_SIZE := 44
  const LOCAL_APIC_ADDRESS: u32 := 0xFEE0_0000
  const CREATOR_ID: u32 := 0x4D49_4E49

  datatype Lapic = Lapic(acpiProcessorId: byte, apicId: byte, flags: u32)
  datatype IoApic = IoApic(ioApicId: byte, address: u32, gsiBase: u32)
  datatype IntSrcOverride = IntSrcOverride(bus: byte, source: byte, gsi: u32, flags: u16)

  // What the parser keeps of a LAPIC
  datatype LapicInfo = LapicInfo(acpiId: byte, apicId: byte, enabled: bool)

  // ----- Layout -----

  function LittleEndian32(x: u32): (b: Bytes)
    ensures |b| == 4
  {
    var x1 := x / 0x100;
    var x2 := x1 / 0x100;
    [x % 0x100, x1 % 0x100, x2 % 0x100, x2 / 0x100]
  }

  lemma Word32OfBytes(x: u32, b: Bytes, at: nat)
    requires at + 4 <= |b| && b[at..at + 4] == LittleEndian32(x)
    ensures Word32(b, at) == x
  {
    var w := LittleEndian32(x);
    assert b[at] == w[0] && b[at + 1] == w[1] && b[at + 2] == w[2] && b[at + 3] == w[3];
  }

  datatype Entry = L(lapic: Lapic) | I(ioApic: IoApic) | O(override: IntSrcOverride) {
    function Encode(): (b: Bytes)
      ensures 8 <= |b| <= 12 && b[1] == |b|
    {
      match this
      case L(l) => [0, 8, l.acpiProcessorId, l.apicId] + LittleEndian32(l.flags)
      case I(i) => [1, 12, i.ioApicId, 0] + LittleEndian32(i.address) + LittleEndian32(i.gsiBase)
      case O(o) => [2, 10, o.bus, o.source] + LittleEndian32(o.gsi) + [o.flags % 0x100, o.flags / 0x100]
    }
  }

  function EncodeAll(es: seq<Entry>): Bytes {
    if es == [] then [] else es[0].Encode() + EncodeAll(es[1..])
  }

  /** The table header (section 5.2.6) with the MADT's two own fields. */
  function TableHeader(length: u32, checksum: byte, oemId: Bytes): (b: Bytes)
    requires |oemId| == 6
    ensures |b| == MADT_HEADER_SIZE
  {
    [0x41, 0x50, 0x49, 0x43] + LittleEndian32(length) + [4, checksum] + oemId
    + [0x4D, 0x41, 0x44, 0x54, 0x20, 0x20, 0x20, 0x20]
    + LittleEndian32(1) + LittleEndian32(CREATOR_ID) + LittleEndian32(1)
    + LittleEndian32(LOCAL_APIC_ADDRESS) + LittleEndian32(0)
  }

  function LapicEntries(ls: seq<Lapic>): seq<Entry> {
    seq(|ls|, k requires 0 <= k < |ls| => L(ls[k]))
  }

  function IoApicEntries(ios: seq<IoApic>): seq<Entry> {
    seq(|ios|, k requires 0 <= k < |ios| => I(ios[k]))
  }

  function OverrideEntries(os: seq<IntSrcOverride>): seq<Entry> {
    seq(|os|, k requires 0 <= k < |os| => O(os[k]))
  }

  /** The entries of a table: at most 64 of each kind, LAPICs first. */
  function Entries(lapics: seq<Lapic>, ioApics: seq<IoApic>, overrides: seq<IntSrcOverride>): seq<Entry> {
    LapicEntries(First(lapics, MADT_MAX_ENTRIES))
    + IoApicEntries(First(ioApics, MADT_MAX_ENTRIES))
    + OverrideEntries(First(overrides, MADT_MAX_ENTRIES))
  }

  lemma {:induction false} EncodeAllBound(es: seq<Entry>)
    ensures |EncodeAll(es)| <= 12 * |es|
  {
    if es != [] {
      EncodeAllBound(es[1..]);
    }
  }

  lemma {:induction false} EncodeAllJoins(a: seq<Entry>, b: seq<Entry>)
    ensures EncodeAll(a + b) == EncodeAll(a) + EncodeAll(b)
  {
    if a == [] {
      assert a + b == b;
    } else {
      assert (a + b)[1..] == a[1..] + b;
      EncodeAllJoins(a[1..], b);
    }
  }

  // ----- Where things are in a table -----

  /** The table header, byte by byte. */
  lemma HeaderLayout(length: u32, c: byte, oemId: Bytes)
    requires |oemId| == 6
    ensures var b := TableHeader(length, c, oemId);
            && |b| == 44 && b[..4] == [0x41, 0x50, 0x49, 0x43] && Word32(b, 4) == length && b[8] == 4 && b[9] == c
            && b[10..16] == oemId && b[16..24] == [0x4D, 0x41, 0x44, 0x54, 0x20, 0x20, 0x20, 0x20]
            && Word32(b, 24) == 1 && Word32(b, 28) == 0x4D49_4E49 && Word32(b, 32) == 1
            && Word32(b, 36) == 0xFEE0_0000 && Word32(b, 40) == 0
  {
    var b := TableHeader(length, c, oemId);
    Word32OfBytes(length, b, 4);
    Word32OfBytes(1, b, 24);
    Word32OfBytes(0x4D49_4E49, b, 28);
    Word32OfBytes(1, b, 32);
    Word32OfBytes(0xFEE0_0000, b, 36);
    Word32OfBytes(0, b, 40);
  }

  /** The fields of records at their places. */
  predicate LapicAt(b: Bytes, at: nat, l: Lapic) {
    && at + 8 <= |b| && b[at] == 0 && b[at + 1] == 8
    && b[at + 2] == l.acpiProcessorId && b[at + 3] == l.apicId && Word32(b, at + 4) == l.flags
  }

  predicate IoApicAt(b: Bytes, at: nat, i: IoApic) {
    && at + 12 <= |b| && b[at] == 1 && b[at + 1] == 12 && b[at + 2] == i.ioApicId && b[at + 3] == 0
    && Word32(b, at + 4) == i.address && Word32(b, at + 8) == i.gsiBase
  }

  predicate OverrideAt(b: Bytes, at: nat, o: IntSrcOverride) {
    && at + 10 <= |b| && b[at] == 2 && b[at + 1] == 10 && b[at + 2] == o.bus && b[at + 3] == o.source
    && Word32(b, at + 4) == o.gsi && Word16(b, at + 8) == o.flags
  }

  predicate EncodedAt(b: Bytes, at: nat, e: Entry) {
    at + |e.Encode()| <= |b| && b[at..at + |e.Encode()|] == e.Encode()
  }

  lemma SubSlice(b: Bytes, at: nat, n: nat, i: nat, j: nat)
    requires at + n <= |b| && i <= j <= n
    ensures b[at + i..at + j] == b[at..at + n][i..j]
  {
    var x, y := b[at + i..at + j], b[at..at + n][i..j];
    forall k | 0 <= k < j - i
      ensures x[k] == y[k]
    {
      assert x[k] == b[at + i + k];
    }
  }

  lemma LapicFields(b: Bytes, at: nat, l: Lapic)
    requires EncodedAt(b, at, L(l))
    ensures LapicAt(b, at, l)
  {
    var r := L(l).Encode();
    assert |r| == 8 && b[at..at + 8] == r;
    assert b[at] == r[0] && b[at + 1] == r[1] && b[at + 2] == r[2] && b[at + 3] == r[3];
    SubSlice(b, at, 8, 4, 8);
    assert r[4..8] == LittleEndian32(l.flags);
    Word32OfBytes(l.flags, b, at + 4);
  }

  lemma IoApicFields(b: Bytes, at: nat, i: IoApic)
    requires EncodedAt(b, at, I(i))
    ensures IoApicAt(b, at, i)
  {
    var r := I(i).Encode();
    assert |r| == 12 && b[at..at + 12] == r;
    assert b[at] == r[0] && b[at + 1] == r[1] && b[at + 2] == r[2] && b[at + 3] == r[3];
    SubSlice(b, at, 12, 4, 8);
    SubSlice(b, at, 12, 8, 12);
    assert r[4..8] == LittleEndian32(i.address) && r[8..12] == LittleEndian32(i.gsiBase);
    Word32OfBytes(i.address, b, at + 4);
    Word32OfBytes(i.gsiBase, b, at + 8);
  }

  lemma OverrideFields(b: Bytes, at: nat, o: IntSrcOverride)
    requires EncodedAt(b, at, O(o))
    ensures OverrideAt(b, at, o)
  {
    var r := O(o).Encode();
    assert |r| == 10 && b[at..at + 10] == r;
    assert b[at] == r[0] && b[at + 1] == r[1] && b[at + 2] == r[2] && b[at + 3] == r[3];
    assert b[at + 8] == r[8] && b[at + 9] == r[9];
    SubSlice(b, at, 10, 4, 8);
    assert r[4..8] == LittleEndian32(o.gsi);
    Word32OfBytes(o.gsi, b, at + 4);
  }

  // The bytes of record `i`
  lemma RecordSlice(header: Bytes, es: seq<Entry>, i: nat)
    requires i < |es|
    ensures EncodedAt(header + EncodeAll(es), |header| + |EncodeAll(es[..i])|, es[i])
  {
    var before, r, after := EncodeAll(es[..i]), es[i].Encode(), EncodeAll(es[i + 1..]);
    assert es == es[..i + 1] + es[i + 1..];
    EncodeAllJoins(es[..i + 1], es[i + 1..]);
    NextEntry(es, i);
    SliceOf(header, before, r, after);
  }

  lemma SliceOf(a: Bytes, b: Bytes, r: Bytes, c: Bytes)
    ensures (a + ((b + r) + c))[|a| + |b|..|a| + |b| + |r|] == r
  {
  }

  // Record `n` is `e`, with `size` bytes before it
  predicate EntryPlaced(es: seq<Entry>, n: nat, size: nat, e: Entry) {
    n < |es| && es[n] == e && |EncodeAll(es[..n])| == size
  }

  lemma PlacedSlice(header: Bytes, es: seq<Entry>, n: nat, at: nat, e: Entry) returns (b: Bytes)
    requires at >= |header| && EntryPlaced(es, n, at - |header|, e)
    ensures b == header + EncodeAll(es) && EncodedAt(b, at, e)
  {
    b := header + EncodeAll(es);
    RecordSlice(header, es, n);
  }

  // The record after `i` LAPICs, `j` IOAPICs and `k` overrides
  lemma EntryAfter(lapics: seq<Lapic>, ioApics: seq<IoApic>, overrides: seq<IntSrcOverride>, i: nat, j: nat, k: nat)
    requires |lapics| <= 64 && |ioApics| <= 64 && |overrides| <= 64
    requires i <= |lapics| && j <= |ioApics| && k <= |overrides|
    requires (i < |lapics| ==> j + k == 0) && (j < |ioApics| ==> k == 0)
    requires i + j + k < |lapics| + |ioApics| + |overrides|
    ensures EntryPlaced(Entries(lapics, ioApics, overrides), i + j + k, 8 * i + 12 * j + 10 * k,
                        if i < |lapics| then L(lapics[i])
                        else if j < |ioApics| then I(ioApics[j])
                        else O(overrides[k]))
  {
    PrefixOfEntries(lapics, ioApics, overrides, i, j, k);
    EntryAt(lapics, ioApics, overrides, i + j + k);
  }

  lemma EntryAt(lapics: seq<Lapic>, ioApics: seq<IoApic>, overrides: seq<IntSrcOverride>, n: nat)
    requires |lapics| <= 64 && |ioApics| <= 64 && |overrides| <= 64
    requires n < |lapics| + |ioApics| + |overrides|
    ensures |Entries(lapics, ioApics, overrides)| == |lapics| + |ioApics| + |overrides|
    ensures Entries(lapics, ioApics, overrides)[n] ==
            if n < |lapics| then L(lapics[n])
            else if n < |lapics| + |ioApics| then I(ioApics[n - |lapics|])
            else O(overrides[n - |lapics| - |ioApics|])
  {
  }

  // The first records, and how long they are
  lemma PrefixOfEntries(lapics: seq<Lapic>, ioApics: seq<IoApic>, overrides: seq<IntSrcOverride>,
                        i: nat, j: nat, k: nat)
    requires |lapics| <= 64 && |ioApics| <= 64 && |overrides| <= 64
    requires i <= |lapics| && j <= |ioApics| && k <= |overrides|
    requires (i < |lapics| ==> j + k == 0) && (j < |ioApics| ==> k == 0)
    ensures i + j + k <= |Entries(lapics, ioApics, overrides)|
    ensures |EncodeAll(Entries(lapics, ioApics, overrides)[..i + j + k])| == 8 * i + 12 * j + 10 * k
  {
    var es, part := Entries(lapics, ioApics, overrides), Entries(lapics[..i], ioApics[..j], overrides[..k]);
    SizeOfEntries(lapics[..i], ioApics[..j], overrides[..k]);
    forall n | 0 <= n < i + j + k
      ensures es[n] == part[n]
    {
      EntryAt(lapics, ioApics, overrides, n);
      EntryAt(lapics[..i], ioApics[..j], overrides[..k], n);
    }
    assert es[..i + j + k] == part;
  }

  /** Every record that was asked for is in a built table, field by field, at its place. */
  lemma BuiltLapic(header: Bytes, lapics: seq<Lapic>, ioApics: seq<IoApic>, overrides: seq<IntSrcOverride>, i: nat)
    returns (b: Bytes)
    requires |header| == 44 && |lapics| <= 64 && |ioApics| <= 64 && |overrides| <= 64 && i < |lapics|
    ensures b == header + EncodeAll(Entries(lapics, ioApics, overrides))
    ensures LapicAt(b, 44 + 8 * i, lapics[i])
  {
    EntryAfter(lapics, ioApics, overrides, i, 0, 0);
    var at := 44 + 8 * i;
    b := PlacedSlice(header, Entries(lapics, ioApics, overrides), i, at, L(lapics[i]));
    LapicFields(b, at, lapics[i]);
  }

  lemma BuiltIoApic(header: Bytes, lapics: seq<Lapic>, ioApics: seq<IoApic>, overrides: seq<IntSrcOverride>, i: nat)
    returns (b: Bytes)
    requires |header| == 44 && |lapics| <= 64 && |ioApics| <= 64 && |overrides| <= 64 && i < |ioApics|
    ensures b == header + EncodeAll(Entries(lapics, ioApics, overrides))
    ensures IoApicAt(b, 44 + 8 * |lapics| + 12 * i, ioApics[i])
  {
    var n, at := |lapics| + i, 44 + 8 * |lapics| + 12 * i;
    EntryAfter(lapics, ioApics, overrides, |lapics|, i, 0);
    b := PlacedSlice(header, Entries(lapics, ioApics, overrides), n, at, I(ioApics[i]));
    IoApicFields(b, at, ioApics[i]);
  }

  lemma BuiltOverride(header: Bytes, lapics: seq<Lapic>, ioApics: seq<IoApic>, overrides: seq<IntSrcOverride>, i: nat)
    returns (b: Bytes)
    requires |header| == 44 && |lapics| <= 64 && |ioApics| <= 64 && |overrides| <= 64 && i < |overrides|
    ensures b == header + EncodeAll(Entries(lapics, ioApics, overrides))
    ensures OverrideAt(b, 44 + 8 * |lapics| + 12 * |ioApics| + 10 * i, overrides[i])
  {
    var n, at := |lapics| + |ioApics| + i, 44 + 8 * |lapics| + 12 * |ioApics| + 10 * i;
    EntryAfter(lapics, ioApics, overrides, |lapics|, |ioApics|, i);
    b := PlacedSlice(header, Entries(lapics, ioApics, overrides), n, at, O(overrides[i]));
    OverrideFields(b, at, overrides[i]);
  }

  // ----- Checksums -----

  function Sum(b: Bytes): nat {
    if b == [] then 0 else Sum(b[..|b| - 1]) + b[|b| - 1]
  }

  lemma {:induction false} SumJoins(a: Bytes, b: Bytes)
    ensures Sum(a + b) == Sum(a) + Sum(b)
  {
    if b == [] {
      assert a + b == a;
    } else {
      assert (a + b)[..|a + b| - 1] == a + b[..|b| - 1];
      SumJoins(a, b[..|b| - 1]);
    }
  }

  lemma SumUpdated(b: Bytes, k: nat, v: byte)
    requires k < |b|
    ensures Sum(b[k := v]) == Sum(b) - b[k] + v
  {
    var front, back := b[..k], b[k + 1..];
    assert b == front + [b[k]] + back && b[k := v] == front + [v] + back;
    SumJoins(front + [b[k]], back);
    SumJoins(front + [v], back);
    SumJoins(front, [b[k]]);
    SumJoins(front, [v]);
    assert Sum([b[k]]) == Sum([]) + b[k] && Sum([v]) == Sum([]) + v;
  }

  // Adding modulo 256 keeps the sum modulo 256
  lemma SumOfLast(b: Bytes)
    requires b != []
    ensures Sum(b) % 0x100 == (Sum(b[..|b| - 1]) % 0x100 + b[|b| - 1]) % 0x100
  {
    AddModulo(Sum(b[..|b| - 1]), b[|b| - 1]);
  }

  lemma AddModulo(sum: nat, b: byte)
    ensures (sum + b) % 0x100 == (sum % 0x100 + b) % 0x100
  {
  }

  /** The byte that makes a sum zero modulo 256. */
  method Checksum(data: array<byte>, length: nat) returns (c: byte)
    requires length <= data.Length
    ensures (Sum(data[..length]) + c) % 0x100 == 0
  {
    var sum: byte := 0;
    for i := 0 to length
      invariant sum == Sum(data[..i]) % 0x100
    {
      assert data[..i + 1][..i] == data[..i];
      SumOfLast(data[..i + 1]);
      sum := (sum + data[i]) % 0x100;
    }
    return (0x100 - sum) % 0x100;
  }

  /** Whether the bytes of a table add up to zero; an empty table does not pass. */
  method ValidateChecksum(table: array<byte>, length: nat) returns (ok: bool)
    requires length <= table.Length
    ensures ok <==> length > 0 && Sum(table[..length]) % 0x100 == 0
  {
    if length == 0 {
      return false;
    }
    var sum: byte := 0;
    for i := 0 to length
      invariant sum == Sum(table[..i]) % 0x100
    {
      assert table[..i + 1][..i] == table[..i];
      SumOfLast(table[..i + 1]);
      sum := (sum + table[i]) % 0x100;
    }
    return sum == 0;
  }

  // ----- The builder -----

  method Put(buffer: array<byte>, at: nat, data: Bytes)
    requires at + |data| <= buffer.Length
    modifies buffer
    ensures buffer[..at + |data|] == old(buffer[..at]) + data
    ensures buffer[at + |data|..] == old(buffer[at + |data|..])
  {
    forall k | 0 <= k < |data| {
      buffer[at + k] := data[k];
    }
  }

  lemma NextEntry(es: seq<Entry>, i: nat)
    requires i < |es|
    ensures EncodeAll(es[..i + 1]) == EncodeAll(es[..i]) + es[i].Encode()
    ensures EncodeAll(es[i..]) == es[i].Encode() + EncodeAll(es[i + 1..])
  {
    assert es[..i + 1] == es[..i] + [es[i]];
    EncodeAllJoins(es[..i], [es[i]]);
    assert [es[i]][1..] == [];
    assert es[i].Encode() + [] == es[i].Encode();
    assert es[i..][1..] == es[i + 1..];
  }

  method PutEntries(buffer: array<byte>, start: nat, es: seq<Entry>) returns (ep: nat)
    requires start + |EncodeAll(es)| <= buffer.Length
    modifies buffer
    ensures ep == start + |EncodeAll(es)|
    ensures buffer[..ep] == old(buffer[..start]) + EncodeAll(es)
    ensures buffer[ep..] == old(buffer[ep..])
  {
    ep := start;
    ghost var total := start + |EncodeAll(es)|;
    ghost var tail, base, done := buffer[total..], buffer[..start], [];
    assert es[0..] == es;
    for i := 0 to |es|
      invariant start <= ep && ep + |EncodeAll(es[i..])| == total
      invariant done == EncodeAll(es[..i]) && buffer[..ep] == base + done
      invariant buffer[total..] == tail
    {
      NextEntry(es, i);
      Associative(base, done, es[i].Encode());
      ep := PutEntry(buffer, ep, es[i], total);
      done := done + es[i].Encode();
    }
    assert es[..|es|] == es && es[|es|..] == [];
  }

  method PutEntry(buffer: array<byte>, ep: nat, e: Entry, ghost total: nat) returns (next: nat)
    requires ep + |e.Encode()| <= total <= buffer.Length
    modifies buffer
    ensures next == ep + |e.Encode()|
    ensures buffer[..next] == old(buffer[..ep]) + e.Encode()
    ensures buffer[total..] == old(buffer[total..])
  {
    next := ep + |e.Encode()|;
    ghost var after := buffer[next..];
    assert buffer[total..] == after[total - next..];
    Put(buffer, ep, e.Encode());
    assert buffer[total..] == after[total - next..];
  }

  /**
   * Builds the table at the front of the buffer and returns its length, or 0 and an unchanged
   * buffer when there is no room.
   */
  method Build(buffer: array<byte>, lapics: seq<Lapic>, ioApics: seq<IoApic>, overrides: seq<IntSrcOverride>,
               oemId: Option<Bytes>)
    returns (total: nat, ghost checksum: byte)
    requires buffer.Length < TWO_32 && (oemId.Some? ==> |oemId.value| == 6)
    modifies buffer
    ensures total == (var n := MADT_HEADER_SIZE + |EncodeAll(Entries(lapics, ioApics, overrides))|;
                      if n <= buffer.Length then n else 0)
    ensures total > 0 ==>
              && buffer[..total] == TableHeader(total, checksum, OemBytes(oemId))
                                    + EncodeAll(Entries(lapics, ioApics, overrides))
              && Sum(buffer[..total]) % 0x100 == 0
    ensures total == 0 ==> unchanged(buffer)
    ensures buffer[total..] == old(buffer[total..])
  {
    checksum := 0;
    if buffer.Length < MADT_HEADER_SIZE {
      return 0, 0;
    }
    var entrySize := EntrySize(lapics, ioApics, overrides);
    total := MADT_HEADER_SIZE + entrySize;
    if total > buffer.Length {
      return 0, 0;
    }
    checksum := WriteTable(buffer, total, OemBytes(oemId), Entries(lapics, ioApics, overrides));
  }

  method WriteTable(buffer: array<byte>, total: u32, oemId: Bytes, es: seq<Entry>) returns (c: byte)
    requires total == MADT_HEADER_SIZE + |EncodeAll(es)| <= buffer.Length && |oemId| == 6
    modifies buffer
    ensures buffer[..total] == TableHeader(total, c, oemId) + EncodeAll(es)
    ensures Sum(buffer[..total]) % 0x100 == 0
    ensures buffer[total..] == old(buffer[total..])
  {
    ghost var tail := buffer[total..];
    var header := TableHeader(total, 0, oemId);
    PutHeader(buffer, header, total);
    var ep := PutEntries(buffer, MADT_HEADER_SIZE, es);
    ghost var table := buffer[..total];
    c := Checksum(buffer, total);
    HeaderChecksum(total, c, oemId, EncodeAll(es));
    ChecksumCloses(table, 9, c);
    buffer[9] := c;
    assert buffer[..total] == table[9 := c];
    assert buffer[total..] == tail;
  }

  lemma ChecksumCloses(table: Bytes, k: nat, c: byte)
    requires k < |table| && table[k] == 0 && (Sum(table) + c) % 0x100 == 0
    ensures Sum(table[k := c]) % 0x100 == 0
  {
    SumUpdated(table, k, c);
  }

  method PutHeader(buffer: array<byte>, header: Bytes, ghost total: nat)
    requires |header| <= total <= buffer.Length
    modifies buffer
    ensures buffer[..|header|] == header && buffer[total..] == old(buffer[total..])
  {
    ghost var after := buffer[|header|..];
    assert buffer[total..] == after[total - |header|..];
    Put(buffer, 0, header);
    assert buffer[total..] == after[total - |header|..];
  }

  // The checksum is the byte at offset 9
  lemma HeaderChecksum(length: u32, c: byte, oemId: Bytes, rest: Bytes)
    requires |oemId| == 6
    ensures (TableHeader(length, 0, oemId) + rest)[9] == 0
    ensures (TableHeader(length, 0, oemId) + rest)[9 := c] == TableHeader(length, c, oemId) + rest
  {
    assert TableHeader(length, 0, oemId)[9 := c] == TableHeader(length, c, oemId);
  }

  function OemBytes(oemId: Option<Bytes>): (b: Bytes)
    requires oemId.Some? ==> |oemId.value| == 6
    ensures |b| == 6
  {
    if oemId.Some? then oemId.value else [0, 0, 0, 0, 0, 0]
  }

  // The size of the entries, computed from the three counts
  method EntrySize(lapics: seq<Lapic>, ioApics: seq<IoApic>, overrides: seq<IntSrcOverride>) returns (size: nat)
    ensures size == |EncodeAll(Entries(lapics, ioApics, overrides))|
    ensures size <= 64 * 30
  {
    var ls, ios := First(lapics, MADT_MAX_ENTRIES), First(ioApics, MADT_MAX_ENTRIES);
    var os := First(overrides, MADT_MAX_ENTRIES);
    size := |ls| * 8 + |ios| * 12 + |os| * 10;
    SizeOfEntries(ls, ios, os);
  }

  lemma SizeOfEntries(ls: seq<Lapic>, ios: seq<IoApic>, os: seq<IntSrcOverride>)
    ensures |EncodeAll(LapicEntries(ls) + IoApicEntries(ios) + OverrideEntries(os))| ==
            |ls| * 8 + |ios| * 12 + |os| * 10
  {
    EncodeAllJoins(LapicEntries(ls) + IoApicEntries(ios), OverrideEntries(os));
    EncodeAllJoins(LapicEntries(ls), IoApicEntries(ios));
    SizeOfKinds(LapicEntries(ls), 8);
    SizeOfKinds(IoApicEntries(ios), 12);
    SizeOfKinds(OverrideEntries(os), 10);
  }

  lemma {:induction false} SizeOfKinds(es: seq<Entry>, size: nat)
    requires forall k :: 0 <= k < |es| ==> |es[k].Encode()| == size
    ensures |EncodeAll(es)| == |es| * size
  {
    if es != [] {
      SizeOfKinds(es[1..], size);
      assert |es| * size == (|es| - 1) * size + size;
    }
  }

  // ----- The parser -----

  datatype Found = Found(lapics: seq<LapicInfo>, ioApics: seq<IoApic>)

  function InfoOf(l: Lapic): LapicInfo {
    LapicInfo(l.acpiProcessorId, l.apicId, l.flags % 2 == 1)
  }

  function Infos(ls: seq<Lapic>): seq<LapicInfo> {
    seq(|ls|, k requires 0 <= k < |ls| => InfoOf(ls[k]))
  }

  function AddLapic(f: Found, l: LapicInfo): Found {
    if |f.lapics| < ACPI_MAX_LAPIC then Found(f.lapics + [l], f.ioApics) else f
  }

  function AddIoApic(f: Found, i: IoApic): Found {
    if |f.ioApics| < ACPI_MAX_IOAPIC then Found(f.lapics, f.ioApics + [i]) else f
  }

  // The bytes that the parser reads of an entry, whatever length the entry gives
  function EntryReads(kind: byte, f: Found): nat {
    if kind == 0 && |f.lapics| < ACPI_MAX_LAPIC then 8
    else if kind == 1 && |f.ioApics| < ACPI_MAX_IOAPIC then 12
    else if kind == 2 then 8
    else 2
  }

  predicate ReadsEntry(rest: Bytes, f: Found) {
    |rest| >= 2 && EntryReads(rest[0], f) <= |rest|
  }

  function ParseEntry(rest: Bytes, f: Found): Found
    requires ReadsEntry(rest, f)
  {
    if rest[0] == 0 && |f.lapics| < ACPI_MAX_LAPIC then
      AddLapic(f, LapicInfo(rest[2], rest[3], Word32(rest, 4) % 2 == 1))
    else if rest[0] == 1 && |f.ioApics| < ACPI_MAX_IOAPIC then
      AddIoApic(f, IoApic(rest[2], Word32(rest, 4), Word32(rest, 8)))
    else f
  }

  // What is left of the memory, nothing beyond its end
  function Drop(b: Bytes, k: nat): Bytes {
    if k <= |b| then b[k..] else []
  }

  /** Parsing the entries in the first `n` bytes reads nothing beyond the memory that is left. */
  predicate ReadsInside(rest: Bytes, n: nat, f: Found)
    decreases n
  {
    n < 2
    || (|rest| >= 2
        && (rest[1] == 0 || rest[1] > n
            || (ReadsEntry(rest, f) && ReadsInside(Drop(rest, rest[1]), n - rest[1], ParseEntry(rest, f)))))
  }

  /** The entries in the first `n` bytes, stopping at an entry of length 0 or one that overruns. */
  function ParseEntries(rest: Bytes, n: nat, f: Found): Found
    requires ReadsInside(rest, n, f)
    decreases n
  {
    if n < 2 || rest[1] == 0 || rest[1] > n then f
    else ParseEntries(Drop(rest, rest[1]), n - rest[1], ParseEntry(rest, f))
  }

  /** A table header, and records that are parsed within the memory. */
  predicate Readable(mem: Bytes) {
    && |mem| >= MADT_HEADER_SIZE && Word32(mem, 4) <= 0xFFFF_FF00
    && (Word32(mem, 4) >= MADT_HEADER_SIZE ==>
          ReadsInside(mem[MADT_HEADER_SIZE..], Word32(mem, 4) - MADT_HEADER_SIZE, Found([], [])))
  }

  /** What a table holds; nothing when its length ends inside the header. */
  function ParseTable(mem: Bytes): Found
    requires Readable(mem)
  {
    if Word32(mem, 4) < MADT_HEADER_SIZE then Found([], [])
    else ParseEntries(mem[MADT_HEADER_SIZE..], Word32(mem, 4) - MADT_HEADER_SIZE, Found([], []))
  }

  // ----- Records of any type -----

  /** A record whose second byte is its length, and which is long enough for what is read of it. */
  predicate IsRecord(r: Bytes) {
    && |r| >= 2 && r[1] == |r|
    && (r[0] == 0 || r[0] == 2 ==> |r| >= 8) && (r[0] == 1 ==> |r| >= 12)
  }

  predicate AllRecords(rs: seq<Bytes>) {
    forall i :: 0 <= i < |rs| ==> IsRecord(rs[i])
  }

  function Concat(rs: seq<Bytes>): Bytes {
    if rs == [] then [] else rs[0] + Concat(rs[1..])
  }

  /** The LAPICs among the records, in order. */
  function LapicsIn(rs: seq<Bytes>): seq<LapicInfo>
    requires AllRecords(rs)
  {
    if rs == [] then []
    else if rs[0][0] == 0 then [LapicInfo(rs[0][2], rs[0][3], rs[0][4] % 2 == 1)] + LapicsIn(rs[1..])
    else LapicsIn(rs[1..])
  }

  /** The IOAPICs among the records, in order. */
  function IoApicsIn(rs: seq<Bytes>): seq<IoApic>
    requires AllRecords(rs)
  {
    if rs == [] then []
    else if rs[0][0] == 1 then [IoApic(rs[0][2], Word32(rs[0], 4), Word32(rs[0], 8))] + IoApicsIn(rs[1..])
    else IoApicsIn(rs[1..])
  }

  /** Bytes on which the parser stops: too few for a record, or a length of zero or beyond them. */
  predicate Stops(tail: Bytes) {
    |tail| < 2 || tail[1] == 0 || tail[1] > |tail|
  }

  lemma WordParity(b: Bytes, at: nat)
    requires at + 4 <= |b|
    ensures Word32(b, at) % 2 == b[at] % 2
  {
  }

  lemma FirstOfMore<T>(x: T, s: seq<T>, kept: seq<T>, limit: nat)
    requires |kept| <= limit
    ensures kept + First([x] + s, limit - |kept|) ==
            if |kept| < limit then (kept + [x]) + First(s, limit - |kept| - 1) else kept + First(s, 0)
  {
  }

  // One record in front of what is left
  lemma ParseRecord(r: Bytes, more: Bytes, n: nat, f: Found)
    requires IsRecord(r)
    ensures ReadsEntry(r + more, f)
    ensures ParseEntry(r + more, f) ==
            if r[0] == 0 then AddLapic(f, LapicInfo(r[2], r[3], r[4] % 2 == 1))
            else if r[0] == 1 then AddIoApic(f, IoApic(r[2], Word32(r, 4), Word32(r, 8)))
            else f
    ensures ReadsInside(more, n, ParseEntry(r + more, f)) ==> ReadsInside(r + more, |r| + n, f)
    ensures ReadsInside(more, n, ParseEntry(r + more, f)) ==>
              ParseEntries(r + more, |r| + n, f) == ParseEntries(more, n, ParseEntry(r + more, f))
  {
    var b := r + more;
    assert b[..|r|] == r;
    assert Drop(b, |r|) == more;
    if |r| >= 8 {
      assert b[4] == r[4] && b[5] == r[5] && b[6] == r[6] && b[7] == r[7];
      WordParity(r, 4);
    }
    if |r| >= 12 {
      assert b[8] == r[8] && b[9] == r[9] && b[10] == r[10] && b[11] == r[11];
    }
  }

  // What is found with the records in front, the limits of 256 and 8 included
  function FoundWith(f: Found, rs: seq<Bytes>): Found
    requires AllRecords(rs) && |f.lapics| <= 256 && |f.ioApics| <= 8
  {
    Found(f.lapics + First(LapicsIn(rs), 256 - |f.lapics|), f.ioApics + First(IoApicsIn(rs), 8 - |f.ioApics|))
  }

  lemma FoundWithFirst(f: Found, rs: seq<Bytes>, next: Found)
    requires AllRecords(rs) && rs != [] && |f.lapics| <= 256 && |f.ioApics| <= 8
    requires next == if rs[0][0] == 0 then AddLapic(f, LapicInfo(rs[0][2], rs[0][3], rs[0][4] % 2 == 1))
                     else if rs[0][0] == 1 then AddIoApic(f, IoApic(rs[0][2], Word32(rs[0], 4), Word32(rs[0], 8)))
                     else f
    ensures |next.lapics| <= 256 && |next.ioApics| <= 8 && FoundWith(next, rs[1..]) == FoundWith(f, rs)
  {
    if rs[0][0] == 0 {
      FirstOfMore(LapicInfo(rs[0][2], rs[0][3], rs[0][4] % 2 == 1), LapicsIn(rs[1..]), f.lapics, 256);
    } else if rs[0][0] == 1 {
      FirstOfMore(IoApic(rs[0][2], Word32(rs[0], 4), Word32(rs[0], 8)), IoApicsIn(rs[1..]), f.ioApics, 8);
    }
  }

  /** Parsing the entries in the first `n` bytes stays inside the memory and gives `g`. */
  predicate Parses(b: Bytes, n: nat, f: Found, g: Found) {
    ReadsInside(b, n, f) && ParseEntries(b, n, f) == g
  }

  lemma StopsThere(tail: Bytes, after: Bytes, f: Found)
    requires Stops(tail)
    ensures Parses(tail + after, |tail|, f, f)
  {
  }

  // A record in front, and what is found with it
  lemma RecordParses(rs: seq<Bytes>, more: Bytes, n: nat, f: Found) returns (next: Found)
    requires AllRecords(rs) && rs != [] && |f.lapics| <= 256 && |f.ioApics| <= 8
    ensures |next.lapics| <= 256 && |next.ioApics| <= 8 && FoundWith(next, rs[1..]) == FoundWith(f, rs)
    ensures Parses(more, n, next, FoundWith(next, rs[1..])) ==>
              Parses(rs[0] + more, |rs[0]| + n, f, FoundWith(f, rs))
  {
    ParseRecord(rs[0], more, n, f);
    next := ParseEntry(rs[0] + more, f);
    FoundWithFirst(f, rs, next);
  }

  lemma FirstRecord(rs: seq<Bytes>, rest: Bytes, n: nat)
    requires rs != []
    ensures Concat(rs) + rest == rs[0] + (Concat(rs[1..]) + rest)
    ensures |Concat(rs)| + n == |rs[0]| + (|Concat(rs[1..])| + n)
  {
  }

  lemma NoRecords(tail: Bytes, after: Bytes, f: Found)
    requires Stops(tail) && |f.lapics| <= 256 && |f.ioApics| <= 8
    ensures Parses(Concat([]) + (tail + after), |Concat([])| + |tail|, f, FoundWith(f, []))
  {
    assert Concat([]) + (tail + after) == tail + after;
    assert f.lapics + [] == f.lapics && f.ioApics + [] == f.ioApics;
    StopsThere(tail, after, f);
  }

  /**
   * Parsing records of any types collects the LAPICs and IOAPICs among them, in order and up to
   * the limits, and stops at a tail that is no record; nothing after it is read.
   */
  lemma {:induction false} ParseAnyRecords(rs: seq<Bytes>, tail: Bytes, after: Bytes, f: Found)
    requires AllRecords(rs) && Stops(tail) && |f.lapics| <= 256 && |f.ioApics| <= 8
    ensures Parses(Concat(rs) + (tail + after), |Concat(rs)| + |tail|, f, FoundWith(f, rs))
    decreases |rs|
  {
    if rs == [] {
      NoRecords(tail, after, f);
    } else {
      var more, n := Concat(rs[1..]) + (tail + after), |Concat(rs[1..])| + |tail|;
      FirstRecord(rs, tail + after, |tail|);
      var next := RecordParses(rs, more, n, f);
      ParseAnyRecords(rs[1..], tail, after, next);
      assert Parses(rs[0] + more, |rs[0]| + n, f, FoundWith(f, rs));
    }
  }

  /** A table of any records parses to the LAPICs and IOAPICs among them. */
  lemma TableOfAnyRecords(mem: Bytes, rs: seq<Bytes>, tail: Bytes, after: Bytes)
    requires AllRecords(rs) && Stops(tail) && |mem| >= 44
    requires mem[44..] == Concat(rs) + (tail + after)
    requires Word32(mem, 4) == 44 + |Concat(rs)| + |tail| <= 0xFFFF_FF00
    ensures Readable(mem)
    ensures ParseTable(mem) == Found(First(LapicsIn(rs), 256), First(IoApicsIn(rs), 8))
  {
    ParseAnyRecords(rs, tail, after, Found([], []));
    FoundFromNothing(rs);
    TableParses(mem, FoundWith(Found([], []), rs));
  }

  lemma FoundFromNothing(rs: seq<Bytes>)
    requires AllRecords(rs)
    ensures FoundWith(Found([], []), rs) == Found(First(LapicsIn(rs), 256), First(IoApicsIn(rs), 8))
  {
    assert [] + First(LapicsIn(rs), 256) == First(LapicsIn(rs), 256);
    assert [] + First(IoApicsIn(rs), 8) == First(IoApicsIn(rs), 8);
  }

  lemma TableParses(mem: Bytes, g: Found)
    requires |mem| >= 44 && 44 <= Word32(mem, 4) <= 0xFFFF_FF00
    requires Parses(mem[44..], Word32(mem, 4) - 44, Found([], []), g)
    ensures Readable(mem) && ParseTable(mem) == g
  {
  }

  /** A record of another type, such as a local APIC NMI, does not hide a LAPIC behind it. */
  lemma OtherRecordHidesNothing(other: Bytes, lapic: Bytes, after: Bytes)
    requires IsRecord(other) && other[0] > 1 && IsRecord(lapic) && lapic[0] == 0
    ensures Parses(other + (lapic + after), |other| + |lapic|, Found([], []),
                   Found([LapicInfo(lapic[2], lapic[3], lapic[4] % 2 == 1)], []))
  {
    OneRecord(lapic);
    FoundFromNothing([lapic]);
    ParseAnyRecords([lapic], [], after, Found([], []));
    assert [] + after == after;
    OtherRecordChangesNothing(other, lapic + after, |lapic|, Found([], []));
  }

  lemma OneRecord(r: Bytes)
    requires IsRecord(r)
    ensures Concat([r]) == r
    ensures LapicsIn([r]) == if r[0] == 0 then [LapicInfo(r[2], r[3], r[4] % 2 == 1)] else []
    ensures r[0] != 1 ==> IoApicsIn([r]) == []
  {
    assert [r][1..] == [];
  }

  /** Stepping over a record of another type changes nothing. */
  lemma OtherRecordChangesNothing(r: Bytes, more: Bytes, n: nat, f: Found)
    requires IsRecord(r) && r[0] > 1 && ReadsInside(more, n, f)
    ensures ReadsInside(r + more, |r| + n, f)
    ensures ParseEntries(r + more, |r| + n, f) == ParseEntries(more, n, f)
  {
    ParseRecord(r, more, n, f);
  }

  /** Ten bytes after any records are enough. */
  lemma {:induction false} TenMoreAreEnough(rest: Bytes, n: nat, f: Found)
    requires n + 10 <= |rest|
    ensures ReadsInside(rest, n, f)
    decreases n
  {
    if n >= 2 && 0 < rest[1] <= n {
      TenMoreAreEnough(rest[rest[1]..], n - rest[1], ParseEntry(rest, f));
    }
  }

  /** A LAPIC record that states a length of 2, at the end of the memory, is read beyond it. */
  lemma ShortRecordReadsBeyond(f: Found)
    ensures |f.lapics| < ACPI_MAX_LAPIC ==> !ReadsInside([0, 2], 2, f)
    ensures |f.lapics| >= ACPI_MAX_LAPIC ==> ReadsInside([0, 2], 2, f)
  {
  }

  function CollectOne(e: Entry, f: Found): Found {
    match e
    case L(l) => AddLapic(f, InfoOf(l))
    case I(i) => AddIoApic(f, i)
    case O(_) => f
  }

  function Collect(es: seq<Entry>, f: Found): Found
    decreases |es|
  {
    if es == [] then f
    else
      Collect(es[1..], CollectOne(es[0], f))
  }

  lemma ParseEncodedEntry(e: Entry, rest: Bytes, f: Found)
    ensures ReadsEntry(e.Encode() + rest, f) && ParseEntry(e.Encode() + rest, f) == CollectOne(e, f)
  {
    var b := e.Encode() + rest;
    match e
    case L(l) =>
      assert b[4..8] == LittleEndian32(l.flags);
      Word32OfBytes(l.flags, b, 4);
    case I(i) =>
      assert b[4..8] == LittleEndian32(i.address) && b[8..12] == LittleEndian32(i.gsiBase);
      Word32OfBytes(i.address, b, 4);
      Word32OfBytes(i.gsiBase, b, 8);
    case O(_) =>
  }

  /** Parsing encoded entries collects them, and reads nothing after them. */
  lemma {:induction false} ParseEncoded(es: seq<Entry>, after: Bytes, f: Found)
    ensures ReadsInside(EncodeAll(es) + after, |EncodeAll(es)|, f)
    ensures ParseEntries(EncodeAll(es) + after, |EncodeAll(es)|, f) == Collect(es, f)
    decreases |es|
  {
    if es != [] {
      var b, more := es[0].Encode(), EncodeAll(es[1..]) + after;
      assert EncodeAll(es) + after == b + more;
      assert (b + more)[|b|..] == more;
      ParseEncodedEntry(es[0], more, f);
      ParseEncoded(es[1..], after, ParseEntry(b + more, f));
    }
  }

  lemma {:induction false} CollectJoins(a: seq<Entry>, b: seq<Entry>, f: Found)
    ensures Collect(a + b, f) == Collect(b, Collect(a, f))
    decreases |a|
  {
    if a == [] {
      assert a + b == b;
    } else {
      assert (a + b)[1..] == a[1..] + b && (a + b)[0] == a[0];
      CollectJoins(a[1..], b, CollectOne(a[0], f));
    }
  }

  lemma {:induction false} CollectLapics(ls: seq<Lapic>, f: Found)
    requires |f.lapics| + |ls| <= ACPI_MAX_LAPIC
    ensures Collect(LapicEntries(ls), f) ==
            Found(f.lapics + Infos(ls), f.ioApics)
    decreases |ls|
  {
    var es := LapicEntries(ls);
    var infos := Infos(ls);
    if ls == [] {
      assert f.lapics + infos == f.lapics;
    } else {
      var rest := ls[1..];
      CollectLapics(rest, AddLapic(f, InfoOf(ls[0])));
      assert es[1..] == LapicEntries(rest);
      assert f.lapics + infos == f.lapics + [InfoOf(ls[0])] + Infos(rest);
    }
  }

  lemma {:induction false} CollectIoApics(ios: seq<IoApic>, f: Found)
    requires |f.ioApics| <= ACPI_MAX_IOAPIC
    ensures Collect(IoApicEntries(ios), f) ==
            Found(f.lapics, f.ioApics + First(ios, ACPI_MAX_IOAPIC - |f.ioApics|))
    decreases |ios|
  {
    var es := IoApicEntries(ios);
    if ios == [] {
      assert f.ioApics + [] == f.ioApics;
    } else {
      var rest, next := ios[1..], AddIoApic(f, ios[0]);
      CollectIoApics(rest, next);
      assert es[1..] == IoApicEntries(rest);
      var room := ACPI_MAX_IOAPIC - |f.ioApics|;
      if room > 0 {
        assert [ios[0]] + First(rest, room - 1) == First(ios, room);
        assert f.ioApics + [ios[0]] + First(rest, room - 1) == f.ioApics + First(ios, room);
      } else {
        assert First(rest, 0) == First(ios, 0);
      }
    }
  }

  lemma {:induction false} CollectOverrides(os: seq<IntSrcOverride>, f: Found)
    ensures Collect(OverrideEntries(os), f) == f
    decreases |os|
  {
    if os != [] {
      var rest := os[1..];
      CollectOverrides(rest, f);
      assert OverrideEntries(os)[1..] == OverrideEntries(rest);
    }
  }

  /** What the parser finds among the entries of a built table. */
  lemma CollectEntries(lapics: seq<Lapic>, ioApics: seq<IoApic>, overrides: seq<IntSrcOverride>)
    ensures var ls := First(lapics, MADT_MAX_ENTRIES);
            Collect(Entries(lapics, ioApics, overrides), Found([], [])) ==
            Found(Infos(ls), First(ioApics, ACPI_MAX_IOAPIC))
  {
    var ls, ios := First(lapics, MADT_MAX_ENTRIES), First(ioApics, MADT_MAX_ENTRIES);
    var os := First(overrides, MADT_MAX_ENTRIES);
    var a := LapicEntries(ls);
    var b := IoApicEntries(ios);
    var c := OverrideEntries(os);
    CollectJoins(a + b, c, Found([], []));
    CollectJoins(a, b, Found([], []));
    CollectLapics(ls, Found([], []));
    var f := Collect(a, Found([], []));
    assert f.lapics == Infos(ls);
    CollectIoApics(ios, f);
    assert [] + First(ios, ACPI_MAX_IOAPIC) == First(ioApics, ACPI_MAX_IOAPIC);
    CollectOverrides(os, Collect(b, f));
  }

  class AcpiSystemInfo {
    var localApicAddress: u32
    var picMode: bool
    const lapics: array<LapicInfo>
    const ioApics: array<IoApic>
    var lapicCount: nat
    var ioApicCount: nat

    ghost predicate Valid()
      reads this
    {
      && lapics.Length == ACPI_MAX_LAPIC && ioApics.Length == ACPI_MAX_IOAPIC
      && lapicCount <= ACPI_MAX_LAPIC && ioApicCount <= ACPI_MAX_IOAPIC
    }

    ghost function Contents(): Found
      requires Valid()
      reads this, lapics, ioApics
    {
      Found(lapics[..lapicCount], ioApics[..ioApicCount])
    }

    constructor ()
      ensures Valid() && fresh(lapics) && fresh(ioApics)
    {
      localApicAddress, picMode, lapicCount, ioApicCount := 0, false, 0, 0;
      lapics := new LapicInfo[ACPI_MAX_LAPIC](_ => LapicInfo(0, 0, false));
      ioApics := new IoApic[ACPI_MAX_IOAPIC](_ => IoApic(0, 0, 0));
    }

    /** Parses the table at the start of `mem`. */
    method ParseMadt(mem: Bytes) returns (ok: bool)
      requires Valid() && Readable(mem)
      modifies this, lapics, ioApics
      ensures Valid() && ok
      ensures localApicAddress == Word32(mem, 36) && picMode == (mem[40] % 2 == 1)
      ensures Contents() == ParseTable(mem)
    {
      var length := Word32(mem, 4);
      localApicAddress := Word32(mem, 36);
      picMode := mem[40] % 2 == 1;
      var offset: u32 := MADT_HEADER_SIZE;
      lapicCount, ioApicCount := 0, 0;
      ghost var goal := ParseTable(mem);
      assert Contents() == Found([], []);
      while offset + 2 <= length
        invariant Valid() && MADT_HEADER_SIZE <= offset && (offset <= length || length < MADT_HEADER_SIZE)
        invariant length >= MADT_HEADER_SIZE ==> ReadsInside(Drop(mem, offset), length - offset, Contents())
        invariant goal == if length < MADT_HEADER_SIZE then Contents()
                          else ParseEntries(Drop(mem, offset), length - offset, Contents())
        invariant localApicAddress == Word32(mem, 36) && picMode == (mem[40] % 2 == 1)
        decreases length - offset
      {
        var entryLength := mem[offset + 1];
        if entryLength == 0 {
          break;
        }
        if offset + entryLength > length {
          break;
        }
        ghost var rest := mem[offset..];
        KeepEntry(mem, offset);
        offset := offset + entryLength;
        assert Drop(rest, entryLength) == Drop(mem, offset);
      }
      return true;
    }

    method KeepEntry(mem: Bytes, offset: nat)
      requires Valid() && offset <= |mem| && ReadsEntry(mem[offset..], Contents())
      modifies this`lapicCount, this`ioApicCount, lapics, ioApics
      ensures Valid() && Contents() == ParseEntry(mem[offset..], old(Contents()))
    {
      ghost var f := Contents();
      ghost var rest := mem[offset..];
      assert |rest| >= 8 ==> Word32(rest, 4) == Word32(mem, offset + 4);
      assert |rest| >= 12 ==> Word32(rest, 8) == Word32(mem, offset + 8);
      if mem[offset] == 0 {
        if lapicCount < ACPI_MAX_LAPIC {
          lapics[lapicCount] := LapicInfo(mem[offset + 2], mem[offset + 3], Word32(mem, offset + 4) % 2 == 1);
          lapicCount := lapicCount + 1;
          assert lapics[..lapicCount] == f.lapics + [lapics[lapicCount - 1]];
        }
      } else if mem[offset] == 1 {
        if ioApicCount < ACPI_MAX_IOAPIC {
          ioApics[ioApicCount] := IoApic(mem[offset + 2], Word32(mem, offset + 4), Word32(mem, offset + 8));
          ioApicCount := ioApicCount + 1;
          assert ioApics[..ioApicCount] == f.ioApics + [ioApics[ioApicCount - 1]];
        }
      }
    }
  }

  /** The table in `mem` is parsed, without reading beyond `mem`, to these LAPICs and IOAPICs. */
  predicate ParsesTo(mem: Bytes, lapics: seq<Lapic>, ioApics: seq<IoApic>) {
    && Readable(mem) && Word32(mem, 36) == LOCAL_APIC_ADDRESS && mem[40] % 2 == 0
    && ParseTable(mem) == Found(Infos(First(lapics, 64)), First(ioApics, 8))
  }

  /**
   * A built table, whatever follows it, is parsed to its LAPICs and, as far as the parser has
   * room, its IOAPICs, in order; overrides are stepped over.
   */
  lemma BuildParseRoundTrip(lapics: seq<Lapic>, ioApics: seq<IoApic>, overrides: seq<IntSrcOverride>,
                            c: byte, oemId: Bytes, after: Bytes)
    requires |oemId| == 6
    ensures var es := EncodeAll(Entries(lapics, ioApics, overrides));
            && MADT_HEADER_SIZE + |es| < TWO_32
            && ParsesTo(TableHeader(MADT_HEADER_SIZE + |es|, c, oemId) + es + after, lapics, ioApics)
  {
    var entries := Entries(lapics, ioApics, overrides);
    var es := EncodeAll(entries);
    EncodeAllBound(entries);
    var length := MADT_HEADER_SIZE + |es|;
    HeaderFields(length, c, oemId, es, after);
    RecordsParse(TableHeader(length, c, oemId) + es + after, es, after, lapics, ioApics, overrides);
  }

  /** What one program builds into a buffer, even one it fills, the other one reads back. */
  method BuildAndParse(buffer: array<byte>, lapics: seq<Lapic>, ioApics: seq<IoApic>, overrides: seq<IntSrcOverride>,
                       oemId: Option<Bytes>, info: AcpiSystemInfo)
    returns (total: nat)
    requires info.Valid() && buffer.Length < TWO_32 && (oemId.Some? ==> |oemId.value| == 6)
    modifies buffer, info, info.lapics, info.ioApics
    ensures info.Valid() && total <= buffer.Length
    ensures total == 0 <==> MADT_HEADER_SIZE + |EncodeAll(Entries(lapics, ioApics, overrides))| > buffer.Length
    ensures total > 0 ==>
              info.Contents() == Found(Infos(First(lapics, 64)), First(ioApics, 8))
  {
    ghost var checksum;
    total, checksum := Build(buffer, lapics, ioApics, overrides, oemId);
    if total > 0 {
      var mem := buffer[..];
      assert mem == buffer[..total] + mem[total..];
      BuildParseRoundTrip(lapics, ioApics, overrides, checksum, OemBytes(oemId), mem[total..]);
      var ok := info.ParseMadt(mem);
    }
  }

  lemma RecordsParse(mem: Bytes, es: Bytes, after: Bytes,
                     lapics: seq<Lapic>, ioApics: seq<IoApic>, overrides: seq<IntSrcOverride>)
    requires |mem| >= MADT_HEADER_SIZE && |es| <= 0x1_0000 && es == EncodeAll(Entries(lapics, ioApics, overrides))
    requires Word32(mem, 4) == MADT_HEADER_SIZE + |es| && mem[MADT_HEADER_SIZE..] == es + after
    requires Word32(mem, 36) == LOCAL_APIC_ADDRESS && mem[40] == 0
    ensures ParsesTo(mem, lapics, ioApics)
  {
    ParseEncoded(Entries(lapics, ioApics, overrides), after, Found([], []));
    CollectEntries(lapics, ioApics, overrides);
  }

  lemma HeaderFields(length: u32, c: byte, oemId: Bytes, es: Bytes, after: Bytes)
    requires |oemId| == 6
    ensures var mem := TableHeader(length, c, oemId) + es + after;
            && Word32(mem, 4) == length && Word32(mem, 36) == LOCAL_APIC_ADDRESS && mem[40] == 0
            && mem[MADT_HEADER_SIZE..] == es + after
  {
    var header := TableHeader(length, c, oemId);
    var mem := header + es + after;
    assert header[4..8] == LittleEndian32(length) && header[36..40] == LittleEndian32(LOCAL_APIC_ADDRESS);
    assert mem[4..8] == header[4..8] && mem[36..40] == header[36..40];
    Word32OfBytes(length, mem, 4);
    Word32OfBytes(LOCAL_APIC_ADDRESS, mem, 36);
  }
}
