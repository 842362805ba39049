/** Scanning a UEFI firmware volume for its files (sections 2 and 3.2 of UEFI PI Volume 3). */
module FirmwareVolume {
  import opened Machine

  const FV_SIGNATURE: u32 := 0x4856465F
  const FV_HEADER_SIZE := 56
  const FFS_FILE_HEADER_SIZE := 24
  const FFS_STATE_VALID_FILE: byte := 0x07
  const FFS_STATE_ERASED: byte := 0xFF

  // ----- The volume header -----

  function Word64(b: Bytes, at: nat): u64
    requires at + 8 <= |b|
  {
    Word32(b, at) + Word32(b, at + 4) * 0x1_0000_0000
  }

  function FvLength(fv: Bytes): u64
    requires |fv| >= FV_HEADER_SIZE
  {
    Word64(fv, 32)
  }

  function HeaderLength(fv: Bytes): u16
    requires |fv| >= FV_HEADER_SIZE
  {
    Word16(fv, 48)
  }

  /** Sum of the first `n` 16-bit words. */
  function WordSum(b: Bytes, n: nat): nat
    requires 2 * n <= |b|
  {
    if n == 0 then 0 else WordSum(b, n - 1) + Word16(b, 2 * n - 2)
  }

  // The words that the header checksum covers
  function HeaderWords(fv: Bytes): nat
    requires |fv| >= FV_HEADER_SIZE
  {
    if HeaderLength(fv) / 2 == 0 then FV_HEADER_SIZE / 2 else HeaderLength(fv) / 2
  }

  /** The checksum stays inside the header. */
  predicate ChecksumInside(fv: Bytes) {
    |fv| >= FV_HEADER_SIZE && HeaderWords(fv) <= FV_HEADER_SIZE / 2
  }

  /** The volume can be scanned: its end is inside the buffer and below 2^32. */
  predicate Scannable(fv: Bytes) {
    && ChecksumInside(fv)
    && FvLength(fv) <= |fv| && FvLength(fv) < TWO_32 - 0x200_0000
  }

  predicate ValidHeader(fv: Bytes)
    requires ChecksumInside(fv)
  {
    && (forall i :: 0 <= i < 16 ==> fv[i] == 0)
    && Word32(fv, 40) == FV_SIGNATURE
    && WordSum(fv, HeaderWords(fv)) % 0x1_0000 == 0
  }

  // The sums of the bytes of the first `n` words at even and at odd places
  function ByteSum(b: Bytes, n: nat, odd: nat): nat
    requires 2 * n <= |b| && odd < 2
  {
    if n == 0 then 0 else ByteSum(b, n - 1, odd) + b[2 * n - 2 + odd]
  }

  lemma {:induction false} WordSumOfBytes(b: Bytes, n: nat)
    requires 2 * n <= |b|
    ensures WordSum(b, n) == ByteSum(b, n, 0) + 0x100 * ByteSum(b, n, 1)
  {
    if n > 0 {
      WordSumOfBytes(b, n - 1);
    }
  }

  lemma SignatureBytes(fv: Bytes)
    requires |fv| >= FV_HEADER_SIZE
    ensures Word32(fv, 40) == FV_SIGNATURE <==> fv[40] == 0x5F && fv[41] == 0x46 && fv[42] == 0x56 && fv[43] == 0x48
  {
  }

  /** What a valid header is, byte by byte: 16 zeros, "_FVH", and words that add up to zero. */
  lemma HeaderBytes(fv: Bytes)
    requires ChecksumInside(fv)
    ensures var half := ((fv[48] as int) + (fv[49] as int) * 0x100) / 2;
            var n := if half == 0 then 28 else half;
            && 2 * n <= |fv|
            && (ValidHeader(fv) <==>
                  && (forall i :: 0 <= i < 16 ==> fv[i] == 0)
                  && fv[40] == 0x5F && fv[41] == 0x46 && fv[42] == 0x56 && fv[43] == 0x48
                  && (ByteSum(fv, n, 0) + 0x100 * ByteSum(fv, n, 1)) % 0x1_0000 == 0)
  {
    SignatureBytes(fv);
    WordSumOfBytes(fv, HeaderWords(fv));
  }

  method ParseHeader(fv: Bytes) returns (ok: bool)
    requires ChecksumInside(fv)
    ensures ok <==> ValidHeader(fv)
  {
    for i := 0 to 16
      invariant forall k :: 0 <= k < i ==> fv[k] == 0
    {
      if fv[i] != 0 {
        return false;
      }
    }
    ok := IsValid(fv);
  }

  method IsValid(fv: Bytes) returns (ok: bool)
    requires ChecksumInside(fv)
    ensures ok <==> Word32(fv, 40) == FV_SIGNATURE && WordSum(fv, HeaderWords(fv)) % 0x1_0000 == 0
  {
    if Word32(fv, 40) != FV_SIGNATURE {
      return false;
    }
    var words := HeaderLength(fv) / 2;
    if words == 0 {
      words := FV_HEADER_SIZE / 2;
    }
    var sum := SumWords(fv, words);
    return sum == 0;
  }

  method SumWords(b: Bytes, n: nat) returns (sum: u16)
    requires 2 * n <= |b|
    ensures sum == WordSum(b, n) % 0x1_0000
  {
    sum := 0;
    for i := 0 to n
      invariant sum == WordSum(b, i) % 0x1_0000
    {
      NextWord(b, i);
      sum := (sum + Word16(b, 2 * i)) % 0x1_0000;
    }
  }

  // Adding modulo 2^16 keeps the sum modulo 2^16
  lemma NextWord(b: Bytes, i: nat)
    requires 2 * i + 2 <= |b|
    ensures WordSum(b, i + 1) % 0x1_0000 == (WordSum(b, i) % 0x1_0000 + Word16(b, 2 * i)) % 0x1_0000
  {
    assert WordSum(b, i + 1) == WordSum(b, i) + Word16(b, 2 * i);
  }

  // ----- Files -----

  datatype FileEntry = FileEntry(guid: Bytes, fileType: byte, offset: nat, size: nat, state: byte)

  /** The 24-bit size in the file header at an index. */
  function FileSize(b: Bytes, at: nat): (size: nat)
    requires at + FFS_FILE_HEADER_SIZE <= |b|
    ensures size < 0x100_0000
  {
    (b[at + 20] as int) + (b[at + 21] as int) * 0x100 + (b[at + 22] as int) * 0x1_0000
  }

  predicate IsValidState(state: byte) {
    state % 0x80 == FFS_STATE_VALID_FILE
  }

  function Align8(n: nat): nat {
    if n % 8 != 0 then n + 8 - n % 8 else n
  }

  function EntryAt(b: Bytes, at: nat, offset: nat): FileEntry
    requires at + FFS_FILE_HEADER_SIZE <= |b|
  {
    FileEntry(b[at..at + 16], b[at + 18], offset, FileSize(b, at), b[at + 23])
  }

  // The entry for the file header at an index, if its state is valid
  function Found(b: Bytes, at: nat, offset: nat): (found: seq<FileEntry>)
    requires at + FFS_FILE_HEADER_SIZE <= |b|
    ensures |found| <= 1
  {
    if IsValidState(b[at + 23]) then [EntryAt(b, at, offset)] else []
  }

  // The distance from a file header to the next one, unless its size ends the scan
  function Jump(rest: Bytes): (jump: Option<nat>)
    requires |rest| >= FFS_FILE_HEADER_SIZE
    ensures jump.Some? ==> jump.value >= FFS_FILE_HEADER_SIZE
  {
    if FileSize(rest, 0) < FFS_FILE_HEADER_SIZE then None else Some(Align8(FileSize(rest, 0)))
  }

  /** The entries found from `offset` on, where `rest` is what is left of the volume. */
  function ScanRest(rest: Bytes, offset: nat, room: nat): seq<FileEntry>
    decreases |rest|, 1
  {
    if |rest| < FFS_FILE_HEADER_SIZE || room == 0 then []
    else if rest[23] == FFS_STATE_ERASED then ScanRest(rest[8..], offset + 8, room)
    else
      Found(rest, 0, offset) + ScanAfter(rest, Jump(rest), offset, room - |Found(rest, 0, offset)|)
  }

  function ScanAfter(rest: Bytes, jump: Option<nat>, offset: nat, room: nat): seq<FileEntry>
    requires jump.Some? ==> jump.value > 0
    decreases |rest|, 0
  {
    if jump.None? || jump.value > |rest| then []
    else ScanRest(rest[jump.value..], offset + jump.value, room)
  }

  // ----- The same scan, by offsets into the volume -----

  function ScanAt(fv: Bytes, end: nat, offset: nat, room: nat): seq<FileEntry>
    requires end <= |fv|
    decreases end - offset
  {
    if offset + FFS_FILE_HEADER_SIZE > end || room == 0 then []
    else if fv[offset + 23] == FFS_STATE_ERASED then ScanAt(fv, end, offset + 8, room)
    else
      var found, size := Found(fv, offset, offset), FileSize(fv, offset);
      if size < FFS_FILE_HEADER_SIZE then found
      else found + ScanAt(fv, end, Align8(offset + size), room - |found|)
  }

  lemma DropSlice(b: Bytes, from: nat, to: nat, k: nat)
    requires from + k <= to <= |b|
    ensures b[from..to][k..] == b[from + k..to]
  {
  }

  // A file header seen from the volume and from the rest of it
  lemma SameHeader(fv: Bytes, end: nat, offset: nat)
    requires offset + FFS_FILE_HEADER_SIZE <= end <= |fv|
    ensures var rest := fv[offset..end];
            && rest[23] == fv[offset + 23] && FileSize(rest, 0) == FileSize(fv, offset)
            && Found(rest, 0, offset) == Found(fv, offset, offset)
  {
    assert fv[offset..end][..16] == fv[offset..offset + 16];
  }

  // The two scans agree from an offset on
  predicate Agree(fv: Bytes, end: nat, offset: nat, room: nat)
    requires end <= |fv|
  {
    offset <= end ==> ScanAt(fv, end, offset, room) == ScanRest(fv[offset..end], offset, room)
  }

  lemma AgreeErased(fv: Bytes, end: nat, offset: nat, room: nat)
    requires offset + FFS_FILE_HEADER_SIZE <= end <= |fv| && fv[offset + 23] == FFS_STATE_ERASED
    requires Agree(fv, end, offset + 8, room)
    ensures Agree(fv, end, offset, room)
  {
    DropSlice(fv, offset, end, 8);
  }

  lemma AgreeAfter(fv: Bytes, end: nat, offset: nat, room: nat)
    requires offset + FFS_FILE_HEADER_SIZE <= end <= |fv| && offset % 8 == 0
    requires FileSize(fv, offset) >= FFS_FILE_HEADER_SIZE
    requires Agree(fv, end, Align8(offset + FileSize(fv, offset)), room)
    ensures var rest := fv[offset..end];
            ScanAt(fv, end, Align8(offset + FileSize(fv, offset)), room) == ScanAfter(rest, Jump(rest), offset, room)
  {
    var next := Align8(FileSize(fv, offset));
    Align8Jump(offset, FileSize(fv, offset));
    SameHeader(fv, end, offset);
    if offset + next <= end {
      DropSlice(fv, offset, end, next);
    }
  }

  lemma AgreeFile(fv: Bytes, end: nat, offset: nat, room: nat)
    requires offset + FFS_FILE_HEADER_SIZE <= end <= |fv| && offset % 8 == 0 && room > 0
    requires fv[offset + 23] != FFS_STATE_ERASED && FileSize(fv, offset) >= FFS_FILE_HEADER_SIZE
    requires Agree(fv, end, Align8(offset + FileSize(fv, offset)), room - |Found(fv, offset, offset)|)
    ensures Agree(fv, end, offset, room)
  {
    var found, rest := Found(fv, offset, offset), fv[offset..end];
    SameHeader(fv, end, offset);
    ScanRestStep(rest, offset, room, found);
    AgreeAfter(fv, end, offset, room - |found|);
    ScanAtStep(fv, end, offset, room, ScanAfter(rest, Jump(rest), offset, room - |found|));
  }

  lemma AgreeLastFile(fv: Bytes, end: nat, offset: nat, room: nat)
    requires offset + FFS_FILE_HEADER_SIZE <= end <= |fv| && room > 0
    requires fv[offset + 23] != FFS_STATE_ERASED && FileSize(fv, offset) < FFS_FILE_HEADER_SIZE
    ensures Agree(fv, end, offset, room)
  {
    var found, rest := Found(fv, offset, offset), fv[offset..end];
    SameHeader(fv, end, offset);
    ScanRestStep(rest, offset, room, found);
    assert found + [] == found;
  }

  lemma ScanRestStep(rest: Bytes, offset: nat, room: nat, found: seq<FileEntry>)
    requires |rest| >= FFS_FILE_HEADER_SIZE && room > 0 && rest[23] != FFS_STATE_ERASED
    requires found == Found(rest, 0, offset)
    ensures ScanRest(rest, offset, room) == found + ScanAfter(rest, Jump(rest), offset, room - |found|)
  {
  }

  lemma {:induction false} ScanAtIsScanRest(fv: Bytes, end: nat, offset: nat, room: nat)
    requires offset <= end <= |fv| && offset % 8 == 0
    ensures ScanAt(fv, end, offset, room) == ScanRest(fv[offset..end], offset, room)
    decreases end - offset
  {
    if offset + FFS_FILE_HEADER_SIZE <= end && room > 0 {
      if fv[offset + 23] == FFS_STATE_ERASED {
        ScanAtIsScanRest(fv, end, offset + 8, room);
        AgreeErased(fv, end, offset, room);
      } else if FileSize(fv, offset) < FFS_FILE_HEADER_SIZE {
        AgreeLastFile(fv, end, offset, room);
      } else {
        var next := Align8(offset + FileSize(fv, offset));
        Align8Jump(offset, FileSize(fv, offset));
        if next <= end {
          ScanAtIsScanRest(fv, end, next, room - |Found(fv, offset, offset)|);
        }
        AgreeFile(fv, end, offset, room);
      }
    }
  }

  // A scan by offsets, too, finds a catalog
  lemma ScanAtIsCatalog(fv: Bytes, end: nat, start: nat, offset: nat, room: nat)
    requires end <= |fv| && start <= offset && offset % 8 == 0
    ensures IsCatalog(ScanAt(fv, end, offset, room), start, end, room)
  {
    if offset <= end {
      ScanAtIsScanRest(fv, end, offset, room);
      ScanIsCatalog(fv[offset..end], offset, room);
      CatalogFromLater(ScanAt(fv, end, offset, room), start, offset, end, room);
    }
  }

  /** The catalog of a volume. */
  function ScanVolume(fv: Bytes, room: nat): seq<FileEntry>
    requires Scannable(fv)
  {
    if ValidHeader(fv) then ScanAt(fv, FvLength(fv), Align8(HeaderLength(fv)), room) else []
  }

  // ----- Layout -----

  /** Entries of valid files at aligned offsets from `start` on, each starting after the end of the one before. */
  predicate LaidOut(entries: seq<FileEntry>, start: nat, end: nat) {
    entries == []
    || (var e := entries[0];
        && start <= e.offset && e.offset % 8 == 0 && e.offset + FFS_FILE_HEADER_SIZE <= end
        && IsValidState(e.state)
        && (|entries| > 1 ==> e.size >= FFS_FILE_HEADER_SIZE)
        && LaidOut(entries[1..], e.offset + e.size, end))
  }

  /** No two entries of a layout overlap, and all headers lie inside. */
  lemma {:induction false} LaidOutApart(entries: seq<FileEntry>, start: nat, end: nat, j: nat)
    requires LaidOut(entries, start, end) && j < |entries|
    ensures start <= entries[j].offset && entries[j].offset % 8 == 0
    ensures entries[j].offset + FFS_FILE_HEADER_SIZE <= end
    ensures entries[j].state == 0x07 || entries[j].state == 0x87
    ensures forall i :: 0 <= i < j ==>
              entries[i].size >= FFS_FILE_HEADER_SIZE && entries[i].offset + entries[i].size <= entries[j].offset
  {
    if j > 0 {
      var e, more := entries[0], entries[1..];
      LaidOutApart(more, e.offset + e.size, end, j - 1);
      forall i | 0 < i < j
        ensures entries[i].size >= FFS_FILE_HEADER_SIZE && entries[i].offset + entries[i].size <= entries[j].offset
      {
        assert entries[i] == more[i - 1];
      }
    }
  }

  /** Only the last entry of a layout can run past its end. */
  lemma OnlyLastRunsOver(entries: seq<FileEntry>, start: nat, end: nat, i: nat)
    requires LaidOut(entries, start, end) && i + 1 < |entries|
    ensures entries[i].offset + entries[i].size + FFS_FILE_HEADER_SIZE <= end
  {
    LaidOutApart(entries, start, end, i + 1);
  }

  // A scan result within its limits
  predicate IsCatalog(entries: seq<FileEntry>, start: nat, end: nat, room: nat) {
    LaidOut(entries, start, end) && |entries| <= room
  }

  lemma CatalogFromLater(entries: seq<FileEntry>, start: nat, next: nat, end: nat, room: nat)
    requires IsCatalog(entries, next, end, room) && start <= next
    ensures IsCatalog(entries, start, end, room)
  {
  }

  lemma CatalogWithEntry(e: FileEntry, more: seq<FileEntry>, start: nat, next: nat, end: nat, room: nat)
    requires IsCatalog(more, next, end, room) && IsValidState(e.state)
    requires e.offset == start && start % 8 == 0 && start + FFS_FILE_HEADER_SIZE <= end
    requires FFS_FILE_HEADER_SIZE <= e.size && start + e.size <= next
    ensures IsCatalog([e] + more, start, end, room + 1)
  {
    CatalogFromLater(more, start + e.size, next, end, room);
    assert ([e] + more)[1..] == more;
  }

  // The jump to the next file keeps the alignment
  lemma Align8Jump(offset: nat, size: nat)
    requires offset % 8 == 0
    ensures Align8(offset + size) == offset + Align8(size) && Align8(offset + size) % 8 == 0
    ensures size <= Align8(size) < size + 8
  {
  }

  // What the rest of a scan adds to the entry found first
  lemma CatalogAfter(rest: Bytes, offset: nat, more: seq<FileEntry>, end: nat, room: nat)
    requires |rest| >= FFS_FILE_HEADER_SIZE && offset % 8 == 0 && offset + |rest| == end
    requires |Found(rest, 0, offset)| <= room
    requires if Jump(rest).None? then more == []
             else IsCatalog(more, offset + Jump(rest).value, end, room - |Found(rest, 0, offset)|)
    ensures IsCatalog(Found(rest, 0, offset) + more, offset, end, room)
  {
    if Found(rest, 0, offset) == [] {
      assert [] + more == more;
    } else if Jump(rest).Some? {
      Align8Jump(offset, FileSize(rest, 0));
      CatalogWithEntry(EntryAt(rest, 0, offset), more, offset, offset + Jump(rest).value, end, room - 1);
    } else {
      assert Found(rest, 0, offset) + more == [EntryAt(rest, 0, offset)];
      assert [EntryAt(rest, 0, offset)][1..] == [];
    }
  }

  /** Whatever the bytes, the entries found do not overlap, are valid files and fit the catalog. */
  lemma {:induction false} ScanIsCatalog(rest: Bytes, offset: nat, room: nat)
    requires offset % 8 == 0
    ensures IsCatalog(ScanRest(rest, offset, room), offset, offset + |rest|, room)
    decreases |rest|
  {
    if |rest| >= FFS_FILE_HEADER_SIZE && room > 0 {
      var end := offset + |rest|;
      if rest[23] == FFS_STATE_ERASED {
        ScanIsCatalog(rest[8..], offset + 8, room);
        CatalogFromLater(ScanRest(rest[8..], offset + 8, room), offset, offset + 8, end, room);
      } else {
        var left, jump := room - |Found(rest, 0, offset)|, Jump(rest);
        if jump.Some? && jump.value <= |rest| {
          Align8Jump(offset, FileSize(rest, 0));
          ScanIsCatalog(rest[jump.value..], offset + jump.value, left);
        }
        CatalogAfter(rest, offset, ScanAfter(rest, jump, offset, left), end, room);
      }
    }
  }

  // ----- Printing -----

  datatype File = File(guid: Bytes, integrity: Bytes, fileType: byte, attributes: byte, state: byte, body: Bytes) {
    predicate Valid() {
      && |guid| == 16 && |integrity| == 2 && state != 0xFF
      && FFS_FILE_HEADER_SIZE + |body| < 0x100_0000
    }

    /** The states of a valid file; bit 7 is not looked at. */
    predicate Listed() {
      state == 0x07 || state == 0x87
    }

    function Size(): nat {
      FFS_FILE_HEADER_SIZE + |body|
    }

    function Header(): (b: Bytes)
      requires Valid()
      ensures |b| == FFS_FILE_HEADER_SIZE
    {
      var n := Size();
      guid + integrity + [fileType, attributes, n % 0x100, n / 0x100 % 0x100, n / 0x1_0000, state]
    }

    // Erased bytes fill up to the next 8-byte boundary
    function Print(): (b: Bytes)
      requires Valid()
      ensures |b| == Align8(Size())
    {
      Header() + body + Erased(Align8(Size()) - Size())
    }

    function Entry(offset: nat): FileEntry {
      FileEntry(guid, fileType, offset, Size(), state)
    }
  }

  lemma ValidStates(state: byte)
    ensures IsValidState(state) <==> state == 0x07 || state == 0x87
  {
  }

  function Erased(n: nat): Bytes {
    seq(n, _ => 0xFF)
  }

  /** A file with `gap` erased 8-byte units before it. */
  datatype Placed = Placed(gap: nat, file: File) {
    function Print(): Bytes
      requires file.Valid()
    {
      Erased(8 * gap) + file.Print()
    }

    function Size(): nat {
      8 * gap + Align8(file.Size())
    }

    // The entry of the file, if it is to be listed
    function Entries(offset: nat): (entries: seq<FileEntry>)
      ensures |entries| <= 1
    {
      if file.Listed() then [file.Entry(offset + 8 * gap)] else []
    }

    // In the last two units of a gap, the byte that the scan takes for a state is one of the file's GUID
    predicate GapIsSkipped()
      requires file.Valid()
    {
      && (gap > 0 ==> file.guid[15] == 0xFF)
      && (gap > 1 ==> file.guid[7] == 0xFF)
    }
  }

  predicate AllValid(items: seq<Placed>) {
    forall i :: 0 <= i < |items| ==> items[i].file.Valid()
  }

  /** The gaps are skipped before the files that the scan reaches, until it has listed `room` of them. */
  predicate GapsSkipped(items: seq<Placed>, room: nat)
    requires AllValid(items)
  {
    items == [] || room == 0
    || (items[0].GapIsSkipped() && GapsSkipped(items[1..], room - |items[0].Entries(0)|))
  }

  /** Gaps are only before files that are to be listed. */
  predicate GapsBeforeListed(items: seq<Placed>) {
    forall i :: 0 <= i < |items| && items[i].gap > 0 ==> items[i].file.Listed()
  }

  function PrintAll(items: seq<Placed>): Bytes
    requires AllValid(items)
  {
    if items == [] then [] else items[0].Print() + PrintAll(items[1..])
  }

  /** The entries of the files to be listed, in order. */
  function EntriesOf(items: seq<Placed>, offset: nat): seq<FileEntry> {
    if items == [] then [] else items[0].Entries(offset) + EntriesOf(items[1..], offset + items[0].Size())
  }

  lemma {:induction false} ErasedHasNoFiles(n: nat, offset: nat, room: nat)
    ensures ScanRest(Erased(n), offset, room) == []
  {
    if n >= FFS_FILE_HEADER_SIZE && room > 0 {
      assert Erased(n)[8..] == Erased(n - 8);
      ErasedHasNoFiles(n - 8, offset + 8, room);
    }
  }

  lemma SizeBytes(n: nat)
    requires n < 0x100_0000
    ensures n % 0x100 + n / 0x100 % 0x100 * 0x100 + n / 0x1_0000 * 0x1_0000 == n
  {
  }

  lemma PrintedFile(f: File, rest: Bytes, offset: nat)
    requires f.Valid()
    ensures var b := f.Print() + rest;
            && |b| >= FFS_FILE_HEADER_SIZE
            && FileSize(b, 0) == f.Size() && b[23] == f.state && EntryAt(b, 0, offset) == f.Entry(offset)
            && b[Align8(f.Size())..] == rest
  {
    var b := f.Print() + rest;
    var n := f.Size();
    assert b[..24] == f.Header();
    assert b[20] == f.Header()[20] == n % 0x100;
    assert b[21] == f.Header()[21] == n / 0x100 % 0x100;
    assert b[22] == f.Header()[22] == n / 0x1_0000;
    assert b[23] == f.Header()[23] && b[18] == f.Header()[18];
    assert b[..16] == f.guid;
    SizeBytes(n);
  }

  lemma ScanOneFile(f: File, rest: Bytes, offset: nat, room: nat)
    requires f.Valid() && room > 0
    ensures ScanRest(f.Print() + rest, offset, room) ==
            Placed(0, f).Entries(offset)
            + ScanRest(rest, offset + Align8(f.Size()), room - |Placed(0, f).Entries(offset)|)
  {
    var b, found := f.Print() + rest, Placed(0, f).Entries(offset);
    PrintedFile(f, rest, offset);
    ValidStates(f.state);
    assert Found(b, 0, offset) == found;
    assert Jump(b) == Some(Align8(f.Size()));
    ScanRestStep(b, offset, room, found);
  }

  // ----- Gaps -----

  // What the scan sees at the start of a gap
  lemma GapBytes(gap: nat, f: File, rest: Bytes)
    requires f.Valid() && gap > 0
    ensures var b := Erased(8 * gap) + (f.Print() + rest);
            && |b| >= FFS_FILE_HEADER_SIZE
            && b[8..] == Erased(8 * (gap - 1)) + (f.Print() + rest)
            && b[23] == if gap == 1 then f.guid[15] else if gap == 2 then f.guid[7] else 0xFF
  {
    assert Erased(8 * gap)[8..] == Erased(8 * (gap - 1));
    assert (f.Print() + rest)[..16] == f.guid;
  }

  lemma {:induction false} SkipGap(gap: nat, f: File, rest: Bytes, offset: nat, room: nat)
    requires f.Valid() && room > 0 && Placed(gap, f).GapIsSkipped()
    ensures ScanRest(Erased(8 * gap) + (f.Print() + rest), offset, room) ==
            ScanRest(f.Print() + rest, offset + 8 * gap, room)
    decreases gap
  {
    if gap == 0 {
      assert Erased(0) + (f.Print() + rest) == f.Print() + rest;
    } else {
      GapBytes(gap, f, rest);
      SkipGap(gap - 1, f, rest, offset + 8, room);
    }
  }

  predicate NoEntryAt(entries: seq<FileEntry>, at: nat) {
    forall i :: 0 <= i < |entries| ==> entries[i].offset != at
  }

  // What a scan takes for a file header carries it past the next 24 bytes
  lemma PassedOver(b: Bytes, offset: nat, room: nat, at: nat)
    requires |b| >= FFS_FILE_HEADER_SIZE && room > 0 && b[23] != FFS_STATE_ERASED
    requires offset % 8 == 0 && offset < at < offset + FFS_FILE_HEADER_SIZE
    ensures NoEntryAt(ScanRest(b, offset, room), at)
  {
    var found, jump := Found(b, 0, offset), Jump(b);
    var later := ScanAfter(b, jump, offset, room - |found|);
    ScanRestStep(b, offset, room, found);
    if jump.Some? && jump.value <= |b| {
      Align8Jump(offset, FileSize(b, 0));
      NoEarlierEntry(b[jump.value..], offset + jump.value, room - |found|, at);
    }
    assert forall i :: 0 <= i < |found + later| ==>
                         (found + later)[i] == if i < |found| then found[i] else later[i - |found|];
  }

  lemma NoEarlierEntry(rest: Bytes, offset: nat, room: nat, at: nat)
    requires offset % 8 == 0 && at < offset
    ensures NoEntryAt(ScanRest(rest, offset, room), at)
  {
    var entries := ScanRest(rest, offset, room);
    ScanIsCatalog(rest, offset, room);
    forall i | 0 <= i < |entries|
      ensures entries[i].offset != at
    {
      LaidOutApart(entries, offset, offset + |rest|, i);
    }
  }

  // A gap that is not skipped hides the file behind it
  lemma {:induction false} HiddenFile(gap: nat, f: File, rest: Bytes, offset: nat, room: nat)
    requires f.Valid() && room > 0 && !Placed(gap, f).GapIsSkipped() && offset % 8 == 0
    ensures NoEntryAt(ScanRest(Erased(8 * gap) + (f.Print() + rest), offset, room), offset + 8 * gap)
    decreases gap
  {
    var b := Erased(8 * gap) + (f.Print() + rest);
    GapBytes(gap, f, rest);
    if b[23] == FFS_STATE_ERASED {
      HiddenFile(gap - 1, f, rest, offset + 8, room);
    } else {
      PassedOver(b, offset, room, offset + 8 * gap);
    }
  }

  lemma ScanFirstItem(item: Placed, rest: Bytes, offset: nat, room: nat)
    requires item.file.Valid() && room > 0 && offset % 8 == 0
    ensures item.GapIsSkipped() ==>
              ScanRest(item.Print() + rest, offset, room) ==
              item.Entries(offset) + ScanRest(rest, offset + item.Size(), room - |item.Entries(offset)|)
    ensures !item.GapIsSkipped() ==> NoEntryAt(ScanRest(item.Print() + rest, offset, room), offset + 8 * item.gap)
  {
    assert item.Print() + rest == Erased(8 * item.gap) + (item.file.Print() + rest);
    if item.GapIsSkipped() {
      SkipGap(item.gap, item.file, rest, offset, room);
      ScanOneFile(item.file, rest, offset + 8 * item.gap, room);
      assert Placed(0, item.file).Entries(offset + 8 * item.gap) == item.Entries(offset);
    } else {
      HiddenFile(item.gap, item.file, rest, offset, room);
    }
  }

  // ----- The round trip -----

  lemma FirstItem(items: seq<Placed>, erased: nat)
    requires AllValid(items) && items != []
    ensures PrintAll(items) + Erased(erased) == items[0].Print() + (PrintAll(items[1..]) + Erased(erased))
  {
  }

  lemma SamePrefix<T>(x: seq<T>, s: seq<T>, t: seq<T>)
    ensures x + s == x + t <==> s == t
  {
    assert (x + s)[|x|..] == s && (x + t)[|x|..] == t;
  }

  lemma FirstJoins<T>(x: seq<T>, s: seq<T>, n: nat)
    requires |x| <= n
    ensures First(x + s, n) == x + First(s, n - |x|)
  {
  }

  // The entries are those of the items, up to the file limit
  predicate Lists(entries: seq<FileEntry>, items: seq<Placed>, offset: nat, room: nat) {
    entries == First(EntriesOf(items, offset), room)
  }

  lemma ListsFirst(more: seq<FileEntry>, items: seq<Placed>, offset: nat, room: nat)
    requires items != [] && room > 0
    ensures var e := items[0].Entries(offset);
            Lists(e + more, items, offset, room) <==> Lists(more, items[1..], offset + items[0].Size(), room - |e|)
  {
    var e, later := items[0].Entries(offset), EntriesOf(items[1..], offset + items[0].Size());
    FirstJoins(e, later, room);
    SamePrefix(e, more, First(later, room - |e|));
  }

  lemma ListsNothingElse(entries: seq<FileEntry>, items: seq<Placed>, offset: nat, room: nat)
    requires items != [] && room > 0 && items[0].file.Listed() && NoEntryAt(entries, offset + 8 * items[0].gap)
    ensures !Lists(entries, items, offset, room)
  {
    var e, later := items[0].Entries(offset), EntriesOf(items[1..], offset + items[0].Size());
    FirstJoins(e, later, room);
    assert First(EntriesOf(items, offset), room)[0] == e[0];
  }

  // What the first item decides about the entries found, `scan`, of which `more` come after it
  predicate Decides(item: Placed, scan: seq<FileEntry>, more: seq<FileEntry>, offset: nat)
    requires item.file.Valid()
  {
    if item.GapIsSkipped() then scan == item.Entries(offset) + more else NoEntryAt(scan, offset + 8 * item.gap)
  }

  lemma ListsAfterItem(scan: seq<FileEntry>, more: seq<FileEntry>, items: seq<Placed>, offset: nat, room: nat)
    requires AllValid(items) && items != [] && room > 0 && Decides(items[0], scan, more, offset)
    ensures items[0].GapIsSkipped() ==>
              (Lists(scan, items, offset, room) <==>
               Lists(more, items[1..], offset + items[0].Size(), room - |items[0].Entries(offset)|))
    ensures !items[0].GapIsSkipped() && items[0].file.Listed() ==> !Lists(scan, items, offset, room)
  {
    if items[0].GapIsSkipped() {
      ListsFirst(more, items, offset, room);
    } else if items[0].file.Listed() {
      ListsNothingElse(scan, items, offset, room);
    }
  }

  // A scan of flash that holds the items left, as a function of the offset and the file limit
  type Scan = (seq<Placed>, nat, nat) -> seq<FileEntry>

  predicate ScansFirst(scan: Scan, items: seq<Placed>, offset: nat, room: nat) {
    && (items == [] || room == 0 ==> scan(items, offset, room) == [])
    && (items != [] && room > 0 && items[0].file.Valid() && offset % 8 == 0 ==>
          Decides(items[0], scan(items, offset, room), AfterFirst(scan, items, offset, room), offset))
  }

  // The scan of the items after the first one
  function AfterFirst(scan: Scan, items: seq<Placed>, offset: nat, room: nat): seq<FileEntry>
    requires items != [] && room > 0
  {
    scan(items[1..], offset + items[0].Size(), room - |items[0].Entries(offset)|)
  }

  lemma {:induction false} ListsExactly(scan: Scan, items: seq<Placed>, offset: nat, room: nat)
    requires AllValid(items) && offset % 8 == 0
    requires forall its: seq<Placed>, o: nat, r: nat {:trigger ScansFirst(scan, its, o, r)} ::
               AllValid(its) ==> ScansFirst(scan, its, o, r)
    ensures GapsSkipped(items, room) ==> Lists(scan(items, offset, room), items, offset, room)
    ensures GapsBeforeListed(items) && Lists(scan(items, offset, room), items, offset, room) ==>
              GapsSkipped(items, room)
    decreases |items|
  {
    assert ScansFirst(scan, items, offset, room);
    if items != [] && room > 0 {
      var left := room - |items[0].Entries(offset)|;
      ListsAfterItem(scan(items, offset, room), AfterFirst(scan, items, offset, room), items, offset, room);
      Align8Jump(0, items[0].file.Size());
      ListsExactly(scan, items[1..], offset + items[0].Size(), left);
      assert GapsBeforeListed(items) ==> GapsBeforeListed(items[1..]);
    }
  }

  // The scan of flash that holds the items and ends in `erased` erased bytes
  function FlashScan(erased: nat): Scan {
    (items: seq<Placed>, offset: nat, room: nat) =>
      if AllValid(items) then ScanRest(PrintAll(items) + Erased(erased), offset, room) else []
  }

  lemma FlashScansFirst(items: seq<Placed>, erased: nat, offset: nat, room: nat)
    requires AllValid(items)
    ensures ScansFirst(FlashScan(erased), items, offset, room)
  {
    if items == [] {
      EmptyFlash(items, erased, offset, room);
    } else if room == 0 {
      assert FlashScan(erased)(items, offset, room) == [];
    } else if offset % 8 == 0 {
      FlashDecides(items, erased, offset, room);
    }
  }

  lemma EmptyFlash(items: seq<Placed>, erased: nat, offset: nat, room: nat)
    requires items == []
    ensures FlashScan(erased)(items, offset, room) == []
  {
    assert PrintAll(items) + Erased(erased) == Erased(erased);
    ErasedHasNoFiles(erased, offset, room);
  }

  lemma FlashDecides(items: seq<Placed>, erased: nat, offset: nat, room: nat)
    requires AllValid(items) && items != [] && room > 0 && offset % 8 == 0
    ensures Decides(items[0], FlashScan(erased)(items, offset, room),
                    AfterFirst(FlashScan(erased), items, offset, room), offset)
  {
    var tail, left := PrintAll(items[1..]) + Erased(erased), room - |items[0].Entries(offset)|;
    FirstItem(items, erased);
    ScanFirstItem(items[0], tail, offset, room);
    assert AfterFirst(FlashScan(erased), items, offset, room) == ScanRest(tail, offset + items[0].Size(), left);
  }

  /**
   * Scanning printed files, with any erased gaps before them and erased flash at the end, finds
   * those to be listed in order, up to the file limit, when the gaps before the files it reaches
   * are skipped; and only then, if no gap is before a file that is not listed.
   */
  lemma ScanRoundTrip(items: seq<Placed>, erased: nat, offset: nat, room: nat)
    requires AllValid(items) && offset % 8 == 0
    ensures var entries := ScanRest(PrintAll(items) + Erased(erased), offset, room);
            && (GapsSkipped(items, room) ==> Lists(entries, items, offset, room))
            && (GapsBeforeListed(items) && Lists(entries, items, offset, room) ==> GapsSkipped(items, room))
  {
    var scan := FlashScan(erased);
    forall its: seq<Placed>, o: nat, r: nat {:trigger ScansFirst(scan, its, o, r)} | AllValid(its)
      ensures ScansFirst(scan, its, o, r)
    {
      FlashScansFirst(its, erased, o, r);
    }
    ListsExactly(scan, items, offset, room);
  }

  // A driver file without content whose GUID is all zeros
  const ZERO_GUID_FILE := File(seq(16, _ => 0), [0, 0], 0x07, 0, 0x07, [])

  // The header of a volume of 88 bytes: no file system GUID, length, signature, header length, checksum
  function SmallHeader(): (header: Bytes)
    ensures |header| == FV_HEADER_SIZE
  {
    seq(32, _ => 0) + [0x58, 0, 0, 0, 0, 0, 0, 0] + [0x5F, 0x46, 0x56, 0x48] + [0, 0, 0, 0]
    + [0x38, 0] + [0xBB, 0x70] + [0, 0, 0, 0]
  }

  lemma {:induction false} ZeroWords(b: Bytes, n: nat)
    requires 2 * n <= |b| && forall i :: 0 <= i < 2 * n ==> b[i] == 0
    ensures WordSum(b, n) == 0
  {
    if n > 0 {
      ZeroWords(b, n - 1);
    }
  }

  lemma SmallHeaderIsValid(rest: Bytes)
    requires |rest| == 32
    ensures var fv := SmallHeader() + rest;
            Scannable(fv) && ValidHeader(fv) && HeaderLength(fv) == FV_HEADER_SIZE && FvLength(fv) == |fv|
  {
    var fv := SmallHeader() + rest;
    ZeroWords(fv, 16);
    assert WordSum(fv, 18) == 0x58;
    assert WordSum(fv, 20) == 0x58;
    assert WordSum(fv, 22) == 0x58 + 0x465F + 0x4856;
    assert WordSum(fv, 24) == 0x58 + 0x465F + 0x4856;
    assert WordSum(fv, 26) == 0x1_0000;
    assert WordSum(fv, 28) == 0x1_0000;
  }

  /** A volume of 88 bytes with a file that states a size of 2^24 - 1 bytes, which the scan takes. */
  lemma LastFileRunsOver(room: nat) returns (fv: Bytes)
    requires room > 0
    ensures |fv| == 88 && Scannable(fv) && ValidHeader(fv) && FvLength(fv) == |fv|
    ensures ScanVolume(fv, room) == [FileEntry(seq(16, _ => 0), 0x07, FV_HEADER_SIZE, 0xFF_FFFF, 0x07)]
  {
    var guid: Bytes := seq(16, _ => 0);
    var file: Bytes := guid + [0, 0, 0x07, 0, 0xFF, 0xFF, 0xFF, FFS_STATE_VALID_FILE] + seq(8, _ => 0);
    fv := SmallHeader() + file;
    SmallHeaderIsValid(file);
    assert fv[FV_HEADER_SIZE..FV_HEADER_SIZE + 16] == guid;
    assert fv[FV_HEADER_SIZE + 18] == 0x07 && fv[FV_HEADER_SIZE + 23] == FFS_STATE_VALID_FILE;
    ScanRunsOver(fv, |fv|, FV_HEADER_SIZE, room);
  }

  // A file header whose size reaches beyond the end is the last one
  lemma ScanRunsOver(fv: Bytes, end: nat, offset: nat, room: nat)
    requires offset + FFS_FILE_HEADER_SIZE <= end <= |fv| && room > 0 && IsValidState(fv[offset + 23])
    requires offset + FileSize(fv, offset) >= end
    ensures ScanAt(fv, end, offset, room) == [EntryAt(fv, offset, offset)]
  {
    var next := Align8(offset + FileSize(fv, offset));
    assert next >= end;
    assert ScanAt(fv, end, next, room - 1) == [];
  }

  /** Eight erased bytes are enough to hide a file: a volume that holds one, and scans to nothing. */
  lemma GapHidesFile(room: nat) returns (fv: Bytes)
    ensures ZERO_GUID_FILE.Valid() && fv == SmallHeader() + Placed(1, ZERO_GUID_FILE).Print()
    ensures Scannable(fv) && ValidHeader(fv) && FvLength(fv) == |fv|
    ensures ScanVolume(fv, room) == []
  {
    var content := Placed(1, ZERO_GUID_FILE).Print();
    fv := SmallHeader() + content;
    assert content == Erased(8) + (ZERO_GUID_FILE.Header() + [] + Erased(0));
    assert |content| == 32 && content[20] == 0 && content[23] == 0;
    SmallHeaderIsValid(content);
  }

  /**
   * The same for a volume with a valid header, with the files from the first multiple of 8 that
   * is not below the header length, and up to the volume length.
   */
  lemma VolumeRoundTrip(fv: Bytes, start: nat, items: seq<Placed>, erased: nat, room: nat)
    requires Scannable(fv) && ValidHeader(fv) && AllValid(items)
    requires start % 8 == 0 && HeaderLength(fv) <= start < HeaderLength(fv) + 8 && start <= FvLength(fv)
    requires fv[start..FvLength(fv)] == PrintAll(items) + Erased(erased)
    ensures var entries := ScanVolume(fv, room);
            && (GapsSkipped(items, room) ==> Lists(entries, items, start, room))
            && (GapsBeforeListed(items) && Lists(entries, items, start, room) ==> GapsSkipped(items, room))
  {
    VolumeScan(fv, start, room);
    ScanRoundTrip(items, erased, start, room);
  }

  lemma VolumeScan(fv: Bytes, start: nat, room: nat)
    requires Scannable(fv) && ValidHeader(fv)
    requires start % 8 == 0 && HeaderLength(fv) <= start < HeaderLength(fv) + 8 && start <= FvLength(fv)
    ensures ScanVolume(fv, room) == ScanRest(fv[start..FvLength(fv)], start, room)
  {
    NextMultiple(HeaderLength(fv), start);
    ScanAtIsScanRest(fv, FvLength(fv), start, room);
  }

  lemma NextMultiple(n: nat, m: nat)
    requires m % 8 == 0 && n <= m < n + 8
    ensures Align8(n) == m
  {
  }

  /** A file in any other state, such as a deleted one, is stepped over and leaves its room to others. */
  lemma UnlistedIsSteppedOver(f: File, rest: Bytes, offset: nat, room: nat)
    requires f.Valid() && room > 0 && f.state != 0x07 && f.state != 0x87
    ensures ScanRest(f.Print() + rest, offset, room) == ScanRest(rest, offset + Align8(f.Size()), room)
  {
    var more := ScanRest(rest, offset + Align8(f.Size()), room);
    ScanOneFile(f, rest, offset, room);
    assert [] + more == more;
  }

  /** A volume of 88 bytes whose only file is deleted. */
  lemma DeletedFileIsNotListed(room: nat) returns (fv: Bytes)
    requires room > 0
    ensures fv == SmallHeader() + (seq(16, _ => 0) + [0, 0, 0x07, 0, 32, 0, 0, 0x08] + seq(8, _ => 0))
    ensures Scannable(fv) && ValidHeader(fv) && FvLength(fv) == |fv| && ScanVolume(fv, room) == []
  {
    var zeros: Bytes := seq(8, _ => 0);
    var f := File(seq(16, _ => 0), [0, 0], 0x07, 0, 0x08, zeros);
    var content: Bytes := seq(16, _ => 0) + [0, 0, 0x07, 0, 32, 0, 0, 0x08] + zeros;
    fv := SmallHeader() + content;
    SmallHeaderIsValid(content);
    assert f.Print() == content;
    assert fv[FV_HEADER_SIZE..|fv|] == f.Print() + [];
    ScanAtIsScanRest(fv, |fv|, FV_HEADER_SIZE, room);
    UnlistedIsSteppedOver(f, [], FV_HEADER_SIZE, room);
  }

  // ----- The scan -----

  class FvCatalog {
    const files: array<FileEntry>
    var fileCount: nat
    var parsed: bool

    constructor (maxFiles: nat)
      ensures fresh(files) && files.Length == maxFiles && fileCount == 0 && !parsed
    {
      files := new FileEntry[maxFiles](_ => FileEntry([], 0, 0, 0, 0));
      fileCount, parsed := 0, false;
    }

    /** Fills the catalog with the files of a volume and returns their number. */
    method ScanFiles(fv: Bytes) returns (count: nat)
      requires Scannable(fv)
      modifies this, files
      ensures count == fileCount <= files.Length
      ensures files[..fileCount] == ScanVolume(fv, files.Length)
      ensures parsed <==> ValidHeader(fv)
      ensures !parsed ==> count == 0
      ensures IsCatalog(files[..fileCount], HeaderLength(fv), FvLength(fv), files.Length)
    {
      fileCount, parsed := 0, false;
      var ok := ParseHeader(fv);
      if !ok {
        return 0;
      }
      var start: nat := HeaderLength(fv);
      if start % 8 != 0 {
        start := start + (8 - start % 8);
      }
      ScanLoop(fv, FvLength(fv), start);
      ScanAtIsCatalog(fv, FvLength(fv), HeaderLength(fv), start, files.Length);
      parsed := true;
      return fileCount;
    }

    method ScanLoop(fv: Bytes, end: nat, start: nat)
      requires end <= |fv| && end < TWO_32 - 0x200_0000 && start % 8 == 0 && start < TWO_32 - 0x200_0000
      requires fileCount == 0
      modifies `fileCount, files
      ensures fileCount <= files.Length
      ensures files[..fileCount] == ScanAt(fv, end, start, files.Length)
    {
      var offset: u32 := start;
      ghost var goal := ScanAt(fv, end, start, files.Length);
      assert goal == files[..0] + goal;
      while offset + FFS_FILE_HEADER_SIZE <= end && fileCount < files.Length
        invariant offset % 8 == 0 && offset < TWO_32 - 0x100_0000 && Scanning(fv, end, offset, goal)
        decreases TWO_32 - offset
      {
        if fv[offset + 23] == FFS_STATE_ERASED {
          offset := offset + 8;
          continue;
        }
        var size := ScanFile(fv, end, offset, goal);
        if size < FFS_FILE_HEADER_SIZE {
          break;
        }
        offset := NextOffset(offset, size);
      }
    }

    // The entries found so far and those still to be found make up the goal
    ghost predicate Scanning(fv: Bytes, end: nat, offset: nat, goal: seq<FileEntry>)
      reads this, files
      requires end <= |fv|
    {
      && fileCount <= files.Length
      && goal == files[..fileCount] + ScanAt(fv, end, offset, files.Length - fileCount)
    }

    // Records the file at an offset and returns its size
    method ScanFile(fv: Bytes, end: nat, offset: nat, ghost goal: seq<FileEntry>) returns (size: nat)
      requires offset + FFS_FILE_HEADER_SIZE <= end <= |fv| && fv[offset + 23] != FFS_STATE_ERASED
      requires Scanning(fv, end, offset, goal) && fileCount < files.Length
      modifies `fileCount, files
      ensures fileCount <= files.Length && size == FileSize(fv, offset)
      ensures if size < FFS_FILE_HEADER_SIZE then files[..fileCount] == goal
              else Scanning(fv, end, Align8(offset + size), goal)
    {
      ScanAtFile(fv, end, offset, files.Length - fileCount, files[..fileCount]);
      TakeFile(fv, offset);
      size := FileSize(fv, offset);
    }

    // Records the file at an offset, if its state is valid
    method TakeFile(fv: Bytes, offset: nat)
      requires fileCount < files.Length && offset + FFS_FILE_HEADER_SIZE <= |fv|
      modifies `fileCount, files
      ensures fileCount == old(fileCount) + |Found(fv, offset, offset)|
      ensures files[..fileCount] == old(files[..fileCount]) + Found(fv, offset, offset)
    {
      if IsValidState(fv[offset + 23]) {
        AddEntry(FileEntry(fv[offset..offset + 16], fv[offset + 18], offset, FileSize(fv, offset), fv[offset + 23]));
      }
    }

    method NextOffset(offset: nat, size: nat) returns (next: u32)
      requires offset % 8 == 0 && offset < TWO_32 - 0x200_0000 && size < 0x100_0000
      ensures next == Align8(offset + size) < TWO_32 - 0x100_0000 && next % 8 == 0
    {
      Align8Jump(offset, size);
      next := offset + size;
      if next % 8 != 0 {
        next := next + (8 - next % 8);
      }
    }

    method AddEntry(e: FileEntry)
      requires fileCount < files.Length
      modifies `fileCount, files
      ensures fileCount == old(fileCount) + 1
      ensures files[..fileCount] == old(files[..fileCount]) + [e]
    {
      files[fileCount] := e;
      fileCount := fileCount + 1;
    }
  }

  // One round of the scan at a file header
  lemma ScanAtFile(fv: Bytes, end: nat, offset: nat, room: nat, before: seq<FileEntry>)
    requires offset + FFS_FILE_HEADER_SIZE <= end <= |fv| && room > 0 && fv[offset + 23] != FFS_STATE_ERASED
    ensures FileSize(fv, offset) < FFS_FILE_HEADER_SIZE ==> ScanAt(fv, end, offset, room) == Found(fv, offset, offset)
    ensures FileSize(fv, offset) >= FFS_FILE_HEADER_SIZE ==>
              before + ScanAt(fv, end, offset, room) ==
              (before + Found(fv, offset, offset))
              + ScanAt(fv, end, Align8(offset + FileSize(fv, offset)), room - |Found(fv, offset, offset)|)
  {
    var found, size := Found(fv, offset, offset), FileSize(fv, offset);
    if size >= FFS_FILE_HEADER_SIZE {
      var later := ScanAt(fv, end, Align8(offset + size), room - |found|);
      ScanAtStep(fv, end, offset, room, later);
      Associative(before, found, later);
    }
  }

  lemma ScanAtStep(fv: Bytes, end: nat, offset: nat, room: nat, later: seq<FileEntry>)
    requires offset + FFS_FILE_HEADER_SIZE <= end <= |fv| && room > 0 && fv[offset + 23] != FFS_STATE_ERASED
    requires FileSize(fv, offset) >= FFS_FILE_HEADER_SIZE
    requires later == ScanAt(fv, end, Align8(offset + FileSize(fv, offset)), room - |Found(fv, offset, offset)|)
    ensures ScanAt(fv, end, offset, room) == Found(fv, offset, offset) + later
  {
  }
}
