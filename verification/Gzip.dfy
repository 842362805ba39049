/** gzip headers and stored DEFLATE blocks: the parser, and the streams it is the inverse of. */
module Gzip {
  import opened Machine

  const GZIP_MAGIC1: byte := 0x1F
  const GZIP_MAGIC2: byte := 0x8B
  const GZIP_CM_DEFLATE: byte := 0x08
  const GZIP_FLAG_FHCRC: byte := 0x02
  const GZIP_FLAG_FEXTRA: byte := 0x04
  const GZIP_FLAG_FNAME: byte := 0x08
  const GZIP_FLAG_FCOMM: byte := 0x10

  // The parser adds lengths of up to 65535 to 32-bit positions without checking for wrap-around
  const MAX_BUFFER := 0xFFFF_0000

  predicate HasFlag(flags: byte, flag: byte)
    requires flag > 0
  {
    flags / flag % 2 == 1
  }

  function LittleEndian16(lo: byte, hi: byte): u16 {
    lo + hi * 0x100
  }

  // ----- Parsing, as functions of what is left of the input -----

  function AfterExtra(rest: Bytes): Option<Bytes> {
    if |rest| < 2 || 2 + LittleEndian16(rest[0], rest[1]) > |rest| then None
    else Some(rest[2 + LittleEndian16(rest[0], rest[1])..])
  }

  function AfterString(rest: Bytes): Option<Bytes> {
    if |rest| == 0 then None else if rest[0] == 0 then Some(rest[1..]) else AfterString(rest[1..])
  }

  function AfterCrc(rest: Bytes): Option<Bytes> {
    if |rest| < 2 then None else Some(rest[2..])
  }

  function Then(present: bool, rest: Option<Bytes>, skip: Bytes -> Option<Bytes>): Option<Bytes> {
    if present && rest.Some? then skip(rest.value) else rest
  }

  /** What follows a well-formed gzip header; None when there is none. */
  function AfterHeader(input: Bytes): Option<Bytes> {
    if |input| < 10 || input[0] != GZIP_MAGIC1 || input[1] != GZIP_MAGIC2 || input[2] != GZIP_CM_DEFLATE then None
    else
      var flags := input[3];
      var r1 := Then(HasFlag(flags, GZIP_FLAG_FEXTRA), Some(input[10..]), AfterExtra);
      var r2 := Then(HasFlag(flags, GZIP_FLAG_FNAME), r1, AfterString);
      var r3 := Then(HasFlag(flags, GZIP_FLAG_FCOMM), r2, AfterString);
      Then(HasFlag(flags, GZIP_FLAG_FHCRC), r3, AfterCrc)
  }

  /**
   * The output after the blocks in `rest`. Blocks with Huffman codes end the decoding with
   * success; None means failure.
   */
  function Inflate(rest: Bytes, out: Bytes, room: nat): Option<Bytes>
    decreases |rest|
  {
    if |rest| == 0 then Some(out)
    else
      var kind := rest[0] / 2 % 4;
      if kind == 1 || kind == 2 then Some(out)
      else if kind == 3 || |rest| < 5 then None
      else
        var end := 5 + LittleEndian16(rest[1], rest[2]);
        if end > |rest| || |out| + (end - 5) > room then None
        else
          var next := out + rest[5..end];
          if rest[0] % 2 == 1 then Some(next) else Inflate(rest[end..], next, room)
  }

  /** What decompressing a kernel image yields in a buffer of the given size. */
  function Unpack(input: Bytes, room: nat): Option<Bytes> {
    match AfterHeader(input)
    case None => None
    case Some(rest) => Inflate(rest, [], room)
  }

  // ----- The streams of the standards -----

  /** The fields of a gzip header (section 2.3 of RFC 1952); an absent field has no flag. */
  datatype Header = Header(
    text: bool, reserved: nat, mtime: Bytes, xfl: byte, os: byte,
    extra: Option<Bytes>, name: Option<Bytes>, comment: Option<Bytes>, crc: Option<Bytes>)
  {
    predicate Valid() {
      && |mtime| == 4 && reserved < 8
      && (extra.Some? ==> |extra.value| < TWO_16)
      && (name.Some? ==> 0 !in name.value)
      && (comment.Some? ==> 0 !in comment.value)
      && (crc.Some? ==> |crc.value| == 2)
    }

    function Flags(): byte
      requires reserved < 8
    {
      (if text then 1 else 0) + (if crc.Some? then 2 else 0) + (if extra.Some? then 4 else 0)
      + (if name.Some? then 8 else 0) + (if comment.Some? then 16 else 0) + 32 * reserved
    }

    function ExtraBytes(): Bytes
      requires Valid()
    {
      if extra.Some? then [|extra.value| % 0x100, |extra.value| / 0x100] + extra.value else []
    }

    function Encode(): Bytes
      requires Valid()
    {
      [0x1F, 0x8B, 8, Flags()] + mtime + [xfl, os]
      + (ExtraBytes() + (Terminated(name) + (Terminated(comment) + if crc.Some? then crc.value else [])))
    }
  }

  function Terminated(text: Option<Bytes>): Bytes {
    if text.Some? then text.value + [0] else []
  }

  /** A stored block with any bits above its type and any check of its length. */
  datatype Block = Block(first: byte, check: Bytes, data: Bytes) {
    predicate Valid() {
      first / 2 % 4 == 0 && |check| == 2 && |data| < TWO_16
    }

    predicate Final() {
      first % 2 == 1
    }

    function Encode(): (b: Bytes)
      requires Valid()
      ensures |b| == 5 + |data|
    {
      [first, |data| % 0x100, |data| / 0x100] + check + data
    }
  }

  /** A stored block as section 3.2.4 of RFC 1951 has it, padded to a byte boundary. */
  function StoredBlock(data: Bytes, final: bool): Bytes
    requires |data| < TWO_16
  {
    StoredBlockOf(data, final).Encode()
  }

  function StoredBlockOf(data: Bytes, final: bool): (b: Block)
    requires |data| < TWO_16
    ensures b.Valid() && b.data == data && b.Final() == final
  {
    Block(if final then 1 else 0, [0xFF - |data| % 0x100, 0xFF - |data| / 0x100], data)
  }

  predicate AllValid(blocks: seq<Block>) {
    forall i :: 0 <= i < |blocks| ==> blocks[i].Valid()
  }

  function EncodeAll(blocks: seq<Block>): Bytes
    requires AllValid(blocks)
  {
    if blocks == [] then [] else blocks[0].Encode() + EncodeAll(blocks[1..])
  }

  function DataOf(blocks: seq<Block>): Bytes {
    if blocks == [] then [] else blocks[0].data + DataOf(blocks[1..])
  }

  predicate NoneFinal(blocks: seq<Block>) {
    forall i :: 0 <= i < |blocks| ==> !blocks[i].Final()
  }

  /** A complete stream: its last block is the final one. */
  predicate Complete(blocks: seq<Block>) {
    blocks != [] && NoneFinal(blocks[..|blocks| - 1]) && blocks[|blocks| - 1].Final()
  }

  predicate ValidChunks(chunks: seq<Bytes>) {
    |chunks| > 0 && forall i :: 0 <= i < |chunks| ==> |chunks[i]| < TWO_16
  }

  /** The chunks as stored blocks, the last one marked final. */
  function StoredBlocks(chunks: seq<Bytes>): (blocks: seq<Block>)
    requires ValidChunks(chunks)
    ensures AllValid(blocks)
  {
    if |chunks| == 1 then [StoredBlockOf(chunks[0], true)]
    else [StoredBlockOf(chunks[0], false)] + StoredBlocks(chunks[1..])
  }

  function StoredStream(chunks: seq<Bytes>): Bytes
    requires ValidChunks(chunks)
  {
    EncodeAll(StoredBlocks(chunks))
  }

  function Joined(chunks: seq<Bytes>): Bytes {
    if chunks == [] then [] else chunks[0] + Joined(chunks[1..])
  }

  // ----- Headers -----

  lemma {:induction false} AfterStringSkips(text: Bytes, rest: Bytes)
    requires 0 !in text
    ensures AfterString(text + [0] + rest) == Some(rest)
  {
    var all := text + [0] + rest;
    if text == [] {
      assert all[1..] == rest;
    } else {
      assert text[0] in text;
      AfterStringSkips(text[1..], rest);
      assert all[1..] == text[1..] + [0] + rest;
    }
  }

  lemma ThenString(text: Option<Bytes>, rest: Bytes)
    requires text.Some? ==> 0 !in text.value
    ensures Then(text.Some?, Some(Terminated(text) + rest), AfterString) == Some(rest)
  {
    if text.Some? {
      AfterStringSkips(text.value, rest);
    } else {
      assert [] + rest == rest;
    }
  }

  lemma ThenExtra(h: Header, rest: Bytes)
    requires h.Valid()
    ensures Then(h.extra.Some?, Some(h.ExtraBytes() + rest), AfterExtra) == Some(rest)
  {
    var all := h.ExtraBytes() + rest;
    if h.extra.Some? {
      assert all[2 + |h.extra.value|..] == rest;
    } else {
      assert all == rest;
    }
  }

  lemma ThenCrc(crc: Option<Bytes>, rest: Bytes)
    requires crc.Some? ==> |crc.value| == 2
    ensures Then(crc.Some?, Some((if crc.Some? then crc.value else []) + rest), AfterCrc) == Some(rest)
  {
    if crc.Some? {
      assert (crc.value + rest)[2..] == rest;
    } else {
      assert [] + rest == rest;
    }
  }

  lemma FlagBits(h: Header)
    requires h.reserved < 8
    ensures HasFlag(h.Flags(), GZIP_FLAG_FHCRC) == h.crc.Some?
    ensures HasFlag(h.Flags(), GZIP_FLAG_FEXTRA) == h.extra.Some?
    ensures HasFlag(h.Flags(), GZIP_FLAG_FNAME) == h.name.Some?
    ensures HasFlag(h.Flags(), GZIP_FLAG_FCOMM) == h.comment.Some?
  {
  }

  lemma Associative4(a: Bytes, b: Bytes, c: Bytes, d: Bytes, rest: Bytes)
    ensures (a + (b + (c + d))) + rest == a + (b + (c + (d + rest)))
  {
  }

  lemma AfterFixedPart(h: Header, rest: Bytes)
    requires h.Valid()
    ensures var input := h.Encode() + rest;
            && |input| >= 10 && input[0] == GZIP_MAGIC1 && input[1] == GZIP_MAGIC2 && input[2] == GZIP_CM_DEFLATE
            && input[3] == h.Flags()
            && input[10..] == h.ExtraBytes() + (Terminated(h.name) + (Terminated(h.comment)
                              + ((if h.crc.Some? then h.crc.value else []) + rest)))
  {
    var crc := if h.crc.Some? then h.crc.value else [];
    Associative4(h.ExtraBytes(), Terminated(h.name), Terminated(h.comment), crc, rest);
    var fixed := [0x1F, 0x8B, 8, h.Flags()] + h.mtime + [h.xfl, h.os];
    var fields := h.ExtraBytes() + (Terminated(h.name) + (Terminated(h.comment) + crc));
    assert h.Encode() == fixed + fields;
    assert (fixed + fields + rest)[10..] == fields + rest;
  }

  /** The parser steps over every header. */
  lemma HeaderRoundTrip(h: Header, rest: Bytes)
    requires h.Valid()
    ensures AfterHeader(h.Encode() + rest) == Some(rest)
  {
    var r3 := (if h.crc.Some? then h.crc.value else []) + rest;
    var r2 := Terminated(h.comment) + r3;
    var r1 := Terminated(h.name) + r2;
    AfterFixedPart(h, rest);
    FlagBits(h);
    ThenExtra(h, r1);
    ThenString(h.name, r2);
    ThenString(h.comment, r3);
    ThenCrc(h.crc, rest);
  }

  // What a header is taken to be in front of the rest of the input
  ghost predicate HasHeader(input: Bytes, h: Header, rest: Bytes) {
    h.Valid() && input == h.Encode() + rest
  }

  lemma {:induction false} StringOf(b: Bytes, rest: Bytes) returns (text: Bytes)
    requires AfterString(b) == Some(rest)
    ensures 0 !in text && b == text + [0] + rest
  {
    if b[0] == 0 {
      text := [];
      assert b == [0] + b[1..];
    } else {
      text := StringOf(b[1..], rest);
      text := [b[0]] + text;
      assert b == [b[0]] + b[1..];
    }
  }

  lemma MaybeString(present: bool, b: Bytes, rest: Bytes) returns (text: Option<Bytes>)
    requires Then(present, Some(b), AfterString) == Some(rest)
    ensures text.Some? == present && (text.Some? ==> 0 !in text.value) && b == Terminated(text) + rest
  {
    text := None;
    if present {
      var t := StringOf(b, rest);
      text := Some(t);
    } else {
      assert b == [] + b;
    }
  }

  lemma MaybeExtra(present: bool, b: Bytes, rest: Bytes) returns (extra: Option<Bytes>)
    requires Then(present, Some(b), AfterExtra) == Some(rest)
    ensures extra.Some? == present && (extra.Some? ==> |extra.value| < TWO_16)
    ensures b == (if extra.Some? then [|extra.value| % 0x100, |extra.value| / 0x100] + extra.value else []) + rest
  {
    extra := None;
    if present {
      var n := LittleEndian16(b[0], b[1]);
      extra := Some(b[2..2 + n]);
      assert b == [b[0], b[1]] + b[2..2 + n] + b[2 + n..];
    } else {
      assert b == [] + b;
    }
  }

  lemma MaybeCrc(present: bool, b: Bytes, rest: Bytes) returns (crc: Option<Bytes>)
    requires Then(present, Some(b), AfterCrc) == Some(rest)
    ensures crc.Some? == present && (crc.Some? ==> |crc.value| == 2)
    ensures b == (if crc.Some? then crc.value else []) + rest
  {
    crc := None;
    if present {
      crc := Some(b[..2]);
    } else {
      assert b == [] + b;
    }
  }

  lemma FlagsOf(flags: byte, h: Header)
    requires h.text == (flags % 2 == 1) && h.reserved == flags / 32
    requires h.crc.Some? == HasFlag(flags, GZIP_FLAG_FHCRC) && h.extra.Some? == HasFlag(flags, GZIP_FLAG_FEXTRA)
    requires h.name.Some? == HasFlag(flags, GZIP_FLAG_FNAME) && h.comment.Some? == HasFlag(flags, GZIP_FLAG_FCOMM)
    ensures h.reserved < 8 && h.Flags() == flags
  {
    SumOfBits(flags);
  }

  lemma SumOfBits(f: byte)
    ensures f / 32 < 8
    ensures f == f % 2 + 2 * (f / 2 % 2) + 4 * (f / 4 % 2) + 8 * (f / 8 % 2) + 16 * (f / 16 % 2) + 32 * (f / 32)
  {
    assert f / 4 == f / 2 / 2 && f / 8 == f / 4 / 2 && f / 16 == f / 8 / 2 && f / 32 == f / 16 / 2;
  }

  // The optional fields, taken apart
  lemma FieldsOf(flags: byte, b: Bytes, rest: Bytes)
    returns (extra: Option<Bytes>, name: Option<Bytes>, comment: Option<Bytes>, crc: Option<Bytes>)
    requires Then(HasFlag(flags, GZIP_FLAG_FHCRC),
                  Then(HasFlag(flags, GZIP_FLAG_FCOMM),
                       Then(HasFlag(flags, GZIP_FLAG_FNAME),
                            Then(HasFlag(flags, GZIP_FLAG_FEXTRA), Some(b), AfterExtra), AfterString), AfterString),
                  AfterCrc) == Some(rest)
    ensures extra.Some? == HasFlag(flags, GZIP_FLAG_FEXTRA) && name.Some? == HasFlag(flags, GZIP_FLAG_FNAME)
    ensures comment.Some? == HasFlag(flags, GZIP_FLAG_FCOMM) && crc.Some? == HasFlag(flags, GZIP_FLAG_FHCRC)
    ensures (extra.Some? ==> |extra.value| < TWO_16) && (crc.Some? ==> |crc.value| == 2)
    ensures (name.Some? ==> 0 !in name.value) && (comment.Some? ==> 0 !in comment.value)
    ensures b == (if extra.Some? then [|extra.value| % 0x100, |extra.value| / 0x100] + extra.value else [])
                 + (Terminated(name) + (Terminated(comment) + ((if crc.Some? then crc.value else []) + rest)))
  {
    var r1 := Then(HasFlag(flags, GZIP_FLAG_FEXTRA), Some(b), AfterExtra);
    var r2 := Then(HasFlag(flags, GZIP_FLAG_FNAME), r1, AfterString);
    var r3 := Then(HasFlag(flags, GZIP_FLAG_FCOMM), r2, AfterString);
    extra := MaybeExtra(HasFlag(flags, GZIP_FLAG_FEXTRA), b, r1.value);
    name := MaybeString(HasFlag(flags, GZIP_FLAG_FNAME), r1.value, r2.value);
    comment := MaybeString(HasFlag(flags, GZIP_FLAG_FCOMM), r2.value, r3.value);
    crc := MaybeCrc(HasFlag(flags, GZIP_FLAG_FHCRC), r3.value, rest);
  }

  // A header that the parser accepts is one
  lemma HeaderOf(input: Bytes, rest: Bytes) returns (h: Header)
    requires AfterHeader(input) == Some(rest)
    ensures HasHeader(input, h, rest)
  {
    var flags := input[3];
    var extra, name, comment, crc := FieldsOf(flags, input[10..], rest);
    h := Header(flags % 2 == 1, flags / 32, input[4..8], input[8], input[9], extra, name, comment, crc);
    FlagsOf(flags, h);
    assert input[..10] == [0x1F, 0x8B, 8, h.Flags()] + h.mtime + [h.xfl, h.os];
    JoinHeader(input, h, rest);
  }

  // The fixed part and the optional fields make up a header
  lemma JoinHeader(input: Bytes, h: Header, rest: Bytes)
    requires h.Valid() && |input| >= 10 && input[..10] == [0x1F, 0x8B, 8, h.Flags()] + h.mtime + [h.xfl, h.os]
    requires input[10..] == h.ExtraBytes() + (Terminated(h.name) + (Terminated(h.comment)
                                              + ((if h.crc.Some? then h.crc.value else []) + rest)))
    ensures input == h.Encode() + rest
  {
    var last := if h.crc.Some? then h.crc.value else [];
    var fields := h.ExtraBytes() + (Terminated(h.name) + (Terminated(h.comment) + last));
    Associative4(h.ExtraBytes(), Terminated(h.name), Terminated(h.comment), last, rest);
    Associative(input[..10], fields, rest);
    assert input == input[..10] + input[10..];
  }

  /** The parser accepts exactly the inputs that begin with a header, and stops behind it. */
  lemma HeaderExactly(input: Bytes, rest: Bytes)
    ensures AfterHeader(input) == Some(rest) <==> exists h :: HasHeader(input, h, rest)
  {
    if AfterHeader(input) == Some(rest) {
      var h := HeaderOf(input, rest);
    }
    if h :| HasHeader(input, h, rest) {
      HeaderRoundTrip(h, rest);
    }
  }

  // ----- Blocks -----

  lemma BlockFields(b: Block, rest: Bytes)
    requires b.Valid()
    ensures var all := b.Encode() + rest;
            && |all| >= 5 && all[0] == b.first && LittleEndian16(all[1], all[2]) == |b.data|
            && all[3..5] == b.check && all[5..5 + |b.data|] == b.data && all[5 + |b.data|..] == rest
  {
    var all := b.Encode() + rest;
    assert all[0] == b.first && all[1] == |b.data| % 0x100 && all[2] == |b.data| / 0x100;
  }

  lemma OneBlock(b: Block, rest: Bytes, out: Bytes, room: nat)
    requires b.Valid()
    ensures Inflate(b.Encode() + rest, out, room) ==
            if |out| + |b.data| > room then None
            else if b.Final() then Some(out + b.data) else Inflate(rest, out + b.data, room)
  {
    BlockFields(b, rest);
  }

  // ----- Cutting the input into blocks -----

  datatype Stop = FinalBlock | EndOfInput | HuffmanBlock | Malformed

  /** Where following the length fields of stored blocks ends first. */
  function StopOf(rest: Bytes): Stop
    decreases |rest|
  {
    if |rest| == 0 then EndOfInput
    else if rest[0] / 2 % 4 == 1 || rest[0] / 2 % 4 == 2 then HuffmanBlock
    else if Broken(rest) then Malformed
    else if rest[0] % 2 == 1 then FinalBlock
    else StopOf(rest[5 + LittleEndian16(rest[1], rest[2])..])
  }

  // The reserved block type, or a stored block that is cut off
  predicate Broken(rest: Bytes) {
    |rest| > 0
    && (rest[0] / 2 % 4 == 3
        || (rest[0] / 2 % 4 == 0 && (|rest| < 5 || 5 + LittleEndian16(rest[1], rest[2]) > |rest|)))
  }

  /** `rest` is cut into stored blocks and a tail, and this is why the blocks end there. */
  predicate Cut(rest: Bytes, blocks: seq<Block>, tail: Bytes, stop: Stop) {
    && AllValid(blocks) && rest == EncodeAll(blocks) + tail
    && match stop
       case FinalBlock => Complete(blocks)
       case EndOfInput => NoneFinal(blocks) && tail == []
       case HuffmanBlock => NoneFinal(blocks) && |tail| > 0 && (tail[0] / 2 % 4 == 1 || tail[0] / 2 % 4 == 2)
       case Malformed => NoneFinal(blocks) && Broken(tail)
  }

  lemma CompleteAfterFirst(b: Block, blocks: seq<Block>)
    requires !b.Final() && Complete(blocks)
    ensures Complete([b] + blocks)
  {
    var all := [b] + blocks;
    assert forall i :: 0 < i < |all| - 1 ==> all[i] == blocks[..|blocks| - 1][i - 1];
  }

  lemma CutAfterFirst(b: Block, rest: Bytes, blocks: seq<Block>, tail: Bytes, stop: Stop)
    requires b.Valid() && !b.Final() && Cut(rest, blocks, tail, stop)
    ensures Cut(b.Encode() + rest, [b] + blocks, tail, stop)
    ensures DataOf([b] + blocks) == b.data + DataOf(blocks)
  {
    assert ([b] + blocks)[1..] == blocks;
    Associative(b.Encode(), EncodeAll(blocks), tail);
    if stop.FinalBlock? {
      CompleteAfterFirst(b, blocks);
    }
  }

  lemma FirstOfCut(rest: Bytes, blocks: seq<Block>, tail: Bytes, stop: Stop)
    requires Cut(rest, blocks, tail, stop) && blocks != []
    ensures rest == blocks[0].Encode() + (EncodeAll(blocks[1..]) + tail)
    ensures blocks[0].Final() <==> stop.FinalBlock? && |blocks| == 1
    ensures !blocks[0].Final() ==> Cut(EncodeAll(blocks[1..]) + tail, blocks[1..], tail, stop)
  {
    var b, later := blocks[0], blocks[1..];
    Associative(b.Encode(), EncodeAll(later), tail);
    if stop.FinalBlock? && |blocks| > 1 {
      assert b == blocks[..|blocks| - 1][0];
      assert forall i :: 0 <= i < |later| - 1 ==> later[i] == blocks[..|blocks| - 1][i + 1];
    }
  }

  lemma BlockAt(rest: Bytes) returns (b: Block)
    requires |rest| > 0 && rest[0] / 2 % 4 == 0 && !Broken(rest)
    ensures b.Valid() && b.Final() == (rest[0] % 2 == 1)
    ensures rest == b.Encode() + rest[5 + LittleEndian16(rest[1], rest[2])..]
  {
    var end := 5 + LittleEndian16(rest[1], rest[2]);
    b := Block(rest[0], rest[3..5], rest[5..end]);
    assert b.Encode() == rest[..end];
  }

  /** Every input is cut somewhere, where `StopOf` says. */
  lemma {:induction false} CutExists(rest: Bytes) returns (blocks: seq<Block>, tail: Bytes)
    ensures Cut(rest, blocks, tail, StopOf(rest))
    decreases |rest|
  {
    if |rest| == 0 || rest[0] / 2 % 4 != 0 || Broken(rest) {
      blocks, tail := [], rest;
      assert EncodeAll(blocks) + tail == rest;
    } else {
      var b := BlockAt(rest);
      var next := rest[5 + LittleEndian16(rest[1], rest[2])..];
      if b.Final() {
        blocks, tail := [b], next;
        assert EncodeAll([b]) == b.Encode() + [] == b.Encode();
      } else {
        blocks, tail := CutExists(next);
        CutAfterFirst(b, next, blocks, tail, StopOf(next));
        blocks := [b] + blocks;
      }
    }
  }

  /** There is only one reason for which the blocks of an input end. */
  lemma {:induction false} CutStops(rest: Bytes, blocks: seq<Block>, tail: Bytes, stop: Stop)
    requires Cut(rest, blocks, tail, stop)
    ensures StopOf(rest) == stop
    decreases |blocks|
  {
    if blocks == [] {
      assert rest == tail;
    } else {
      var next := EncodeAll(blocks[1..]) + tail;
      FirstOfCut(rest, blocks, tail, stop);
      BlockFields(blocks[0], next);
      if !blocks[0].Final() {
        CutStops(next, blocks[1..], tail, stop);
      }
    }
  }

  /** There is only one way to cut an input. */
  lemma {:induction false} CutUnique(rest: Bytes, x: seq<Block>, t: Bytes, p: Stop, y: seq<Block>, u: Bytes, q: Stop)
    requires Cut(rest, x, t, p) && Cut(rest, y, u, q)
    ensures x == y && t == u && p == q
    decreases |x|
  {
    CutStops(rest, x, t, p);
    CutStops(rest, y, u, q);
    if x == [] || y == [] {
      EmptyCut(rest, x, t, p);
      EmptyCut(rest, y, u, q);
    } else {
      var next, other := EncodeAll(x[1..]) + t, EncodeAll(y[1..]) + u;
      FirstOfCut(rest, x, t, p);
      FirstOfCut(rest, y, u, q);
      BlockFields(x[0], next);
      BlockFields(y[0], other);
      assert x[0] == y[0] && next == other;
      if x[0].Final() {
        assert x == [x[0]] && y == [y[0]];
        assert EncodeAll(x[1..]) == [] && EncodeAll(y[1..]) == [];
      } else {
        CutUnique(next, x[1..], t, p, y[1..], u, q);
        assert x == [x[0]] + x[1..] && y == [y[0]] + y[1..];
      }
    }
  }

  // Whether there is a first block can be told from the input
  lemma EmptyCut(rest: Bytes, blocks: seq<Block>, tail: Bytes, stop: Stop)
    requires Cut(rest, blocks, tail, stop)
    ensures blocks == [] ==> tail == rest
    ensures blocks == [] <==> |rest| == 0 || rest[0] / 2 % 4 != 0 || Broken(rest)
  {
    if blocks == [] {
      assert tail == rest;
    } else {
      FirstOfCut(rest, blocks, tail, stop);
      BlockFields(blocks[0], EncodeAll(blocks[1..]) + tail);
    }
  }

  /** Inflating yields the data of the blocks, unless they end in a malformed one or do not fit. */
  lemma {:induction false} InflateCut(rest: Bytes, blocks: seq<Block>, tail: Bytes, stop: Stop, out: Bytes, room: nat)
    requires Cut(rest, blocks, tail, stop) && |out| <= room
    ensures Inflate(rest, out, room) ==
            if stop.Malformed? || |out + DataOf(blocks)| > room then None else Some(out + DataOf(blocks))
    decreases |blocks|
  {
    if blocks == [] {
      assert rest == tail && out + [] == out;
    } else {
      var next := EncodeAll(blocks[1..]) + tail;
      FirstOfCut(rest, blocks, tail, stop);
      OneBlock(blocks[0], next, out, room);
      Associative(out, blocks[0].data, DataOf(blocks[1..]));
      if blocks[0].Final() {
        assert DataOf(blocks) == blocks[0].data + [] == blocks[0].data;
      } else if |out| + |blocks[0].data| <= room {
        InflateCut(next, blocks[1..], tail, stop, out + blocks[0].data, room);
      }
    }
  }

  // ----- Stored streams -----

  lemma {:induction false} StoredBlocksComplete(chunks: seq<Bytes>)
    requires ValidChunks(chunks)
    ensures Complete(StoredBlocks(chunks))
  {
    if |chunks| > 1 {
      StoredBlocksComplete(chunks[1..]);
      CompleteAfterFirst(StoredBlockOf(chunks[0], false), StoredBlocks(chunks[1..]));
    }
  }

  lemma {:induction false} StoredBlocksData(chunks: seq<Bytes>)
    requires ValidChunks(chunks)
    ensures DataOf(StoredBlocks(chunks)) == Joined(chunks)
  {
    var b := StoredBlockOf(chunks[0], |chunks| == 1);
    if |chunks| == 1 {
      assert [b][1..] == [] && chunks[1..] == [];
    } else {
      StoredBlocksData(chunks[1..]);
      assert ([b] + StoredBlocks(chunks[1..]))[1..] == StoredBlocks(chunks[1..]);
    }
  }

  lemma InflateStored(chunks: seq<Bytes>, trailer: Bytes, out: Bytes, room: nat)
    requires ValidChunks(chunks) && |out| <= room
    ensures Inflate(StoredStream(chunks) + trailer, out, room) ==
            if |out + Joined(chunks)| > room then None else Some(out + Joined(chunks))
  {
    StoredBlocksComplete(chunks);
    StoredBlocksData(chunks);
    InflateCut(StoredStream(chunks) + trailer, StoredBlocks(chunks), trailer, FinalBlock, out, room);
  }

  /** Inflating stored blocks yields their data, whatever follows the final one. */
  lemma StoredRoundTrip(chunks: seq<Bytes>, trailer: Bytes, out: Bytes, room: nat)
    requires ValidChunks(chunks) && |out| + |Joined(chunks)| <= room
    ensures Inflate(StoredStream(chunks) + trailer, out, room) == Some(out + Joined(chunks))
  {
    InflateStored(chunks, trailer, out, room);
  }

  lemma StoredOverflow(chunks: seq<Bytes>, trailer: Bytes, out: Bytes, room: nat)
    requires ValidChunks(chunks) && |out| <= room < |out| + |Joined(chunks)|
    ensures Inflate(StoredStream(chunks) + trailer, out, room) == None
  {
    InflateStored(chunks, trailer, out, room);
  }

  /** Wrapping a byte string in any gzip header and any stored blocks, then unpacking, gives it back. */
  lemma GzipRoundTrip(h: Header, chunks: seq<Bytes>, trailer: Bytes, room: nat)
    requires h.Valid() && ValidChunks(chunks)
    ensures |Joined(chunks)| <= room ==>
              Unpack(h.Encode() + (StoredStream(chunks) + trailer), room) == Some(Joined(chunks))
    ensures |Joined(chunks)| > room ==>
              Unpack(h.Encode() + (StoredStream(chunks) + trailer), room) == None
  {
    HeaderRoundTrip(h, StoredStream(chunks) + trailer);
    if |Joined(chunks)| <= room {
      StoredRoundTrip(chunks, trailer, [], room);
      assert [] + Joined(chunks) == Joined(chunks);
    } else {
      StoredOverflow(chunks, trailer, [], room);
    }
  }

  // ----- What success means -----

  /** The input is cut, for this reason, into blocks with the data `s` and a tail. */
  ghost predicate CutsInto(rest: Bytes, s: Bytes, stop: Stop) {
    exists blocks, tail :: Cut(rest, blocks, tail, stop) && DataOf(blocks) == s
  }

  /**
   * Inflating succeeds with `s` exactly when `s` fits, is the data of the stored blocks, and these
   * end at the final one, at the end of the input or at a block with Huffman codes.
   */
  lemma InflateExactly(rest: Bytes, s: Bytes, room: nat)
    ensures Inflate(rest, [], room) == Some(s) <==>
            |s| <= room && !StopOf(rest).Malformed? && CutsInto(rest, s, StopOf(rest))
  {
    var blocks, tail := CutExists(rest);
    InflateCut(rest, blocks, tail, StopOf(rest), [], room);
    assert [] + DataOf(blocks) == DataOf(blocks);
    if CutsInto(rest, s, StopOf(rest)) {
      var others, end :| Cut(rest, others, end, StopOf(rest)) && DataOf(others) == s;
      InflateCut(rest, others, end, StopOf(rest), [], room);
      assert [] + DataOf(others) == DataOf(others);
    }
  }

  /** Success means that a complete stored stream was read exactly when a final block comes first. */
  lemma SuccessIsComplete(rest: Bytes, s: Bytes, room: nat)
    requires Inflate(rest, [], room) == Some(s)
    ensures CutsInto(rest, s, FinalBlock) <==> StopOf(rest) == FinalBlock
  {
    InflateExactly(rest, s, room);
    if CutsInto(rest, s, FinalBlock) {
      var blocks, tail :| Cut(rest, blocks, tail, FinalBlock) && DataOf(blocks) == s;
      CutStops(rest, blocks, tail, FinalBlock);
    }
  }

  /** A gzip header, and behind it stored blocks with the data `s` that end for a reason which is no error. */
  ghost predicate Unpacks(input: Bytes, s: Bytes, h: Header, rest: Bytes) {
    HasHeader(input, h, rest) && !StopOf(rest).Malformed? && CutsInto(rest, s, StopOf(rest))
  }

  /** Unpacking succeeds exactly on images with a header and stored blocks, which it returns if they fit. */
  lemma UnpackExactly(input: Bytes, s: Bytes, room: nat)
    ensures Unpack(input, room) == Some(s) <==> |s| <= room && exists h, rest :: Unpacks(input, s, h, rest)
    ensures Unpack(input, room) == Some(s) ==>
              forall h, rest :: HasHeader(input, h, rest) ==>
                (CutsInto(rest, s, FinalBlock) <==> StopOf(rest) == FinalBlock)
  {
    if Unpack(input, room) == Some(s) {
      var rest := AfterHeader(input).value;
      var h := HeaderOf(input, rest);
      InflateExactly(rest, s, room);
      assert Unpacks(input, s, h, rest);
      SuccessIsComplete(rest, s, room);
      forall g, other | HasHeader(input, g, other)
        ensures other == rest
      {
        HeaderRoundTrip(g, other);
      }
    }
    if h, rest :| Unpacks(input, s, h, rest) && |s| <= room {
      HeaderRoundTrip(h, rest);
      InflateExactly(rest, s, room);
    }
  }

  /** What is not gzip is refused, such as a program for MS-DOS. */
  lemma NotGzip(input: Bytes, room: nat)
    requires |input| < 10 || input[0] != 0x1F || input[1] != 0x8B || input[2] != 8
    ensures Unpack(input, room) == None
  {
  }

  /** The four block types, a block that is not final, and one that is cut off. */
  lemma BlockTypes(rest: Bytes, room: nat)
    requires |rest| >= 8 && room >= 3 && rest[1..5] == [3, 0, 0xFC, 0xFF]
    ensures rest[0] == 0x01 ==> Inflate(rest, [], room) == Some(rest[5..8])
    ensures rest[0] == 0x00 && |rest| == 8 ==> Inflate(rest, [], room) == Some(rest[5..8])
    ensures rest[0] == 0x02 || rest[0] == 0x03 ==> Inflate(rest, [], room) == Some([])
    ensures rest[0] == 0x04 || rest[0] == 0x05 ==> Inflate(rest, [], room) == Some([])
    ensures rest[0] == 0x06 || rest[0] == 0x07 ==> Inflate(rest, [], room) == None
    ensures rest[0] == 0x01 ==> Inflate(rest[..7], [], room) == None
  {
    assert rest[1] == rest[1..5][0] && rest[2] == rest[1..5][1];
    assert [] + rest[5..8] == rest[5..8];
    assert |rest| == 8 ==> rest[8..] == [];
  }

  /** A stream that starts with a Huffman block is reported as unpacked, to nothing. */
  lemma HuffmanUnpacksToNothing(h: Header, first: byte, rest: Bytes, room: nat)
    requires h.Valid() && (first / 2 % 4 == 1 || first / 2 % 4 == 2)
    ensures Unpack(h.Encode() + ([first] + rest), room) == Some([])
  {
    HeaderRoundTrip(h, [first] + rest);
  }

  /** Streams without a final block are unpacked as far as they go. */
  lemma TruncatedUnpacks(h: Header, data: Bytes, first: byte, rest: Bytes, room: nat)
    requires h.Valid() && |data| < TWO_16 && |data| <= room && (first / 2 % 4 == 1 || first / 2 % 4 == 2)
    ensures Unpack(h.Encode() + [], room) == Some([])
    ensures Unpack(h.Encode() + (StoredBlock(data, false) + []), room) == Some(data)
    ensures Unpack(h.Encode() + (StoredBlock(data, false) + ([first] + rest)), room) == Some(data)
  {
    HeaderRoundTrip(h, []);
    HeaderRoundTrip(h, StoredBlock(data, false) + []);
    HeaderRoundTrip(h, StoredBlock(data, false) + ([first] + rest));
    OneBlock(StoredBlockOf(data, false), [], [], room);
    OneBlock(StoredBlockOf(data, false), [first] + rest, [], room);
    assert [] + data == data;
  }

  // ----- The context -----

  class DecompressContext {
    const input: Bytes
    var inputPos: u32
    const output: array<byte>
    const outputSize: u32
    var outputPos: u32

    ghost predicate Valid()
      reads this
    {
      |input| <= MAX_BUFFER && outputPos <= outputSize <= MAX_BUFFER && outputSize <= output.Length
    }

    // What is left of the input, unless the position has run past its end
    ghost function Left(): Option<Bytes>
      reads this
    {
      if inputPos <= |input| then Some(input[inputPos..]) else None
    }

    constructor (input: Bytes, output: array<byte>, outputSize: u32)
      requires |input| <= MAX_BUFFER && outputSize <= MAX_BUFFER && outputSize <= output.Length
      ensures Valid() && this.input == input && this.output == output && this.outputSize == outputSize
      ensures inputPos == 0 && outputPos == 0
    {
      this.input, this.output, this.outputSize := input, output, outputSize;
      inputPos, outputPos := 0, 0;
    }

    method ParseHeader() returns (ok: bool)
      requires Valid()
      modifies `inputPos
      ensures ok <==> AfterHeader(input).Some?
      ensures ok ==> Left() == AfterHeader(input)
    {
      if |input| < 10 {
        return false;
      }
      if input[0] != GZIP_MAGIC1 || input[1] != GZIP_MAGIC2 {
        return false;
      }
      if input[2] != GZIP_CM_DEFLATE {
        return false;
      }
      var flags := input[3];
      inputPos := 10;
      if HasFlag(flags, GZIP_FLAG_FEXTRA) {
        var extra := SkipExtra();
        if !extra {
          return false;
        }
      }
      if HasFlag(flags, GZIP_FLAG_FNAME) {
        SkipString();
      }
      if HasFlag(flags, GZIP_FLAG_FCOMM) {
        SkipString();
      }
      if HasFlag(flags, GZIP_FLAG_FHCRC) {
        SkipCrc();
      }
      return inputPos <= |input|;
    }

    method SkipExtra() returns (ok: bool)
      requires |input| <= MAX_BUFFER && inputPos <= |input|
      modifies `inputPos
      ensures Left() == Then(true, old(Left()), AfterExtra) || !ok
      ensures !ok ==> Then(true, old(Left()), AfterExtra) == None
      ensures inputPos <= old(inputPos) + 2 + 0xFFFF
    {
      if inputPos + 2 > |input| {
        return false;
      }
      var xlen := LittleEndian16(input[inputPos], input[inputPos + 1]);
      ghost var rest := input[inputPos..];
      inputPos := inputPos + 2 + xlen;
      if inputPos <= |input| {
        assert rest[2 + xlen..] == input[inputPos..];
      }
      return true;
    }

    method SkipCrc()
      requires |input| <= MAX_BUFFER && inputPos <= MAX_BUFFER + 16
      modifies `inputPos
      ensures Left() == Then(true, old(Left()), AfterCrc)
    {
      ghost var at := inputPos;
      inputPos := inputPos + 2;
      if inputPos <= |input| {
        assert input[at..][2..] == input[inputPos..];
      }
    }

    method SkipString()
      requires |input| <= MAX_BUFFER && inputPos <= MAX_BUFFER + 8
      modifies `inputPos
      ensures old(inputPos) < inputPos
      ensures inputPos <= old(inputPos) + 1 || inputPos <= |input| + 1
      ensures Left() == Then(true, old(Left()), AfterString)
    {
      ghost var inside := inputPos <= |input|;
      ghost var rest := if inside then input[inputPos..] else [];
      ghost var goal := AfterString(rest);
      while inputPos < |input| && input[inputPos] != 0
        invariant old(inputPos) <= inputPos && (inputPos == old(inputPos) || inputPos <= |input|)
        invariant inside ==> inputPos <= |input| && rest == input[inputPos..] && goal == AfterString(rest)
        decreases |input| - inputPos
      {
        rest := rest[1..];
        inputPos := inputPos + 1;
        assert rest == input[inputPos..];
      }
      inputPos := inputPos + 1;
      assert inside && rest != [] ==> rest[1..] == input[inputPos..];
    }

    method InflateBlocks() returns (ok: bool)
      requires Valid() && inputPos <= |input|
      modifies this, output
      ensures Valid()
      ensures var r := Inflate(old(input[inputPos..]), old(output[..outputPos]), outputSize);
              && (ok <==> r.Some?)
              && (ok ==> output[..outputPos] == r.value)
      ensures output[outputSize..] == old(output[outputSize..])
    {
      var final := false;
      ghost var goal := Inflate(input[inputPos..], output[..outputPos], outputSize);
      while !final && inputPos < |input|
        invariant Valid() && inputPos <= |input|
        invariant goal == if final then Some(output[..outputPos])
                          else Inflate(input[inputPos..], output[..outputPos], outputSize)
        invariant output[outputSize..] == old(output[outputSize..])
        decreases |input| - inputPos
      {
        ghost var rest := input[inputPos..];
        var header := input[inputPos];
        inputPos := inputPos + 1;
        final := header % 2 == 1;
        var kind := header / 2 % 4;
        if kind == 0 {
          var stored := StoredData(rest);
          if !stored {
            return false;
          }
        } else if kind == 1 || kind == 2 {
          break;
        } else {
          return false;
        }
      }
      return true;
    }

    // The part of the loop that copies one stored block; `rest` starts at the block's first byte
    method StoredData(ghost rest: Bytes) returns (ok: bool)
      requires Valid() && 0 < inputPos <= |input| && rest == input[inputPos - 1..]
      modifies this, output
      ensures Valid() && inputPos <= |input|
      ensures output[outputSize..] == old(output[outputSize..])
      ensures ok <==> |rest| >= 5 && 5 + LittleEndian16(rest[1], rest[2]) <= |rest|
                      && old(outputPos) + LittleEndian16(rest[1], rest[2]) <= outputSize
      ensures ok ==> var end := 5 + LittleEndian16(rest[1], rest[2]);
                     && input[inputPos..] == rest[end..] && inputPos > old(inputPos)
                     && output[..outputPos] == old(output[..outputPos]) + rest[5..end]
    {
      if inputPos + 4 > |input| {
        return false;
      }
      var len := LittleEndian16(input[inputPos], input[inputPos + 1]);
      inputPos := inputPos + 2;
      inputPos := inputPos + 2;
      var inEnd: u32 := inputPos + len;
      if inEnd > |input| {
        return false;
      }
      var outEnd: u32 := outputPos + len;
      if outEnd > outputSize {
        return false;
      }
      forall k | 0 <= k < len {
        output[outputPos + k] := input[inputPos + k];
      }
      outputPos := outEnd;
      inputPos := inEnd;
      return true;
    }
  }

  /** Unpacks into `output`; the output size is replaced only on success. */
  method DecompressBzImage(compressed: Bytes, output: array<byte>, outputSize: u32)
    returns (ok: bool, size: u32)
    requires |compressed| <= MAX_BUFFER && outputSize <= MAX_BUFFER && outputSize <= output.Length
    modifies output
    ensures ok <==> Unpack(compressed, outputSize).Some?
    ensures ok ==> size <= outputSize && output[..size] == Unpack(compressed, outputSize).value
    ensures !ok ==> size == outputSize
    ensures output[outputSize..] == old(output[outputSize..])
  {
    var ctx := new DecompressContext(compressed, output, outputSize);
    var parsed := ctx.ParseHeader();
    if !parsed {
      return false, outputSize;
    }
    ghost var rest := compressed[ctx.inputPos..];
    assert output[..0] == [];
    var inflated := ctx.InflateBlocks();
    if !inflated {
      return false, outputSize;
    }
    return true, ctx.outputPos;
  }
}
