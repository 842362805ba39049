/** The UEFI image authentication context: copies input into the buffer, as much as fits at a time. */
module ImageAuthSha256 {
  import opened Machine
  import opened Sha256

  class Context {
    const compress: Compression
    var state: HashState
    var totalBytes: u64
    const buffer: array<byte>
    var bufferUsed: nat
    var finalized: bool
    // Everything fed to the context so far
    ghost var message: seq<byte>

    ghost predicate Shaped()
      reads this
    {
      buffer.Length == BLOCK_SIZE && bufferUsed < BLOCK_SIZE
    }

    ghost function Current(): Stream
      requires Shaped()
      reads this, buffer
    {
      Stream(state, buffer[..bufferUsed])
    }

    ghost predicate Valid()
      reads this, buffer
    {
      finalized
      || (Shaped() && Current() == FeedAll(compress, START, message) && totalBytes == Low64(|message|))
    }

    constructor (compress: Compression)
      ensures Valid() && fresh(buffer) && this.compress == compress
      ensures !finalized && message == []
    {
      this.compress := compress;
      state := IV;
      totalBytes, bufferUsed, finalized := 0, 0, false;
      buffer := new byte[BLOCK_SIZE](_ => 0);
      message := [];
    }

    method Update(data: seq<byte>)
      requires Valid() && |data| < TWO_64
      modifies this, buffer
      ensures Valid() && finalized == old(finalized)
      ensures message == if finalized then old(message) else old(message) + data
    {
      if |data| == 0 || finalized {
        assert |data| == 0 ==> message == message + data;
        return;
      }
      CountBytes(|message|, |data|);
      FeedAllJoins(compress, START, message, data);
      totalBytes := Add64(totalBytes, |data|);
      message := message + data;
      AbsorbAll(data);
    }

    method AbsorbAll(data: seq<byte>)
      requires Shaped()
      modifies `state, `bufferUsed, buffer
      ensures Shaped() && Current() == FeedAll(compress, old(Current()), data)
    {
      var i := 0;
      while i < |data|
        invariant i <= |data| && Shaped()
        invariant Current() == FeedAll(compress, old(Current()), data[..i])
      {
        var space := BLOCK_SIZE - bufferUsed;
        var copy := if |data| - i < space then |data| - i else space;
        FeedAllJoins(compress, old(Current()), data[..i], data[i..i + copy]);
        assert data[..i + copy] == data[..i] + data[i..i + copy];
        Absorb(data[i..i + copy]);
        i := i + copy;
      }
      assert data[..i] == data;
    }

    // One round of the update loop: at most a block's worth of room is filled
    method Absorb(chunk: seq<byte>)
      requires Shaped() && bufferUsed + |chunk| <= BLOCK_SIZE
      modifies `state, `bufferUsed, buffer
      ensures Shaped() && Current() == FeedAll(compress, old(Current()), chunk)
    {
      ghost var st := Current();
      forall k | 0 <= k < |chunk| {
        buffer[bufferUsed + k] := chunk[k];
      }
      bufferUsed := bufferUsed + |chunk|;
      assert buffer[..bufferUsed] == st.pending + chunk;
      if bufferUsed == BLOCK_SIZE {
        FeedBlock(compress, st, chunk);
        assert buffer[..] == buffer[..bufferUsed];
        state := compress(state, buffer[..]);
        bufferUsed := 0;
      } else {
        FeedPartial(compress, st, chunk);
      }
    }

    /** Gives the digest of everything fed in, once. */
    method Finalize() returns (digest: Option<Digest>)
      requires Valid()
      modifies this, buffer
      ensures Valid() && finalized
      ensures digest == if old(finalized) then None else Some(Hash(compress, old(message)))
      ensures digest.Some? ==> Spells(digest.value, Fold(compress, Pad(old(message))))
    {
      if finalized {
        return None;
      }
      CountedBits(|message|);
      FinishedIsHash(compress, message);
      HashSpells(compress, message);
      finalized := true;
      Finish(Low64(8 * totalBytes));
      var bytes := WriteDigest(state);
      return Some(bytes);
    }

    method Finish(totalBits: u64)
      requires Shaped()
      modifies `state, `bufferUsed, buffer
      ensures state == Finished(compress, old(Current()), totalBits)
    {
      ghost var st := Current();
      ghost var r := bufferUsed;
      buffer[bufferUsed] := 0x80;
      bufferUsed := bufferUsed + 1;
      assert buffer[..bufferUsed] == st.pending + [0x80];
      if bufferUsed > 56 {
        FillZeros(bufferUsed, BLOCK_SIZE);
        assert buffer[..] == st.pending + LongTail(r);
        state := compress(state, buffer[..]);
        bufferUsed := 0;
      }
      ghost var head := buffer[..bufferUsed];
      FillZeros(bufferUsed, 56);
      WriteLength(totalBits);
      assert r < 56 ==> buffer[..] == st.pending + ShortTail(r, totalBits);
      assert r >= 56 ==> buffer[..] == LengthBlock(totalBits);
      state := compress(state, buffer[..]);
    }

    method FillZeros(from: nat, to: nat)
      requires from <= to <= buffer.Length
      modifies buffer
      ensures buffer[..to] == old(buffer[..from]) + Zeros(to - from)
    {
      forall k | from <= k < to {
        buffer[k] := 0;
      }
    }

    method WriteLength(totalBits: u64)
      requires buffer.Length == BLOCK_SIZE
      modifies buffer
      ensures buffer[..] == old(buffer[..56]) + BigEndian64(totalBits)
    {
      forall k | 0 <= k < 8 {
        buffer[56 + k] := Shift8(totalBits, 7 - k) % 0x100;
      }
    }
  }

  method HashMessage(compress: Compression, data: seq<byte>) returns (digest: Digest)
    requires |data| < TWO_64
    ensures digest == Hash(compress, data) && Spells(digest, Fold(compress, Pad(data)))
  {
    var ctx := new Context(compress);
    ctx.Update(data);
    assert [] + data == data;
    var d := ctx.Finalize();
    return d.value;
  }
}

/** The secure-boot context: whole blocks are compressed straight from the input. */
module BootSecureSha256 {
  import opened Machine
  import opened Sha256

  class Context {
    const compress: Compression
    var state: HashState
    var count: u64
    const buffer: array<byte>
    ghost var message: seq<byte>

    ghost function Current(idx: nat): Stream
      requires idx <= buffer.Length
      reads this, buffer
    {
      Stream(state, buffer[..idx])
    }

    ghost predicate Valid()
      reads this, buffer
    {
      && buffer.Length == BLOCK_SIZE
      && count == Low64(|message|)
      && Current(count % BLOCK_SIZE) == FeedAll(compress, START, message)
    }

    constructor (compress: Compression)
      ensures Valid() && fresh(buffer) && this.compress == compress && message == []
    {
      this.compress := compress;
      state := IV;
      count := 0;
      buffer := new byte[BLOCK_SIZE](_ => 0);
      message := [];
    }

    method Update(data: seq<byte>)
      requires Valid() && |data| < TWO_32
      modifies this, buffer
      ensures Valid() && message == old(message) + data
    {
      CountedBits(|message|);
      CountedBits(|message + data|);
      CountBytes(|message|, |data|);
      FeedAllJoins(compress, START, message, data);
      PendingLength(compress, START, message + data);
      var idx := count % BLOCK_SIZE;
      count := Add64(count, |data|);
      message := message + data;
      ghost var left := AbsorbAll(idx, data);
    }

    // The body of the update; `left` is the number of bytes it leaves in the buffer
    method AbsorbAll(idx: nat, data: seq<byte>) returns (ghost left: nat)
      requires buffer.Length == BLOCK_SIZE && idx < BLOCK_SIZE
      modifies `state, buffer
      ensures left < BLOCK_SIZE && Current(left) == FeedAll(compress, old(Current(idx)), data)
    {
      ghost var st := Current(idx);
      if idx == 0 {
        assert st == Stream(state, []);
        left := AbsorbAligned(data);
        return;
      }
      var space := BLOCK_SIZE - idx;
      if |data| < space {
        CopyIn(idx, data);
        FeedPartial(compress, st, data);
        return idx + |data|;
      }
      CopyIn(idx, data[..space]);
      FeedBlock(compress, st, data[..space]);
      FeedAllJoins(compress, st, data[..space], data[space..]);
      assert data == data[..space] + data[space..];
      assert buffer[..] == buffer[..BLOCK_SIZE];
      state := compress(state, buffer[..]);
      left := AbsorbAligned(data[space..]);
    }

    // With nothing pending, whole blocks are compressed without being copied
    method AbsorbAligned(data: seq<byte>) returns (ghost left: nat)
      requires buffer.Length == BLOCK_SIZE
      modifies `state, buffer
      ensures left < BLOCK_SIZE && Current(left) == FeedAll(compress, Stream(old(state), []), data)
    {
      ghost var st := Stream(state, []);
      var pos := 0;
      while |data| - pos >= BLOCK_SIZE
        invariant pos <= |data|
        invariant Stream(state, []) == FeedAll(compress, st, data[..pos])
      {
        var block := data[pos..pos + BLOCK_SIZE];
        FeedNextBlock(compress, st, data[..pos], block, state);
        assert data[..pos + BLOCK_SIZE] == data[..pos] + block;
        state := compress(state, block);
        pos := pos + BLOCK_SIZE;
      }
      left := |data| - pos;
      if |data| - pos > 0 {
        CopyIn(0, data[pos..]);
      }
      assert buffer[..left] == data[pos..];
      FeedRest(compress, st, data[..pos], data[pos..], state);
      assert data == data[..pos] + data[pos..];
    }

    method CopyIn(at: nat, data: seq<byte>)
      requires at + |data| <= buffer.Length
      modifies buffer
      ensures buffer[..at + |data|] == old(buffer[..at]) + data
    {
      forall k | 0 <= k < |data| {
        buffer[at + k] := data[k];
      }
    }

    /** Gives the digest; the context is spent afterwards. */
    method Final() returns (digest: Digest)
      requires Valid()
      modifies this, buffer
      ensures digest == Hash(compress, old(message))
      ensures Spells(digest, Fold(compress, Pad(old(message))))
    {
      CountedBits(|message|);
      FinishedIsHash(compress, message);
      HashSpells(compress, message);
      Finish(count % BLOCK_SIZE, Low64(8 * count));
      digest := WriteDigest(state);
    }

    method Finish(start: nat, bitCount: u64)
      requires buffer.Length == BLOCK_SIZE && start < BLOCK_SIZE
      modifies `state, buffer
      ensures state == Finished(compress, old(Current(start)), bitCount)
    {
      ghost var st := Current(start);
      var idx := start;
      buffer[idx] := 0x80;
      idx := idx + 1;
      assert buffer[..idx] == st.pending + [0x80];
      if idx > 56 {
        CopyIn(idx, Zeros(BLOCK_SIZE - idx));
        assert buffer[..] == st.pending + LongTail(start);
        state := compress(state, buffer[..]);
        idx := 0;
      }
      CopyIn(idx, Zeros(56 - idx));
      WriteLength(bitCount);
      assert start < 56 ==> buffer[..] == st.pending + ShortTail(start, bitCount);
      assert start >= 56 ==> buffer[..] == LengthBlock(bitCount);
      state := compress(state, buffer[..]);
    }

    method WriteLength(bitCount: u64)
      requires buffer.Length == BLOCK_SIZE
      modifies buffer
      ensures buffer[..] == old(buffer[..56]) + BigEndian64(bitCount)
    {
      for i := 0 to 8
        invariant buffer[..56] == old(buffer[..56])
        invariant forall k :: 0 <= k < i ==> buffer[56 + k] == BigEndian64(bitCount)[k]
      {
        buffer[56 + i] := Shift8(bitCount, 7 - i) % 0x100;
      }
      assert buffer[56..] == BigEndian64(bitCount);
      assert buffer[..] == buffer[..56] + buffer[56..];
    }
  }

  method HashMessage(compress: Compression, data: seq<byte>) returns (digest: Digest)
    requires |data| < TWO_32
    ensures digest == Hash(compress, data) && Spells(digest, Fold(compress, Pad(data)))
  {
    var ctx := new Context(compress);
    ctx.Update(data);
    assert [] + data == data;
    digest := ctx.Final();
  }
}

/** The firmware-volume context: one byte at a time, counting bits. */
module FirmwareVolumeSha256 {
  import opened Machine
  import opened Sha256

  class Context {
    const compress: Compression
    var state: HashState
    var bitCount: u64
    const buffer: array<byte>
    var bufferOffset: nat
    ghost var message: seq<byte>

    ghost predicate Shaped()
      reads this
    {
      buffer.Length == BLOCK_SIZE && bufferOffset < BLOCK_SIZE
    }

    ghost function Current(): Stream
      requires Shaped()
      reads this, buffer
    {
      Stream(state, buffer[..bufferOffset])
    }

    ghost predicate Valid()
      reads this, buffer
    {
      Shaped() && Current() == FeedAll(compress, START, message) && bitCount == Low64(8 * |message|)
    }

    constructor (compress: Compression)
      ensures Valid() && fresh(buffer) && this.compress == compress && message == []
    {
      this.compress := compress;
      state := IV;
      bitCount, bufferOffset := 0, 0;
      buffer := new byte[BLOCK_SIZE](_ => 0);
      message := [];
    }

    method Update(data: seq<byte>)
      requires Valid() && |data| < TWO_32
      modifies this, buffer
      ensures Valid() && message == old(message) + data
    {
      if |data| == 0 {
        assert message == message + data;
        return;
      }
      CountBytes(8 * |message|, 8 * |data|);
      FeedAllJoins(compress, START, message, data);
      bitCount := Add64(bitCount, 8 * |data|);
      message := message + data;
      AbsorbAll(data);
    }

    method AbsorbAll(data: seq<byte>)
      requires Shaped()
      modifies `state, `bufferOffset, buffer
      ensures Shaped() && Current() == FeedAll(compress, old(Current()), data)
    {
      for i := 0 to |data|
        invariant Shaped()
        invariant Current() == FeedAll(compress, old(Current()), data[..i])
      {
        FeedAllJoins(compress, old(Current()), data[..i], [data[i]]);
        assert data[..i + 1] == data[..i] + [data[i]];
        AbsorbByte(data[i]);
      }
      assert data[..|data|] == data;
    }

    method AbsorbByte(b: byte)
      requires Shaped()
      modifies `state, `bufferOffset, buffer
      ensures Shaped() && Current() == FeedAll(compress, old(Current()), [b])
    {
      ghost var st := Current();
      buffer[bufferOffset] := b;
      bufferOffset := bufferOffset + 1;
      assert buffer[..bufferOffset] == st.pending + [b];
      if bufferOffset == BLOCK_SIZE {
        FeedBlock(compress, st, [b]);
        assert buffer[..] == buffer[..bufferOffset];
        state := compress(state, buffer[..]);
        bufferOffset := 0;
      } else {
        FeedPartial(compress, st, [b]);
      }
    }

    /** Gives the digest; the context is spent afterwards. */
    method Final() returns (digest: Digest)
      requires Valid()
      modifies this, buffer
      ensures digest == Hash(compress, old(message))
      ensures Spells(digest, Fold(compress, Pad(old(message))))
    {
      FinishedIsHash(compress, message);
      HashSpells(compress, message);
      Finish(bitCount);
      digest := WriteDigest(state);
    }

    method Finish(bits: u64)
      requires Shaped()
      modifies `state, buffer
      ensures state == Finished(compress, old(Current()), bits)
    {
      ghost var st := Current();
      ghost var r := bufferOffset;
      var i := bufferOffset;
      buffer[i] := 0x80;
      i := i + 1;
      assert buffer[..i] == st.pending + [0x80];
      if i > 56 {
        i := ZeroUpTo(i, BLOCK_SIZE);
        assert buffer[..] == st.pending + LongTail(r);
        state := compress(state, buffer[..]);
        i := 0;
      }
      i := ZeroUpTo(i, 56);
      WriteLength(bits);
      assert r < 56 ==> buffer[..] == st.pending + ShortTail(r, bits);
      assert r >= 56 ==> buffer[..] == LengthBlock(bits);
      state := compress(state, buffer[..]);
    }

    method ZeroUpTo(from: nat, to: nat) returns (i: nat)
      requires from <= to <= buffer.Length
      modifies buffer
      ensures i == to && buffer[..to] == old(buffer[..from]) + Zeros(to - from)
    {
      i := from;
      while i < to
        invariant from <= i <= to
        invariant buffer[..i] == old(buffer[..from]) + Zeros(i - from)
      {
        buffer[i] := 0;
        i := i + 1;
      }
    }

    method WriteLength(bits: u64)
      requires buffer.Length == BLOCK_SIZE
      modifies buffer
      ensures buffer[..] == old(buffer[..56]) + BigEndian64(bits)
    {
      for i := 0 to 8
        invariant buffer[..56] == old(buffer[..56])
        invariant forall k :: 0 <= k < i ==> buffer[56 + k] == BigEndian64(bits)[k]
      {
        buffer[56 + i] := Shift8(bits, 7 - i) % 0x100;
      }
      assert buffer[56..] == BigEndian64(bits);
      assert buffer[..] == buffer[..56] + buffer[56..];
    }
  }

  method HashMessage(compress: Compression, data: seq<byte>) returns (digest: Digest)
    requires |data| < TWO_32
    ensures digest == Hash(compress, data) && Spells(digest, Fold(compress, Pad(data)))
  {
    var ctx := new Context(compress);
    ctx.Update(data);
    assert [] + data == data;
    digest := ctx.Final();
  }
}

/** However a message is cut into updates, the three implementations compute one digest. */
module StreamingAgreement {
  import opened Machine
  import opened Sha256
  import ImageAuthSha256
  import BootSecureSha256
  import FirmwareVolumeSha256

  function Joined(pieces: seq<seq<byte>>): seq<byte> {
    if pieces == [] then [] else Joined(pieces[..|pieces| - 1]) + pieces[|pieces| - 1]
  }

  // All pieces have lengths below `limit`
  predicate ShorterThan(pieces: seq<seq<byte>>, limit: nat) {
    forall i :: 0 <= i < |pieces| ==> |pieces[i]| < limit
  }

  method HashImageAuth(c: Compression, pieces: seq<seq<byte>>) returns (digest: Digest)
    requires ShorterThan(pieces, TWO_64)
    ensures digest == Hash(c, Joined(pieces)) && Spells(digest, Fold(c, Pad(Joined(pieces))))
  {
    var ctx := new ImageAuthSha256.Context(c);
    for i := 0 to |pieces|
      invariant ctx.Valid() && !ctx.finalized && fresh(ctx) && fresh(ctx.buffer)
      invariant ctx.compress == c && ctx.message == Joined(pieces[..i])
    {
      assert pieces[..i + 1][..i] == pieces[..i];
      ctx.Update(pieces[i]);
    }
    assert pieces[..|pieces|] == pieces;
    var d := ctx.Finalize();
    return d.value;
  }

  method HashBootSecure(c: Compression, pieces: seq<seq<byte>>) returns (digest: Digest)
    requires ShorterThan(pieces, TWO_32)
    ensures digest == Hash(c, Joined(pieces)) && Spells(digest, Fold(c, Pad(Joined(pieces))))
  {
    var ctx := new BootSecureSha256.Context(c);
    for i := 0 to |pieces|
      invariant ctx.Valid() && fresh(ctx) && fresh(ctx.buffer)
      invariant ctx.compress == c && ctx.message == Joined(pieces[..i])
    {
      assert pieces[..i + 1][..i] == pieces[..i];
      ctx.Update(pieces[i]);
    }
    assert pieces[..|pieces|] == pieces;
    digest := ctx.Final();
  }

  method HashFirmwareVolume(c: Compression, pieces: seq<seq<byte>>) returns (digest: Digest)
    requires ShorterThan(pieces, TWO_32)
    ensures digest == Hash(c, Joined(pieces)) && Spells(digest, Fold(c, Pad(Joined(pieces))))
  {
    var ctx := new FirmwareVolumeSha256.Context(c);
    for i := 0 to |pieces|
      invariant ctx.Valid() && fresh(ctx) && fresh(ctx.buffer)
      invariant ctx.compress == c && ctx.message == Joined(pieces[..i])
    {
      assert pieces[..i + 1][..i] == pieces[..i];
      ctx.Update(pieces[i]);
    }
    assert pieces[..|pieces|] == pieces;
    digest := ctx.Final();
  }
}
