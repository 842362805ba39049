/** Token-driven LZ77 decoding into an output buffer. */
module Lz77 {
  import opened Machine

  datatype Token = Token(length: u16, distance: u16, literal: byte, isLiteral: bool)

  /** `n` bytes copied one at a time from `distance` bytes back, so the copy may overlap itself. */
  function CopyBack(out: seq<byte>, distance: nat, n: nat): seq<byte>
    requires 0 < distance <= |out|
    decreases n
  {
    if n == 0 then out else CopyBack(out + [out[|out| - distance]], distance, n - 1)
  }

  /** One token applied to the output so far; None when it is illegal or does not fit. */
  function ApplyToken(out: seq<byte>, t: Token, room: nat): Option<seq<byte>> {
    if t.isLiteral then
      if |out| < room then Some(out + [t.literal]) else None
    else if t.distance == 0 || t.distance > |out| || |out| + t.length > room then None
    else Some(CopyBack(out, t.distance, t.length))
  }

  function Decode(out: seq<byte>, tokens: seq<Token>, room: nat): Option<seq<byte>>
    decreases |tokens|
  {
    if tokens == [] then Some(out)
    else match ApplyToken(out, tokens[0], room)
      case None => None
      case Some(next) => Decode(next, tokens[1..], room)
  }

  /** A copied run repeats with period `distance` and keeps what was there. */
  lemma {:induction false} CopyRepeats(out: seq<byte>, distance: nat, n: nat)
    requires 0 < distance <= |out|
    ensures var r := CopyBack(out, distance, n);
            && |r| == |out| + n && r[..|out|] == out
            && forall k :: |out| <= k < |r| ==> r[k] == r[k - distance]
    decreases n
  {
    if n > 0 {
      var more := out + [out[|out| - distance]];
      CopyRepeats(more, distance, n - 1);
      var r := CopyBack(out, distance, n);
      assert r[..|more|] == more;
      assert r[|out|] == more[|out|] && r[|out| - distance] == more[|out| - distance];
      assert r[..|out|] == more[..|out|];
    }
  }

  // Only one string extends `out` by `n` bytes with that period
  lemma {:induction false} PeriodDetermines(out: seq<byte>, distance: nat, n: nat, s: seq<byte>)
    requires 0 < distance <= |out| && |s| == |out| + n && s[..|out|] == out
    requires forall k :: |out| <= k < |s| ==> s[k] == s[k - distance]
    ensures CopyBack(out, distance, n) == s
    decreases n
  {
    if n > 0 {
      assert s[|out|] == s[|out| - distance] == out[|out| - distance];
      assert s[..|out| + 1] == out + [s[|out|]];
      PeriodDetermines(out + [s[|out|]], distance, n - 1, s);
    }
  }

  // ----- Factorisations -----

  /** The token stands for the bytes of `s` from `from` on, as far as it reaches. */
  predicate Stands(t: Token, s: seq<byte>, from: nat) {
    if t.isLiteral then from < |s| && s[from] == t.literal
    else
      && 0 < t.distance <= from && from + t.length <= |s|
      && forall k :: from <= k < from + t.length ==> s[k] == s[k - t.distance]
  }

  function Reach(t: Token): nat {
    if t.isLiteral then 1 else t.length
  }

  /** The tokens cut `s` from `from` on into literals and references back into `s`. */
  predicate Factorises(tokens: seq<Token>, s: seq<byte>, from: nat) {
    if tokens == [] then from == |s|
    else Stands(tokens[0], s, from) && Factorises(tokens[1..], s, from + Reach(tokens[0]))
  }

  lemma {:induction false} FactorisesReaches(tokens: seq<Token>, s: seq<byte>, from: nat)
    requires Factorises(tokens, s, from)
    ensures from <= |s|
  {
    if tokens != [] {
      FactorisesReaches(tokens[1..], s, from + Reach(tokens[0]));
    }
  }

  lemma ApplyStanding(out: seq<byte>, t: Token, room: nat, s: seq<byte>)
    requires |out| <= |s| <= room && s[..|out|] == out && Stands(t, s, |out|)
    ensures ApplyToken(out, t, room) == Some(s[..|out| + Reach(t)])
  {
    var e := |out| + Reach(t);
    if t.isLiteral {
      assert s[..e] == out + [t.literal];
    } else {
      var part := s[..e];
      assert part[..|out|] == out;
      forall k | |out| <= k < |part|
        ensures part[k] == part[k - t.distance]
      {
        assert s[k] == s[k - t.distance];
      }
      PeriodDetermines(out, t.distance, t.length, part);
    }
  }

  lemma {:induction false} FactorisationDecodes(tokens: seq<Token>, s: seq<byte>, out: seq<byte>, room: nat)
    requires |out| <= |s| <= room && s[..|out|] == out && Factorises(tokens, s, |out|)
    ensures Decode(out, tokens, room) == Some(s)
    decreases |tokens|
  {
    if tokens == [] {
      assert s[..|s|] == s;
    } else {
      ApplyStanding(out, tokens[0], room, s);
      FactorisesReaches(tokens[1..], s, |out| + Reach(tokens[0]));
      FactorisationDecodes(tokens[1..], s, s[..|out| + Reach(tokens[0])], room);
    }
  }

  lemma AppliedStands(out: seq<byte>, t: Token, room: nat)
    requires ApplyToken(out, t, room).Some? && |out| <= room
    ensures var next := ApplyToken(out, t, room).value;
            |next| == |out| + Reach(t) <= room && next[..|out|] == out && Stands(t, next, |out|)
  {
    if !t.isLiteral {
      CopyRepeats(out, t.distance, t.length);
    }
  }

  lemma {:induction false} DecodedFactorises(tokens: seq<Token>, out: seq<byte>, room: nat)
    requires Decode(out, tokens, room).Some? && |out| <= room
    ensures var s := Decode(out, tokens, room).value;
            |out| <= |s| <= room && s[..|out|] == out && Factorises(tokens, s, |out|)
    decreases |tokens|
  {
    if tokens == [] {
      assert out[..|out|] == out;
    } else {
      var next := ApplyToken(out, tokens[0], room).value;
      AppliedStands(out, tokens[0], room);
      DecodedFactorises(tokens[1..], next, room);
      var s := Decode(out, tokens, room).value;
      assert s[..|out|] == s[..|next|][..|out|];
      StandsInLonger(tokens[0], next, s, |out|);
    }
  }

  lemma StandsInLonger(t: Token, p: seq<byte>, s: seq<byte>, from: nat)
    requires |p| <= |s| && s[..|p|] == p && Stands(t, p, from)
    ensures Stands(t, s, from)
  {
    assert forall k :: 0 <= k < |p| ==> s[k] == p[k];
  }

  /** Decoding gives `s` exactly when the tokens are a factorisation of `s` and it fits. */
  lemma DecodeIffFactorises(tokens: seq<Token>, s: seq<byte>, room: nat)
    ensures Decode([], tokens, room) == Some(s) <==> Factorises(tokens, s, 0) && |s| <= room
  {
    if Factorises(tokens, s, 0) && |s| <= room {
      FactorisationDecodes(tokens, s, [], room);
    }
    if Decode([], tokens, room) == Some(s) {
      DecodedFactorises(tokens, [], room);
    }
  }

  // ----- Success and concatenation -----

  function TotalReach(tokens: seq<Token>): nat {
    if tokens == [] then 0 else Reach(tokens[0]) + TotalReach(tokens[1..])
  }

  /** Every reference goes back at least one byte, and not beyond the start. */
  predicate LegalDistances(tokens: seq<Token>, from: nat) {
    tokens == []
    || ((tokens[0].isLiteral || 0 < tokens[0].distance <= from)
        && LegalDistances(tokens[1..], from + Reach(tokens[0])))
  }

  /** Decoding succeeds exactly when all distances are legal and the output fits. */
  lemma {:induction false} DecodeSucceeds(tokens: seq<Token>, out: seq<byte>, room: nat)
    requires |out| <= room
    ensures Decode(out, tokens, room).Some?
            <==> LegalDistances(tokens, |out|) && |out| + TotalReach(tokens) <= room
    decreases |tokens|
  {
    if tokens != [] && ApplyToken(out, tokens[0], room).Some? {
      AppliedStands(out, tokens[0], room);
      DecodeSucceeds(tokens[1..], ApplyToken(out, tokens[0], room).value, room);
    }
  }

  /** Decoding a concatenation is resuming on the second part. */
  lemma {:induction false} DecodeResumes(a: seq<Token>, b: seq<Token>, out: seq<byte>, room: nat)
    ensures Decode(out, a + b, room) ==
            match Decode(out, a, room)
            case None => None
            case Some(mid) => Decode(mid, b, room)
    decreases |a|
  {
    if a == [] {
      assert a + b == b;
    } else {
      assert (a + b)[1..] == a[1..] + b;
      match ApplyToken(out, a[0], room)
      case None =>
      case Some(next) => DecodeResumes(a[1..], b, next, room);
    }
  }

  // ----- The decoder -----

  /** Writes the decoded bytes to the front of `output`; on failure the size is left as it was. */
  method Decompress(tokens: seq<Token>, output: array<byte>, outputSize: u32, maxOut: u32)
    returns (ok: bool, size: u32)
    requires maxOut <= output.Length
    modifies output
    ensures ok <==> Decode([], tokens, maxOut).Some?
    ensures ok ==> size <= maxOut && output[..size] == Decode([], tokens, maxOut).value
    ensures ok ==> output[size..] == old(output[size..])
    ensures !ok ==> size == outputSize && output[maxOut..] == old(output[maxOut..])
  {
    var outPos: nat := 0;
    for i := 0 to |tokens|
      invariant outPos <= maxOut
      invariant output[outPos..] == old(output[outPos..])
      invariant Decode([], tokens, maxOut) == Decode(output[..outPos], tokens[i..], maxOut)
    {
      assert tokens[i..][0] == tokens[i] && tokens[i..][1..] == tokens[i + 1..];
      var fits, next := WriteToken(tokens[i], output, outPos, maxOut);
      if !fits {
        return false, outputSize;
      }
      outPos := next;
    }
    assert tokens[|tokens|..] == [];
    return true, outPos;
  }

  // Writes what one token stands for after the first `start` bytes
  method WriteToken(t: Token, output: array<byte>, start: nat, maxOut: nat) returns (fits: bool, outPos: nat)
    requires start <= maxOut <= output.Length
    modifies output
    ensures fits <==> ApplyToken(old(output[..start]), t, maxOut).Some?
    ensures start <= outPos <= maxOut && output[outPos..] == old(output[outPos..])
    ensures fits ==> output[..outPos] == ApplyToken(old(output[..start]), t, maxOut).value
  {
    if t.isLiteral {
      if start >= maxOut {
        return false, start;
      }
      output[start] := t.literal;
      assert output[..start + 1] == old(output[..start]) + [t.literal];
      return true, start + 1;
    }
    if t.distance == 0 || t.distance > start {
      return false, start;
    }
    fits, outPos := CopyRun(output, start, t.distance, t.length, maxOut);
  }

  // Copies one run, stopping where the room ends
  method CopyRun(output: array<byte>, start: nat, distance: nat, length: nat, maxOut: nat)
    returns (fits: bool, outPos: nat)
    requires 0 < distance <= start <= maxOut <= output.Length
    modifies output
    ensures fits <==> start + length <= maxOut
    ensures start <= outPos <= maxOut && output[outPos..] == old(output[outPos..])
    ensures fits ==> outPos == start + length
                     && output[..outPos] == CopyBack(old(output[..start]), distance, length)
  {
    outPos := start;
    for j := 0 to length
      invariant outPos == start + j <= maxOut
      invariant output[outPos..] == old(output[outPos..])
      invariant CopyBack(old(output[..start]), distance, length) ==
                CopyBack(output[..outPos], distance, length - j)
    {
      if outPos >= maxOut {
        return false, outPos;
      }
      ghost var out := output[..outPos];
      output[outPos] := output[outPos - distance];
      outPos := outPos + 1;
      assert output[..outPos] == out + [out[|out| - distance]];
    }
    return true, outPos;
  }
}
