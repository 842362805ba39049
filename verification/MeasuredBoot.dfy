/** Measured boot: an event log, the PCRs extended with its digests, and what equal PCRs prove. */
module MeasuredBoot {
  import opened Machine
  import opened Sha256
  import BootSecureSha256

  const DESCRIPTION_SIZE := 128

  type HashFunction = seq<byte> -> Digest

  const ZERO_DIGEST: Digest := seq(32, _ => 0)

  datatype Event = Event(pcrIndex: u32, digest: Digest, description: string, eventType: u32)

  // ----- Extending -----

  /** A PCR extended, from zero, with the digests in turn. */
  function Extended(h: HashFunction, digests: seq<Digest>): Digest {
    if digests == [] then ZERO_DIGEST
    else h(Extended(h, digests[..|digests| - 1]) + digests[|digests| - 1])
  }

  /** The digests that a log records for one PCR. */
  function DigestsFor(log: seq<Event>, pcr: nat): seq<Digest> {
    if log == [] then []
    else DigestsFor(log[..|log| - 1], pcr)
         + if log[|log| - 1].pcrIndex == pcr then [log[|log| - 1].digest] else []
  }

  /** The value that replaying a log gives one PCR. */
  function Replayed(h: HashFunction, log: seq<Event>, pcr: nat): Digest {
    Extended(h, DigestsFor(log, pcr))
  }

  lemma ExtendedSnoc(h: HashFunction, digests: seq<Digest>, d: Digest)
    ensures Extended(h, digests + [d]) == h(Extended(h, digests) + d)
  {
    assert (digests + [d])[..|digests|] == digests;
  }

  lemma ReplayedSnoc(h: HashFunction, log: seq<Event>, e: Event, pcr: nat)
    ensures DigestsFor(log + [e], pcr) ==
            DigestsFor(log, pcr) + if e.pcrIndex == pcr then [e.digest] else []
    ensures Replayed(h, log + [e], pcr) ==
            if e.pcrIndex == pcr then h(Replayed(h, log, pcr) + e.digest) else Replayed(h, log, pcr)
  {
    assert (log + [e])[..|log|] == log;
    if e.pcrIndex == pcr {
      ExtendedSnoc(h, DigestsFor(log, pcr), e.digest);
    } else {
      assert DigestsFor(log, pcr) + [] == DigestsFor(log, pcr);
    }
  }

  lemma {:induction false} DigestsForSomeEvent(log: seq<Event>, pcr: nat)
    ensures DigestsFor(log, pcr) != [] <==> exists k :: 0 <= k < |log| && log[k].pcrIndex == pcr
  {
    if log != [] {
      var front := log[..|log| - 1];
      DigestsForSomeEvent(front, pcr);
      if log[|log| - 1].pcrIndex != pcr {
        assert DigestsFor(log, pcr) == DigestsFor(front, pcr);
        if k :| 0 <= k < |front| && front[k].pcrIndex == pcr {
          assert log[k].pcrIndex == pcr;
        }
        if k :| 0 <= k < |log| && log[k].pcrIndex == pcr {
          assert front[k].pcrIndex == pcr;
        }
      }
    }
  }

  /** A description is kept up to 127 characters. */
  lemma ShortenedDescription(s: string)
    ensures |s| <= 127 ==> Shortened(s) == s
    ensures |s| > 127 ==> Shortened(s) == s[..127]
  {
  }

  // ----- What equal PCRs prove -----

  /** The two inputs hashed at step `k` differ but have one hash. */
  ghost predicate CollideAtStep(h: HashFunction, x: seq<Digest>, y: seq<Digest>, k: nat) {
    && k < |x| && k < |y|
    && (var u, v := Extended(h, x[..k]) + x[k], Extended(h, y[..k]) + y[k];
        u != v && h(u) == h(v))
  }

  /** Equally long digest sequences with one PCR value are equal, or exhibit a hash collision. */
  lemma {:induction false} EqualPcrsEqualDigests(h: HashFunction, x: seq<Digest>, y: seq<Digest>)
    requires |x| == |y| && Extended(h, x) == Extended(h, y)
    ensures x == y || exists k: nat :: CollideAtStep(h, x, y, k)
  {
    if |x| > 0 {
      var n := |x| - 1;
      var u, v := Extended(h, x[..n]) + x[n], Extended(h, y[..n]) + y[n];
      if u != v {
        assert CollideAtStep(h, x, y, n);
      } else {
        assert u[..32] == Extended(h, x[..n]) && v[..32] == Extended(h, y[..n]);
        assert u[32..] == x[n] && v[32..] == y[n];
        EqualPcrsEqualDigests(h, x[..n], y[..n]);
        assert x == x[..n] + [x[n]] && y == y[..n] + [y[n]];
        if k: nat :| CollideAtStep(h, x[..n], y[..n], k) {
          assert x[..n][..k] == x[..k] && y[..n][..k] == y[..k];
          assert CollideAtStep(h, x, y, k);
        }
      }
    }
  }

  /** Two logs that give a PCR one value through equally many events record equal digests for it. */
  lemma LogsAgree(h: HashFunction, a: seq<Event>, b: seq<Event>, pcr: nat)
    requires |DigestsFor(a, pcr)| == |DigestsFor(b, pcr)|
    requires Replayed(h, a, pcr) == Replayed(h, b, pcr)
    requires forall k: nat :: !CollideAtStep(h, DigestsFor(a, pcr), DigestsFor(b, pcr), k)
    ensures DigestsFor(a, pcr) == DigestsFor(b, pcr)
  {
    EqualPcrsEqualDigests(h, DigestsFor(a, pcr), DigestsFor(b, pcr));
  }

  // ----- The bank -----

  class PcrBank {
    const compress: Compression
    const pcrs: array<Digest>
    const initialized: array<bool>

    ghost predicate Shaped() {
      pcrs.Length == initialized.Length
    }

    /** The bank holds what replaying `log` gives. */
    ghost predicate Holds(log: seq<Event>)
      reads pcrs, initialized
    {
      && Shaped()
      && (forall i :: 0 <= i < pcrs.Length ==> pcrs[i] == Replayed(m => Hash(compress, m), log, i))
      && (forall i :: 0 <= i < pcrs.Length ==> (initialized[i] <==> DigestsFor(log, i) != []))
    }

    constructor (compress: Compression, count: nat)
      ensures Holds([]) && fresh(pcrs) && fresh(initialized)
      ensures this.compress == compress && pcrs.Length == count
      ensures forall i, k :: 0 <= i < count && 0 <= k < 32 ==> !initialized[i] && pcrs[i][k] == 0
    {
      this.compress := compress;
      pcrs := new Digest[count](_ => ZERO_DIGEST);
      initialized := new bool[count](_ => false);
    }

    method Extend(index: u32, digest: Digest) returns (ok: bool)
      requires Shaped()
      modifies pcrs, initialized
      ensures ok <==> index < pcrs.Length
      ensures !ok ==> unchanged(pcrs) && unchanged(initialized)
      ensures ok ==> pcrs[..] == old(pcrs[..])[index := Hash(compress, old(pcrs[index]) + digest)]
      ensures ok ==> initialized[..] == old(initialized[..])[index := true]
    {
      if index >= pcrs.Length {
        return false;
      }
      var concat := pcrs[index] + digest;
      pcrs[index] := BootSecureSha256.HashMessage(compress, concat);
      initialized[index] := true;
      return true;
    }

    method Verify(index: u32, expected: Digest) returns (same: bool)
      requires Shaped()
      ensures same <==> index < pcrs.Length && initialized[index] && pcrs[index] == expected
    {
      if index >= pcrs.Length || !initialized[index] {
        return false;
      }
      return pcrs[index] == expected;
    }
  }

  // ----- The log -----

  class BootMeasureLog {
    const events: array<Event>
    var eventCount: nat
    const bank: PcrBank

    function Log(): seq<Event>
      requires eventCount <= events.Length
      reads this, events
    {
      events[..eventCount]
    }

    /** Every PCR is the fold of the logged events for it, and set up exactly when there is one. */
    ghost predicate Valid()
      reads this, events, bank, bank.pcrs, bank.initialized
    {
      && eventCount <= events.Length
      && bank.Holds(Log())
      && forall k :: 0 <= k < eventCount ==> events[k].pcrIndex < bank.pcrs.Length
    }

    constructor (compress: Compression, maxEvents: nat, maxPcr: nat)
      ensures Valid() && Log() == [] && fresh(events) && fresh(bank) && fresh(bank.pcrs) && fresh(bank.initialized)
      ensures events.Length == maxEvents && bank.pcrs.Length == maxPcr && bank.compress == compress
      ensures forall i, k :: 0 <= i < maxPcr && 0 <= k < 32 ==> bank.pcrs[i][k] == 0
    {
      events := new Event[maxEvents](_ => Event(0, ZERO_DIGEST, "", 0));
      eventCount := 0;
      bank := new PcrBank(compress, maxPcr);
      new;
      assert Log() == [];
    }

    /** Fails on a full log or a bad PCR index, and then leaves the log and the PCRs as they were. */
    method MeasureEvent(pcrIndex: u32, data: seq<byte>, description: string, eventType: u32) returns (ok: bool)
      requires Valid() && |data| < TWO_32
      modifies this`eventCount, events, bank.pcrs, bank.initialized
      ensures Valid()
      ensures ok <==> old(eventCount) < events.Length && pcrIndex < bank.pcrs.Length
      ensures !ok ==> unchanged(bank.pcrs) && unchanged(bank.initialized)
      ensures Log() ==
              if ok then old(Log()) + [Event(pcrIndex, Hash(bank.compress, data), Shortened(description), eventType)]
              else old(Log())
    {
      if eventCount >= events.Length {
        return false;
      }
      var digest := BootSecureSha256.HashMessage(bank.compress, data);
      var event := Event(pcrIndex, digest, Shortened(description), eventType);
      ghost var log := Log();
      events[eventCount] := event;
      var extended := bank.Extend(pcrIndex, digest);
      assert events[..eventCount] == log;
      if !extended {
        return false;
      }
      eventCount := eventCount + 1;
      assert Log() == log + [event];
      forall i | 0 <= i < bank.pcrs.Length
        ensures bank.pcrs[i] == Replayed(m => Hash(bank.compress, m), Log(), i)
        ensures bank.initialized[i] <==> DigestsFor(Log(), i) != []
      {
        ReplayedSnoc(m => Hash(bank.compress, m), log, event, i);
        assert bank.pcrs[i] == bank.pcrs[..][i] && bank.initialized[i] == bank.initialized[..][i];
      }
      return true;
    }

    method Verify(pcrIndex: u32, expected: Digest) returns (same: bool)
      requires Valid()
      ensures same <==> && pcrIndex < bank.pcrs.Length
                        && (exists k :: 0 <= k < eventCount && events[k].pcrIndex == pcrIndex)
                        && expected == Replayed(m => Hash(bank.compress, m), Log(), pcrIndex)
    {
      DigestsForSomeEvent(Log(), pcrIndex);
      assert forall k :: 0 <= k < eventCount ==> Log()[k] == events[k];
      same := bank.Verify(pcrIndex, expected);
    }
  }

  // What a buffer of 128 characters keeps of a description
  function Shortened(s: string): string {
    if |s| < DESCRIPTION_SIZE then s else s[..DESCRIPTION_SIZE - 1]
  }
}
