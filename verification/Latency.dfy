/** The latency client (latency_client.c:117-228) as one party of a protocol: it sends a batch, the server
    echoes packets in any order, the network may delay or lose them, and the client waits until its count of
    outstanding packets is back at 0 or a second has passed. Packets are the actual frames. */
module Latency {
  import opened Arith
  import opened Wire
  import opened Echo
  import opened Prepare
  import opened Receiver

  datatype Config = Config(ends: Ends, server: ServerConfig, burst: nat, len: nat, hz: nat)

  const RX_BURST := 64

  /** The client addresses the server, and its payload has room for the timestamp. */
  ghost predicate Sane(c: Config) {
    && EndsInRange(c.ends) && c.len >= 8 && 1 <= c.burst <= RX_BURST && 0 < c.hz < U64
    && c.server == ServerConfig(c.ends.dstMac, c.ends.dstIp, false, c.server.arp, true)
  }

  // ----- packets

  /** What differs between packets: the timestamp and the two checksums. */
  datatype Stamp = Stamp(ts: nat, ipCksum: nat, udpCksum: nat)

  /** The bytes after the timestamp are all 0xAB. */
  function Fill(len: nat): (f: Frame)
    ensures |f| == len
  {
    seq(len, _ => 0xAB)
  }

  function Probe(c: Config, st: Stamp): Frame
    requires c.len >= 8
  {
    UdpFrame(Plain, c.ends, NumberedPayload(st.ts, c.len, Fill(c.len)), st.ipCksum, st.udpCksum)
  }

  function EchoOf(c: Config, st: Stamp): Frame
    requires c.len >= 8
  {
    Swapped(Probe(c, st), false)
  }

  /** The timestamp of a frame, at its place behind the three headers. */
  function TsOf(f: Frame): nat {
    if |f| >= 50 then LeValue(f[42..50]) else 0
  }

  /** The server accepts a probe, the client accepts its echo, and both carry the timestamp written. */
  lemma ProbeFacts(c: Config, st: Stamp)
    requires Sane(c) && st.ts < U64
    ensures HasHeaders(Probe(c, st), false) && Accepts(c.server, Probe(c, st))
    ensures |EchoOf(c, st)| >= 50 && PassesEthernet(EchoOf(c, st), c.ends.srcMac)
    ensures EtherType(EchoOf(c, st)) == ETHER_TYPE_IPV4
    ensures TsOf(Probe(c, st)) == st.ts && TsOf(EchoOf(c, st)) == st.ts
  {
    var payload := NumberedPayload(st.ts, c.len, Fill(c.len));
    EchoOfBuilt(Plain, c.ends, payload, st.ipCksum, st.udpCksum);
    UdpFrameFields(Plain, c.ends, payload, st.ipCksum, st.udpCksum);
    PayloadStamp(Probe(c, st), st.ts, payload);
    PayloadStamp(EchoOf(c, st), st.ts, payload);
  }

  lemma PayloadStamp(f: Frame, ts: nat, payload: Frame)
    requires ts < U64 && |f| >= 50 && f[42..] == payload && payload[..8] == Le64(ts)
    ensures TsOf(f) == ts
  {
    assert f[42..50] == f[42..][..8];
    Le64RoundTrip(ts);
  }

  // ----- the client's receive loop

  datatype Sample = Sample(ts: nat, at: nat)

  /** nb_tx and the samples behind `measurements`. */
  datatype Count = Count(nbTx: nat, samples: seq<Sample>)

  /** One received buffer. */
  function HandleOne(c: Config, k: Count, f: Frame, at: nat): Count
    requires |f| >= 50
  {
    if !PassesEthernet(f, c.ends.srcMac) then k
    else
      var nbTx := (k.nbTx + U32 - 1) % U32;  // unsigned decrement
      if EtherType(f) != ETHER_TYPE_IPV4 then k.(nbTx := nbTx)
      else Count(nbTx, k.samples + [Sample(TsOf(f), at)])
  }

  function HandleAll(c: Config, k: Count, frames: seq<Frame>, at: nat): Count
    requires forall i | 0 <= i < |frames| :: |frames[i]| >= 50
  {
    if frames == [] then k
    else HandleOne(c, HandleAll(c, k, frames[..|frames| - 1], at), frames[|frames| - 1], at)
  }

  /** One turn of the polling loop: what was found, and the clock when checked for the timeout, when the frames
      are handled, and when waiting starts again. */
  datatype Poll = Poll(frames: seq<Frame>, checked: nat, at: nat, again: nat)

  // `missing` packets were still counted; `kept` were received by the poll that timed out, and nobody looks at them
  // or frees them
  datatype Outcome = StillWaiting | AllBack | TimedOut(missing: nat, kept: nat)

  ghost predicate LongPolls(polls: seq<Poll>) {
    forall p, i | 0 <= p < |polls| && 0 <= i < |polls[p].frames| :: |polls[p].frames[i]| >= 50
  }

  /** The receive phase after a batch, begun at clock `start`: the timeout is per wait, and a poll that finds it
      over is not looked at, even if it found packets. */
  ghost function Phase(c: Config, k: Count, start: nat, polls: seq<Poll>): (Count, Outcome)
    requires LongPolls(polls)
    decreases |polls|
  {
    if polls == [] then (k, StillWaiting)
    else
      var p := polls[0];
      if p.checked - start > c.hz then (k, TimedOut(k.nbTx, |p.frames|))
      else if p.frames == [] then Phase(c, k, start, polls[1..])
      else
        var k' := HandleAll(c, k, p.frames, p.at);
        if k'.nbTx > 0 then Phase(c, k', p.again, polls[1..]) else (k', AllBack)
  }

  // ----- when a receive phase ends

  /** When the wait that poll j belongs to began: after the last poll that found packets. */
  function WaitStart(start: nat, polls: seq<Poll>, j: nat): nat
    requires j <= |polls|
  {
    if j == 0 then start
    else if polls[j - 1].frames == [] then WaitStart(start, polls, j - 1)
    else polls[j - 1].again
  }

  /** The count after the frames of the first j polls. */
  ghost function CountAfter(c: Config, k: Count, polls: seq<Poll>, j: nat): Count
    requires LongPolls(polls) && j <= |polls|
  {
    if j == 0 then k else HandleAll(c, CountAfter(c, k, polls, j - 1), polls[j - 1].frames, polls[j - 1].at)
  }

  predicate WaitOver(c: Config, start: nat, polls: seq<Poll>, j: nat)
    requires j < |polls|
  {
    polls[j].checked - WaitStart(start, polls, j) > c.hz
  }

  ghost predicate NoneMissing(c: Config, k: Count, polls: seq<Poll>, j: nat)
    requires LongPolls(polls) && j < |polls|
  {
    polls[j].frames != [] && CountAfter(c, k, polls, j + 1).nbTx == 0
  }

  /** Neither the wait nor the count ends the phase before poll j. */
  ghost predicate OpenUntil(c: Config, k: Count, start: nat, polls: seq<Poll>, j: nat)
    requires LongPolls(polls) && j <= |polls|
  {
    forall i | 0 <= i < j :: !WaitOver(c, start, polls, i) && !NoneMissing(c, k, polls, i)
  }

  lemma {:induction false} PhaseFrom(c: Config, k: Count, start: nat, polls: seq<Poll>, j: nat)
    requires LongPolls(polls) && j <= |polls| && OpenUntil(c, k, start, polls, j)
    ensures Phase(c, k, start, polls)
         == Phase(c, CountAfter(c, k, polls, j), WaitStart(start, polls, j), polls[j..])
    decreases j
  {
    if j == 0 {
      assert polls[0..] == polls;
    } else {
      PhaseFrom(c, k, start, polls, j - 1);
      assert !WaitOver(c, start, polls, j - 1) && !NoneMissing(c, k, polls, j - 1);
      assert polls[j - 1..][0] == polls[j - 1] && polls[j - 1..][1..] == polls[j..];
    }
  }

  /** A receive phase ends at the first poll that finds its wait over, with what was counted before it, or whose packets
      bring the count to 0. */
  lemma PhaseEndsAt(c: Config, k: Count, start: nat, polls: seq<Poll>, j: nat)
    requires LongPolls(polls) && j < |polls| && OpenUntil(c, k, start, polls, j)
    ensures WaitOver(c, start, polls, j) ==>
      Phase(c, k, start, polls)
      == (CountAfter(c, k, polls, j), TimedOut(CountAfter(c, k, polls, j).nbTx, |polls[j].frames|))
    ensures !WaitOver(c, start, polls, j) && NoneMissing(c, k, polls, j) ==>
      Phase(c, k, start, polls) == (CountAfter(c, k, polls, j + 1), AllBack)
  {
    PhaseFrom(c, k, start, polls, j);
    assert polls[j..][0] == polls[j];
  }

  /** ... and until then it waits. */
  lemma PhaseWaits(c: Config, k: Count, start: nat, polls: seq<Poll>)
    requires LongPolls(polls) && OpenUntil(c, k, start, polls, |polls|)
    ensures Phase(c, k, start, polls) == (CountAfter(c, k, polls, |polls|), StillWaiting)
  {
    PhaseFrom(c, k, start, polls, |polls|);
  }

  /** One turn of the main loop: what the packets of the batch carry, how many the NIC takes, and the receive phase. */
  datatype Round = Round(stamps: seq<Stamp>, taken: nat, start: nat, polls: seq<Poll>)

  ghost predicate AllRounds(c: Config, rounds: seq<Round>) {
    forall i | 0 <= i < |rounds| ::
      |rounds[i].stamps| == c.burst && rounds[i].taken <= c.burst && LongPolls(rounds[i].polls)
  }

  /** The main loop: the count and the samples it leaves, and how each receive phase ended. */
  ghost function Rounds(c: Config, k: Count, rounds: seq<Round>): (Count, seq<Outcome>)
    requires AllRounds(c, rounds)
    decreases |rounds|
  {
    if rounds == [] then (k, [])
    else
      var (k', o) := Phase(c, Count(rounds[0].taken, k.samples), rounds[0].start, rounds[0].polls);
      if o == StillWaiting then (k', [o])
      else
        var (t, more) := Rounds(c, k', rounds[1..]);
        (t, [o] + more)
  }

  /** Buffers that a round neither sends nor frees. */
  function KeptBy(c: Config, taken: nat, o: Outcome): nat
    requires taken <= c.burst
  {
    c.burst - taken + if o.TimedOut? then o.kept else 0
  }

  function KeptInAll(c: Config, rounds: seq<Round>, outcomes: seq<Outcome>): nat
    requires forall i | 0 <= i < |rounds| :: rounds[i].taken <= c.burst
  {
    if outcomes == [] || rounds == [] then 0
    else KeptBy(c, rounds[0].taken, outcomes[0]) + KeptInAll(c, rounds[1..], outcomes[1..])
  }

  /** Elapsed nanoseconds, in the 64-bit arithmetic of the source. */
  function LatencyNs(s: Sample, hz: nat): nat
    requires hz > 0
  {
    ((s.at - s.ts) % U64 * 1000000000) % U64 / hz
  }

  /** ... which is exact just when the scaled difference fits. */
  lemma LatencyExactNs(s: Sample, hz: nat)
    requires 0 < hz < U64 && s.ts <= s.at
    ensures LatencyNs(s, hz) == (s.at - s.ts) * 1000000000 / hz <==> (s.at - s.ts) * 1000000000 < U64
  {
    ScaledExact(s.at - s.ts, 1000000000, U64, hz);
  }

  function Latencies(samples: seq<Sample>, hz: nat): seq<nat>
    requires hz > 0
  {
    seq(|samples|, i requires 0 <= i < |samples| => LatencyNs(samples[i], hz))
  }

  class LatencyClient {
    const c: Config
    var nbTx: nat
    var measurements: seq<nat>
    ghost var samples: seq<Sample>

    ghost predicate Valid()
      reads this
    {
      Sane(c) && nbTx < U32 && measurements == Latencies(samples, c.hz)
    }

    constructor (c: Config)
      requires Sane(c)
      ensures Valid() && this.c == c && nbTx == 0 && samples == []
    {
      this.c := c;
      nbTx, measurements, samples := 0, [], [];
    }

    /** Build one packet of a batch (latency_client.c:125-165). */
    method BuildProbe(buf: Mbuf, st: Stamp)
      requires Valid() && buf.data == []
      modifies buf
      ensures buf.data == Probe(c, st)
    {
      var e := c.ends;
      AppendL2(buf, Plain, e);
      AppendIpv4Udp(buf, e, c.len);
      ghost var h, payload := UdpHeaders(Plain, e, c.len, 0, 0), NumberedPayload(st.ts, c.len, Fill(c.len));
      assert buf.data == h;
      var at := buf.Append(c.len);
      PayloadTimestamp(buf, at, c.len, st.ts, Fill(c.len));
      assert buf.data == h + payload;
      buf.Put(24, Be16(st.ipCksum));
      buf.Put(40, Be16(st.udpCksum));
      ChecksumsInPlace(h + payload, e, payload, st.ipCksum, st.udpCksum);
    }

    /** Build a batch and hand it to the NIC, which takes some; the source forgets the others. */
    method SendBatch(bufs: seq<Mbuf>, stamps: seq<Stamp>, taken: nat) returns (sent: seq<Mbuf>, kept: seq<Mbuf>)
      requires Valid() && |bufs| == |stamps| == c.burst && taken <= c.burst
      requires forall i | 0 <= i < |bufs| :: bufs[i].data == []
      requires forall i, j | 0 <= i < j < |bufs| :: bufs[i] != bufs[j]
      modifies this`nbTx, bufs
      ensures Valid() && nbTx == taken && sent + kept == bufs && |sent| == taken
      ensures forall i | 0 <= i < |bufs| :: bufs[i].data == Probe(c, stamps[i])
    {
      for i := 0 to |bufs|
        invariant Valid()
        invariant forall j | i <= j < |bufs| :: bufs[j].data == []
        invariant forall j | 0 <= j < i :: bufs[j].data == Probe(c, stamps[j])
      {
        BuildProbe(bufs[i], stamps[i]);
      }
      nbTx := taken;
      sent, kept := bufs[..taken], bufs[taken..];
    }

    /** One buffer of a received burst, then the latency it shows; freed in every case. */
    method HandleBuffer(buf: Mbuf, at: nat) returns (freed: seq<Mbuf>)
      requires Valid() && |buf.data| >= 50
      modifies this
      ensures Valid() && Count(nbTx, samples) == HandleOne(c, old(Count(nbTx, samples)), buf.data, at)
      ensures freed == [buf]
    {
      var f := buf.data;
      if !PassesEthernet(f, c.ends.srcMac) {
        return [buf];
      }
      nbTx := (nbTx + U32 - 1) % U32;
      if EtherType(f) != ETHER_TYPE_IPV4 {
        return [buf];
      }
      var s := Sample(LeValue(f[42..50]), at);
      freed := [buf];
      measurements := measurements + [LatencyNs(s, c.hz)];
      samples := samples + [s];
    }

    method HandleBurst(bufs: seq<Mbuf>, ghost frames: seq<Frame>, at: nat) returns (freed: seq<Mbuf>)
      requires Valid() && Carries(bufs, frames)
      modifies this
      ensures Valid() && Count(nbTx, samples) == HandleAll(c, old(Count(nbTx, samples)), frames, at)
      ensures freed == bufs
    {
      freed := [];
      for j := 0 to |bufs|
        invariant Valid() && freed == bufs[..j]
        invariant Count(nbTx, samples) == HandleAll(c, old(Count(nbTx, samples)), frames[..j], at)
      {
        assert frames[..j + 1][..j] == frames[..j];
        var one := HandleBuffer(bufs[j], at);
        freed := freed + one;
      }
      assert frames[..|frames|] == frames;
    }

    /** From the label `recv` to the next batch, as far as the given polls go. The buffers of the first `used` polls
        are freed, each once and in order; those of a poll that finds the time over are not. */
    method Receive(start: nat, polls: seq<Poll>, rx: seq<seq<Mbuf>>)
      returns (o: Outcome, used: nat, freed: seq<Mbuf>)
      requires Valid() && |rx| == |polls| && forall p | 0 <= p < |polls| :: Carries(rx[p], polls[p].frames)
      modifies this
      ensures Valid() && LongPolls(polls)
      ensures (Count(nbTx, samples), o) == Phase(c, old(Count(nbTx, samples)), start, polls)
      ensures used <= |polls| && freed == Flat(rx[..used])
      ensures o.StillWaiting? ==> used == |polls|
      ensures o.TimedOut? ==> used < |polls| && o.kept == |rx[used]|
    {
      var since := start;
      used, freed := 0, [];
      while used < |polls|
        invariant used <= |polls| && Valid() && freed == Flat(rx[..used])
        invariant Phase(c, old(Count(nbTx, samples)), start, polls)
               == Phase(c, Count(nbTx, samples), since, polls[used..])
      {
        assert polls[used..][1..] == polls[used + 1..] && rx[..used + 1][..used] == rx[..used];
        var p := polls[used];
        if p.checked - since > c.hz {
          return TimedOut(nbTx, |rx[used]|), used, freed;
        }
        if rx[used] != [] {
          var done := HandleBurst(rx[used], p.frames, p.at);
          freed, used := freed + done, used + 1;
          if nbTx == 0 {
            return AllBack, used, freed;
          }
          since := p.again;
        } else {
          used := used + 1;
        }
      }
      return StillWaiting, used, freed;
    }

    /** Buffers of a batch, fresh from the pool. */
    method AllocBatch() returns (bufs: seq<Mbuf>)
      ensures |bufs| == c.burst && fresh(bufs)
      ensures forall i | 0 <= i < |bufs| :: bufs[i].data == []
      ensures forall i, j | 0 <= i < j < |bufs| :: bufs[i] != bufs[j]
    {
      bufs := [];
      for i := 0 to c.burst
        invariant |bufs| == i && fresh(bufs)
        invariant forall j | 0 <= j < i :: bufs[j].data == []
        invariant forall j, k | 0 <= j < k < i :: bufs[j] != bufs[k]
      {
        var b := new Mbuf();
        bufs := bufs + [b];
      }
    }

    /** One round: a batch, then its receive phase. */
    method PlayRound(r: Round, rx: seq<seq<Mbuf>>) returns (o: Outcome, kept: nat)
      requires Valid() && |r.stamps| == c.burst && r.taken <= c.burst
      requires Delivers(rx, r)
      modifies this
      ensures Valid() && LongPolls(r.polls)
      ensures (Count(nbTx, samples), o) == Phase(c, Count(r.taken, old(samples)), r.start, r.polls)
      ensures kept == KeptBy(c, r.taken, o)
    {
      var bufs := AllocBatch();
      var sent, left := SendBatch(bufs, r.stamps, r.taken);
      var used, freed;
      o, used, freed := Receive(r.start, r.polls, rx);
      kept := |left| + if o.TimedOut? then |rx[used]| else 0;
    }

    /** The main loop, over as many rounds as are given. */
    method Loop(rounds: seq<Round>, rx: seq<seq<seq<Mbuf>>>) returns (outcomes: seq<Outcome>, kept: nat)
      requires Valid() && AllRounds(c, rounds) && |rx| == |rounds|
      requires AllDeliver(rx, rounds)
      modifies this
      ensures Valid() && (Count(nbTx, samples), outcomes) == Rounds(c, old(Count(nbTx, samples)), rounds)
      ensures kept == KeptInAll(c, rounds, outcomes)
    {
      outcomes, kept := [], 0;
      ghost var rest := rounds;
      LoopStart(c, Count(nbTx, samples), rounds);
      for i := 0 to |rounds|
        invariant Valid() && rest == rounds[i..] && AllRounds(c, rest) && AllDeliver(rx, rounds)
        invariant LoopSoFar(c, old(Count(nbTx, samples)), rounds, Count(nbTx, samples), outcomes, rest, kept)
      {
        ghost var k0, before := old(Count(nbTx, samples)), Count(nbTx, samples);
        assert rest[0] == rounds[i] && rest[1..] == rounds[i + 1..];
        var o, k := PlayRound(rounds[i], rx[i]);
        LoopStep(c, k0, rounds, before, outcomes, rest, kept, Count(nbTx, samples), o);
        outcomes, kept := outcomes + [o], kept + k;
        if o == StillWaiting {
          return;
        }
        rest := rest[1..];
      }
      LoopEnd(c, old(Count(nbTx, samples)), rounds, Count(nbTx, samples), outcomes, kept);
    }
  }

  /** The bytes in the buffers of one burst, long enough to hold a timestamp. */
  ghost predicate Carries(bufs: seq<Mbuf>, frames: seq<Frame>)
    reads set b | b in bufs
  {
    |frames| == |bufs| && forall i | 0 <= i < |bufs| :: bufs[i].data == frames[i] && |frames[i]| >= 50
  }

  ghost predicate Delivers(rx: seq<seq<Mbuf>>, r: Round)
    reads set p, b | 0 <= p < |rx| && b in rx[p] :: b
  {
    |rx| == |r.polls| && forall p | 0 <= p < |rx| :: Carries(rx[p], r.polls[p].frames)
  }

  ghost predicate AllDeliver(rx: seq<seq<seq<Mbuf>>>, rounds: seq<Round>)
    reads set i, p, b | 0 <= i < |rx| && 0 <= p < |rx[i]| && b in rx[i][p] :: b
  {
    |rx| == |rounds| && forall i | 0 <= i < |rx| :: Delivers(rx[i], rounds[i])
  }

  /** With `outcomes` behind it and `rest` before it, the loop is on the way to the result of all rounds. */
  ghost predicate LoopSoFar(c: Config, k0: Count, rounds: seq<Round>, k: Count, outcomes: seq<Outcome>,
                            rest: seq<Round>, kept: nat)
    requires AllRounds(c, rounds) && AllRounds(c, rest)
  {
    var (t, more) := Rounds(c, k, rest);
    && Rounds(c, k0, rounds) == (t, outcomes + more)
    && KeptInAll(c, rounds, outcomes + more) == kept + KeptInAll(c, rest, more)
  }

  lemma LoopStart(c: Config, k: Count, rounds: seq<Round>)
    requires AllRounds(c, rounds)
    ensures LoopSoFar(c, k, rounds, k, [], rounds, 0)
  {
    var more := Rounds(c, k, rounds).1;
    assert [] + more == more;
  }

  lemma LoopEnd(c: Config, k0: Count, rounds: seq<Round>, k: Count, outcomes: seq<Outcome>, kept: nat)
    requires AllRounds(c, rounds) && LoopSoFar(c, k0, rounds, k, outcomes, [], kept)
    ensures Rounds(c, k0, rounds) == (k, outcomes) && KeptInAll(c, rounds, outcomes) == kept
  {
    assert outcomes + [] == outcomes;
  }

  lemma LoopStep(c: Config, k0: Count, rounds: seq<Round>, k: Count, outcomes: seq<Outcome>, rest: seq<Round>,
                 kept: nat, k': Count, o: Outcome)
    requires AllRounds(c, rounds) && AllRounds(c, rest) && rest != []
    requires LoopSoFar(c, k0, rounds, k, outcomes, rest, kept)
    requires (k', o) == Phase(c, Count(rest[0].taken, k.samples), rest[0].start, rest[0].polls)
    ensures var kept' := kept + KeptBy(c, rest[0].taken, o);
      if o == StillWaiting then
        Rounds(c, k0, rounds) == (k', outcomes + [o]) && KeptInAll(c, rounds, outcomes + [o]) == kept'
      else LoopSoFar(c, k0, rounds, k', outcomes + [o], rest[1..], kept')
  {
    var more := Rounds(c, k, rest).1;
    assert more[0] == o;
    if o == StillWaiting {
      assert more == [o] && more[1..] == [];
      assert KeptInAll(c, rest, more) == KeptBy(c, rest[0].taken, o) + KeptInAll(c, rest[1..], more[1..]);
    } else {
      var later := Rounds(c, k', rest[1..]).1;
      assert more == [o] + later && more[1..] == later;
      assert outcomes + more == (outcomes + [o]) + later;
    }
  }

  /** The header bytes in front of the IPv4 checksum. */
  function Front(e: Ends, len: nat): (b: Frame)
    ensures |b| == 24
  {
    L2Header(Plain, e) + ([0x45, 0] + Be16(28 + len) + [0, 0, 0, 0, 64, PROTO_UDP])
  }

  /** The header bytes between the two checksums. */
  function Back(e: Ends, len: nat): (b: Frame)
    ensures |b| == 14
  {
    Be32(e.srcIp) + Be32(e.dstIp) + (Be16(e.srcPort) + Be16(e.dstPort) + Be16(8 + len))
  }

  lemma HeaderPieces(e: Ends, len: nat, ic: nat, uc: nat)
    ensures UdpHeaders(Plain, e, len, ic, uc) == Front(e, len) + Be16(ic) + Back(e, len) + Be16(uc)
  {
    var a, b := L2Header(Plain, e), [0x45, 0] + Be16(28 + len) + [0, 0, 0, 0, 64, PROTO_UDP];
    var c, d := Be32(e.srcIp) + Be32(e.dstIp), Be16(e.srcPort) + Be16(e.dstPort) + Be16(8 + len);
    assert Ipv4Header(e.srcIp, e.dstIp, 28 + len, PROTO_UDP, ic) == b + Be16(ic) + c;
    Regroup(a, b, Be16(ic), c, d, Be16(uc));
  }

  lemma Regroup(a: Frame, b: Frame, i: Frame, c: Frame, d: Frame, u: Frame)
    ensures a + (b + i + c) + (d + u) == (a + b) + i + (c + d) + u
  {
  }

  /** Filling in the two checksum fields of an untagged frame built with zeroes there. */
  lemma ChecksumsInPlace(d: Frame, e: Ends, payload: Frame, ic: nat, uc: nat)
    requires d == UdpHeaders(Plain, e, |payload|, 0, 0) + payload
    ensures var f := d[..24] + Be16(ic) + d[26..];
      f[..40] + Be16(uc) + f[42..] == UdpFrame(Plain, e, payload, ic, uc)
  {
    HeaderPieces(e, |payload|, 0, 0);
    HeaderPieces(e, |payload|, ic, uc);
    PatchPieces(Front(e, |payload|), Be16(0), Back(e, |payload|), Be16(0), payload, Be16(ic), Be16(uc));
  }

  lemma PatchPieces(a: Frame, i: Frame, b: Frame, u: Frame, p: Frame, i': Frame, u': Frame)
    requires |a| == 24 && |i| == |i'| == |u| == |u'| == 2 && |b| == 14
    ensures var d := a + i + b + u + p;
      var f := d[..24] + i' + d[26..];
      f[..40] + u' + f[42..] == a + i' + b + u' + p
  {
    var d := a + i + b + u + p;
    var f := d[..24] + i' + d[26..];
    assert f == a + i' + b + u + p;
  }
}
