/** One burst of client packets (client.c:311-340) and the client addresses it can carry
    (include/client/prepare_packet.h:90-99). */
module Burst {
  import opened Arith
  import opened Wire
  import opened Rand
  import opened Prepare

  /** Packet number i of a burst started after `calls` draws: its headers are those of `base`, or of `base`
      moved to the client that draw number calls + i picks. */
  ghost predicate BurstFrame(f: Frame, l2: L2, base: Ends, zipf: bool, table: seq<int>, n: nat, ports: nat,
                             call: nat, payload: Frame)
    requires zipf ==> ports > 0
  {
    if zipf then exists e :: EndsOfDraw(table, n, base, ports, call, e) && f == UdpFrame(l2, e, payload, 0, 0)
    else f == UdpFrame(l2, base, payload, 0, 0)
  }

  method FillOne(buf: Mbuf, info: PacketInfo, rng: Replay, now: nat, filler: Frame)
    requires info.zipfAddress ==> info.countPort > 0
    requires info.srcZipf.Valid() && rng.Valid() && info.srcZipf.table != rng.srendipity
    requires 8 <= info.payloadLength <= 8 + |filler| && buf.data == []
    modifies buf, info`ends, rng, rng.srendipity
    ensures info.srcZipf.Valid() && rng.Valid() && rng.srendipity == old(rng.srendipity)
    ensures info.srcZipf.table[..] == old(info.srcZipf.table[..])
    ensures rng.calls == old(rng.calls) + if info.zipfAddress then 1 else 0
    ensures info.ends == old(info.ends)
    ensures BurstFrame(buf.data, info.l2, info.ends, info.zipfAddress, info.srcZipf.table[..], info.srcZipf.n,
                       info.countPort, old(rng.calls), NumberedPayload(now, info.payloadLength, filler))
  {
    var base := info.ends;
    var at := PrepareUdp(buf, info, rng);
    assert buf.data[..at] == UdpHeaders(info.l2, info.ends, info.payloadLength, 0, 0);
    PayloadTimestamp(buf, at, info.payloadLength, now, filler);
    assert buf.data == UdpFrame(info.l2, info.ends, NumberedPayload(now, info.payloadLength, filler), 0, 0);
    // prepare_udp may have moved the client address: put the original back
    info.ends := base;
  }

  /** Every packet of every burst starts from the same base address: offsets never accumulate. */
  method FillBurst(bufs: seq<Mbuf>, info: PacketInfo, rng: Replay, times: seq<nat>, filler: Frame)
    requires info.zipfAddress ==> info.countPort > 0
    requires info.srcZipf.Valid() && rng.Valid() && info.srcZipf.table != rng.srendipity
    requires 8 <= info.payloadLength <= 8 + |filler| && |times| == |bufs|
    requires forall i | 0 <= i < |bufs| :: bufs[i].data == []
    requires forall i, j | 0 <= i < j < |bufs| :: bufs[i] != bufs[j]
    modifies bufs, info`ends, rng, rng.srendipity
    ensures info.srcZipf.Valid() && rng.Valid()
    ensures info.ends == old(info.ends)
    ensures rng.calls == old(rng.calls) + if info.zipfAddress then |bufs| else 0
    ensures forall i | 0 <= i < |bufs| ::
      BurstFrame(bufs[i].data, info.l2, info.ends, info.zipfAddress, info.srcZipf.table[..], info.srcZipf.n,
                 info.countPort, old(rng.calls) + i, NumberedPayload(times[i], info.payloadLength, filler))
  {
    for i := 0 to |bufs|
      invariant info.srcZipf.Valid() && rng.Valid() && rng.srendipity == old(rng.srendipity)
      invariant info.ends == old(info.ends)
      invariant info.srcZipf.table[..] == old(info.srcZipf.table[..])
      invariant rng.calls == old(rng.calls) + if info.zipfAddress then i else 0
      invariant forall j | i <= j < |bufs| :: bufs[j].data == []
      invariant forall j | 0 <= j < i ::
        BurstFrame(bufs[j].data, info.l2, info.ends, info.zipfAddress, info.srcZipf.table[..], info.srcZipf.n,
                   info.countPort, old(rng.calls) + j, NumberedPayload(times[j], info.payloadLength, filler))
    {
      FillOne(bufs[i], info, rng, times[i], filler);
    }
  }

  // ----- how many clients there really are

  ghost predicate DistinctClients(e: Ends, ports: nat, count: nat)
    requires ports > 0
  {
    forall i: nat, j: nat :: i < j < count ==> ClientEnds(e, i, ports) != ClientEnds(e, j, ports)
  }

  lemma ClientsDiffer(e: Ends, i: nat, j: nat, ports: nat, count: nat)
    requires ports > 0 && i < j < count <= U32 && (ports <= U16 || count <= U16)
    ensures ClientEnds(e, i, ports) != ClientEnds(e, j, ports)
  {
    if ClientEnds(e, i, ports) == ClientEnds(e, j, ports) {
      QuotientBelow(i, ports);
      QuotientBelow(j, ports);
      WrapInjective(e.srcIp, i / ports, j / ports, U32);
      WrapInjective(e.srcPort, i % ports, j % ports, U16);
    }
  }

  lemma QuotientBelow(i: nat, p: nat)
    requires p > 0
    ensures i / p <= i && i % p <= i && i % p < p
  {
    var q, r := i / p, i % p;
    MulAtLeast(q, p);
    assert i == p * q + r;
  }

  /** The `count` source indices (of 32 bits) name different (IP, port) pairs, whatever base address they
      start from, exactly when there are at most 2^16 ports per IP or at most 2^16 indices in all. */
  lemma ClientsDistinctIff(e: Ends, ports: nat, count: nat)
    requires ports > 0 && count <= U32
    ensures DistinctClients(e, ports, count) <==> ports <= U16 || count <= U16
  {
    if ports <= U16 || count <= U16 {
      forall i: nat, j: nat | i < j < count ensures ClientEnds(e, i, ports) != ClientEnds(e, j, ports) {
        ClientsDiffer(e, i, j, ports, count);
      }
    } else {
      DivModUnique(0, ports, 0, 0);
      DivModUnique(U16, ports, 0, U16);
      ModShift(e.srcPort, 1, U16);
      assert ClientEnds(e, 0, ports) == ClientEnds(e, U16, ports);
    }
  }
}
