/** Building UDP packets (include/client/prepare_packet.h and include/client/write_payload.h). Every header byte is
    written into buffers whose old contents are arbitrary. */
module Prepare {
  import opened Wire
  import opened Arith
  import opened Rand
  import opened Zipf
  import opened Echo

  const PROTO_UDP: byte := 17

  // ----- what the bytes should be

  datatype Ends = Ends(srcMac: Mac, dstMac: Mac, srcIp: nat, dstIp: nat, srcPort: nat, dstPort: nat)

  ghost predicate EndsInRange(e: Ends) {
    e.srcIp < U32 && e.dstIp < U32 && e.srcPort < U16 && e.dstPort < U16
  }

  datatype L2 = Plain | Tagged(tci: nat)

  function L2Header(l2: L2, e: Ends): (b: Frame)
    ensures |b| == L2Len(l2.Tagged?)
  {
    match l2
    case Plain => EthernetHeader(e.srcMac, e.dstMac, ETHER_TYPE_IPV4)
    case Tagged(tci) => EthernetHeader(e.srcMac, e.dstMac, ETHER_TYPE_VLAN) + VlanHeader(tci)
  }

  /** Everything in front of a payload of `len` bytes; the two checksums are left to the caller. */
  function UdpHeaders(l2: L2, e: Ends, len: nat, ipCksum: nat, udpCksum: nat): (b: Frame)
    ensures |b| == L2Len(l2.Tagged?) + 28
  {
    L2Header(l2, e) + Ipv4Header(e.srcIp, e.dstIp, 28 + len, PROTO_UDP, ipCksum)
      + UdpHeader(e.srcPort, e.dstPort, 8 + len, udpCksum)
  }

  function UdpFrame(l2: L2, e: Ends, payload: Frame, ipCksum: nat, udpCksum: nat): (b: Frame)
    ensures |b| == L2Len(l2.Tagged?) + 28 + |payload|
  {
    UdpHeaders(l2, e, |payload|, ipCksum, udpCksum) + payload
  }

  /** payload_constant_num: a 64-bit number, then filler text. */
  function NumberedPayload(num: nat, len: nat, filler: Frame): (b: Frame)
    requires 8 <= len <= 8 + |filler|
    ensures |b| == len
  {
    Le64(num) + filler[..len - 8]
  }

  // ----- writing it

  method AppendEthernet(buf: Mbuf, src: Mac, dst: Mac, etherType: nat)
    modifies buf
    ensures buf.data == old(buf.data) + EthernetHeader(src, dst, etherType)
  {
    ghost var d := buf.data;
    var at := buf.Append(ETHER_HDR_LEN);
    buf.Put(at + 6, src);
    ghost var w := buf.data[at + 12..];
    assert buf.data[..at] == d && buf.data[at + 6..] == src + w;
    buf.Put(at, dst);
    CutBehind(d, dst, src, w);
    buf.Put(at + 12, Be16(etherType));
    assert buf.data == (d + dst + src) + Be16(etherType);
  }

  lemma CutBehind(d: Frame, a: Frame, b: Frame, w: Frame)
    ensures (d + a + (b + w))[..|d| + |a| + |b|] == d + a + b
  {
  }

  method AppendVlan(buf: Mbuf, tci: nat)
    modifies buf
    ensures buf.data == old(buf.data) + VlanHeader(tci)
  {
    ghost var d := buf.data;
    var at := buf.Append(VLAN_HDR_LEN);
    buf.Put(at, Be16(tci));
    assert buf.data[..at + 2] == d + Be16(tci);
    buf.Put(at + 2, Be16(ETHER_TYPE_IPV4));
    assert buf.data == (d + Be16(tci)) + Be16(ETHER_TYPE_IPV4);
  }

  /** _ipv4_header leaves the length and the protocol to its caller: their bytes stay stale. */
  method AppendIpv4(buf: Mbuf, src: nat, dst: nat) returns (at: nat, ghost stale: Frame)
    modifies buf
    ensures at == |old(buf.data)| && |stale| == 3
    ensures buf.data == old(buf.data) + [0x45, 0] + stale[..2] + [0, 0, 0, 0, 64] + stale[2..]
                        + Be16(0) + Be32(src) + Be32(dst)
  {
    at := buf.Append(IPV4_HDR_LEN);
    buf.PutNext(at, [0x45, 0]);
    ghost var x := buf.data[at + 2..at + 4];
    assert buf.data[..at + 4] == old(buf.data) + [0x45, 0] + x;
    buf.PutNext(at + 4, [0, 0, 0, 0, 64]);
    ghost var y := buf.data[at + 9..at + 10];
    assert buf.data[..at + 10] == buf.data[..at + 9] + y;
    buf.PutNext(at + 10, Be16(0));
    buf.PutNext(at + 12, Be32(src));
    buf.PutNext(at + 16, Be32(dst));
    assert buf.data == buf.data[..at + 20];
    stale := x + y;
  }

  method FinishIpv4(buf: Mbuf, at: nat, total: nat, proto: byte, ghost d: Frame, ghost stale: Frame,
                    ghost src: nat, ghost dst: nat)
    requires at == |d| && |stale| == 3
    requires buf.data == d + [0x45, 0] + stale[..2] + [0, 0, 0, 0, 64] + stale[2..] + Be16(0) + Be32(src) + Be32(dst)
    modifies buf
    ensures buf.data == d + Ipv4Header(src, dst, total, proto, 0)
  {
    ghost var tail := Be16(0) + Be32(src) + Be32(dst);
    buf.Put(at + 9, [proto]);
    assert buf.data == d + [0x45, 0] + stale[..2] + [0, 0, 0, 0, 64] + [proto] + tail;
    buf.Put(at + 2, Be16(total));
    assert buf.data == d + [0x45, 0] + Be16(total) + [0, 0, 0, 0, 64] + [proto] + tail;
    FiveAndTail(d, [0x45, 0], Be16(total), proto, Be32(src), Be32(dst));
  }

  lemma FiveAndTail(d: Frame, a: Frame, b: Frame, proto: byte, src: Frame, dst: Frame)
    ensures d + a + b + [0, 0, 0, 0, 64] + [proto] + (Be16(0) + src + dst)
         == d + (a + b + [0, 0, 0, 0, 64, proto] + Be16(0) + src + dst)
  {
  }

  method AppendUdp(buf: Mbuf, srcPort: nat, dstPort: nat, length: nat)
    modifies buf
    ensures buf.data == old(buf.data) + UdpHeader(srcPort, dstPort, length, 0)
  {
    ghost var d := buf.data;
    var at := buf.Append(UDP_HDR_LEN);
    buf.Put(at, Be16(srcPort));
    assert buf.data[..at + 2] == d + Be16(srcPort);
    buf.Put(at + 2, Be16(dstPort));
    assert buf.data[..at + 4] == (d + Be16(srcPort)) + Be16(dstPort);
    buf.Put(at + 4, Be16(length));
    assert buf.data[..at + 6] == ((d + Be16(srcPort)) + Be16(dstPort)) + Be16(length);
    buf.Put(at + 6, Be16(0));
    assert buf.data == (((d + Be16(srcPort)) + Be16(dstPort)) + Be16(length)) + Be16(0);
  }

  // ----- prepare_udp and the payload

  class PacketInfo {
    var l2: L2
    var ends: Ends
    var payloadLength: nat
    var zipfAddress: bool  // ZIPF_CLIENT_ADDR
    var countPort: nat
    const srcZipf: ZipfGen

    constructor (l2: L2, ends: Ends, payloadLength: nat, zipfAddress: bool, countPort: nat, srcZipf: ZipfGen)
      ensures this.l2 == l2 && this.ends == ends && this.payloadLength == payloadLength
      ensures this.zipfAddress == zipfAddress && this.countPort == countPort && this.srcZipf == srcZipf
    {
      this.l2, this.ends, this.payloadLength := l2, ends, payloadLength;
      this.zipfAddress, this.countPort, this.srcZipf := zipfAddress, countPort, srcZipf;
    }
  }

  /** The client address for a source index: `ports` consecutive ports share one IP; 32- and 16-bit arithmetic wraps. */
  function ClientEnds(e: Ends, idx: nat, ports: nat): Ends
    requires ports > 0
  {
    e.(srcIp := (e.srcIp + idx / ports) % U32, srcPort := (e.srcPort + idx % ports) % U16)
  }

  /** The ends a packet gets when draw number `call` of myrand picks the client. */
  ghost predicate EndsOfDraw(table: seq<int>, n: nat, base: Ends, ports: nat, call: nat, e: Ends)
    requires ports > 0
  {
    if n == 0 then e == ClientEnds(base, U32 - 2, ports)  // gen returned -1
    else exists k :: 1 <= k <= n && Selects(table, Draw(call), k) && e == ClientEnds(base, (k - 1) % U32, ports)
  }

  /** The first client is the base address ... */
  lemma FirstClient(e: Ends, ports: nat)
    requires EndsInRange(e) && ports > 0
    ensures ClientEnds(e, 0, ports) == e
  {
    DivModUnique(0, ports, 0, 0);
  }

  /** ... and the next one has the next port, or, when the ports of an IP are used up, the base port and the next IP. */
  lemma NextClient(e: Ends, idx: nat, ports: nat)
    requires EndsInRange(e) && ports > 0
    ensures var c := ClientEnds(e, idx, ports);
      ClientEnds(e, idx + 1, ports)
      == if (idx + 1) % ports != 0 then c.(srcPort := (c.srcPort + 1) % U16)
         else c.(srcIp := (c.srcIp + 1) % U32, srcPort := e.srcPort)
  {
    var q, r := idx / ports, idx % ports;
    NextQuotient(idx, ports);
    NextWrapped(e.srcIp + q, U32);
    NextWrapped(e.srcPort + r, U16);
  }

  lemma NextQuotient(idx: nat, p: nat)
    requires p > 0
    ensures if (idx + 1) % p != 0 then (idx + 1) / p == idx / p && (idx + 1) % p == idx % p + 1
            else (idx + 1) / p == idx / p + 1
  {
    var q, r := idx / p, idx % p;
    assert idx == p * q + r;
    if r + 1 == p {
      MulSplit(p, q, 1);
      DivModUnique(idx + 1, p, q + 1, 0);
    } else {
      DivModUnique(idx + 1, p, q, r + 1);
    }
  }

  lemma NextWrapped(v: nat, m: nat)
    requires m > 1
    ensures (v + 1) % m == (v % m + 1) % m
  {
    ModSuccessor(v, m);
  }

  /** The draws up to the first entry of the table leave the base address alone. */
  lemma BaseClient(table: seq<int>, n: nat, base: Ends, ports: nat, call: nat, e: Ends)
    requires ports > 0 && EndsInRange(base) && n > 0 && |table| == n + 1 && Nondecreasing(table)
    requires EndsOfDraw(table, n, base, ports, call, e) && Draw(call) <= table[1]
    ensures e == base
  {
    FirstClient(base, ports);
    var k :| 1 <= k <= n && Selects(table, Draw(call), k) && e == ClientEnds(base, (k - 1) % U32, ports);
    assert table[1] <= table[k];
    RankUnique(table, Draw(call), 1, k);
  }

  predicate SameMacs(e: Ends, e': Ends) {
    e.srcMac == e'.srcMac && e.dstMac == e'.dstMac
  }

  /** The switch of _prepare_eth_vlan_ip. */
  method SelectClient(info: PacketInfo, rng: Replay)
    requires info.zipfAddress ==> info.countPort > 0
    requires info.srcZipf.Valid() && rng.Valid() && info.srcZipf.table != rng.srendipity
    modifies info`ends, rng, rng.srendipity
    ensures info.srcZipf.Valid() && rng.Valid() && rng.srendipity == old(rng.srendipity)
    ensures info.srcZipf.table[..] == old(info.srcZipf.table[..])
    ensures !info.zipfAddress ==> info.ends == old(info.ends) && rng.calls == old(rng.calls)
    ensures info.zipfAddress ==> rng.calls == old(rng.calls) + 1
    ensures info.zipfAddress ==>
      EndsOfDraw(info.srcZipf.table[..], info.srcZipf.n, old(info.ends), info.countPort, old(rng.calls), info.ends)
    ensures EndsInRange(old(info.ends)) && info.srcZipf.n > 0 && Draw(old(rng.calls)) <= info.srcZipf.table[1]
      ==> info.ends == old(info.ends)
    ensures SameMacs(info.ends, old(info.ends))
  {
    if info.zipfAddress {
      ghost var base, call := info.ends, rng.calls;
      var k := info.srcZipf.Gen(rng);
      var srcIdx := (k - 1) % U32;
      var ipOffset, portOffset := srcIdx / info.countPort, srcIdx % info.countPort;
      info.ends := info.ends.(srcIp := (info.ends.srcIp + ipOffset) % U32,
                              srcPort := (info.ends.srcPort + portOffset) % U16);
      ghost var table := info.srcZipf.table[..];
      PickedClient(table, info.srcZipf.n, base, info.countPort, call, k, info.ends);
      KeepsBase(info.srcZipf.pow, table, info.srcZipf.n, base, info.countPort, call, info.ends);
    }
  }

  lemma PickedClient(table: seq<int>, n: nat, base: Ends, ports: nat, call: nat, k: int, e: Ends)
    requires ports > 0 && e == ClientEnds(base, (k - 1) % U32, ports)
    requires if n == 0 then k == -1 else 1 <= k <= n && Selects(table, Draw(call), k)
    ensures EndsOfDraw(table, n, base, ports, call, e)
  {
  }

  lemma KeepsBase(pow: nat -> real, table: seq<int>, n: nat, base: Ends, ports: nat, call: nat, e: Ends)
    requires Positive(pow, n) && IsTable(pow, n, table) && ports > 0
    requires EndsOfDraw(table, n, base, ports, call, e)
    ensures EndsInRange(base) && n > 0 && Draw(call) <= table[1] ==> e == base
  {
    if EndsInRange(base) && n > 0 && Draw(call) <= table[1] {
      TableShape(pow, n, table);
      BaseClient(table, n, base, ports, call, e);
    }
  }

  method AppendL2(buf: Mbuf, l2: L2, e: Ends)
    modifies buf
    ensures buf.data == old(buf.data) + L2Header(l2, e)
  {
    match l2 {
      case Plain =>
        AppendEthernet(buf, e.srcMac, e.dstMac, ETHER_TYPE_IPV4);
      case Tagged(tci) =>
        AppendEthernet(buf, e.srcMac, e.dstMac, ETHER_TYPE_VLAN);
        AppendVlan(buf, tci);
    }
  }

  /** The IPv4 and UDP headers, with the lengths prepare_udp computes in 16 bits. */
  method AppendIpv4Udp(buf: Mbuf, e: Ends, payloadLength: nat)
    modifies buf
    ensures buf.data == old(buf.data) + Ipv4Header(e.srcIp, e.dstIp, 28 + payloadLength, PROTO_UDP, 0)
                        + UdpHeader(e.srcPort, e.dstPort, 8 + payloadLength, 0)
  {
    ghost var d := buf.data;
    var ip;
    ghost var stale;
    ip, stale := AppendIpv4(buf, e.srcIp, e.dstIp);
    var dgramLen := (UDP_HDR_LEN + payloadLength) % U16;
    var totalLength := (IPV4_HDR_LEN + dgramLen) % U16;
    FinishIpv4(buf, ip, totalLength, PROTO_UDP, d, stale, e.srcIp, e.dstIp);
    AppendUdp(buf, e.srcPort, e.dstPort, dgramLen);
    LengthsTruncate(payloadLength);
  }

  /** The rest of a packet whose link-layer header is in place, up to room for the payload. */
  method FinishUdp(buf: Mbuf, ghost d: Frame, ghost l2: L2, e: Ends, payloadLength: nat) returns (at: nat)
    requires buf.data == d + L2Header(l2, e)
    modifies buf
    ensures |buf.data| == at + payloadLength
    ensures buf.data[..at] == d + UdpHeaders(l2, e, payloadLength, 0, 0)
  {
    AppendIpv4Udp(buf, e, payloadLength);
    JoinFour(d, L2Header(l2, e), Ipv4Header(e.srcIp, e.dstIp, 28 + payloadLength, PROTO_UDP, 0),
             UdpHeader(e.srcPort, e.dstPort, 8 + payloadLength, 0));
    at := buf.Append(payloadLength);
  }

  /** Truncating the lengths before they are stored changes nothing. */
  lemma LengthsTruncate(len: nat)
    ensures Be16((8 + len) % U16) == Be16(8 + len)
    ensures Be16((20 + (8 + len) % U16) % U16) == Be16(28 + len)
  {
    var q, r := (8 + len) / U16, (8 + len) % U16;
    ModShift(20 + r, q, U16);
    assert 20 + r + q * U16 == 28 + len;
    StoredTruncated(8 + len);
    StoredTruncated(20 + r);
    SameStored(20 + r, 28 + len);
  }

  lemma StoredTruncated(v: nat)
    ensures Be16(v % U16) == Be16(v)
  {
    SameStored(v % U16, v);
  }

  lemma SameStored(v: nat, w: nat)
    requires v % U16 == w % U16
    ensures Be16(v) == Be16(w)
  {
  }

  /** The link-layer headers and the choice of client, the two things prepare_udp and prepare_tcp share. */
  method BeginPacket(buf: Mbuf, info: PacketInfo, rng: Replay)
    requires info.zipfAddress ==> info.countPort > 0
    requires info.srcZipf.Valid() && rng.Valid() && info.srcZipf.table != rng.srendipity
    modifies buf, info`ends, rng, rng.srendipity
    ensures info.srcZipf.Valid() && rng.Valid() && rng.srendipity == old(rng.srendipity)
    ensures info.srcZipf.table[..] == old(info.srcZipf.table[..])
    ensures !info.zipfAddress ==> info.ends == old(info.ends) && rng.calls == old(rng.calls)
    ensures info.zipfAddress ==> rng.calls == old(rng.calls) + 1
    ensures info.zipfAddress ==>
      EndsOfDraw(info.srcZipf.table[..], info.srcZipf.n, old(info.ends), info.countPort, old(rng.calls), info.ends)
    ensures buf.data == old(buf.data) + L2Header(info.l2, info.ends)
  {
    AppendL2(buf, info.l2, info.ends);
    SelectClient(info, rng);
    SameL2(info.l2, info.ends, old(info.ends));
  }

  lemma SameL2(l2: L2, e: Ends, e': Ends)
    requires SameMacs(e, e')
    ensures L2Header(l2, e) == L2Header(l2, e')
  {
  }

  /** prepare_udp: on top of what the buffer held, headers that no stale byte shines through, and room for
      the payload. The headers carry the client address chosen for this packet. */
  method PrepareUdp(buf: Mbuf, info: PacketInfo, rng: Replay) returns (at: nat)
    requires info.zipfAddress ==> info.countPort > 0
    requires info.srcZipf.Valid() && rng.Valid() && info.srcZipf.table != rng.srendipity
    modifies buf, info`ends, rng, rng.srendipity
    ensures info.srcZipf.Valid() && rng.Valid() && rng.srendipity == old(rng.srendipity)
    ensures info.srcZipf.table[..] == old(info.srcZipf.table[..])
    ensures !info.zipfAddress ==> info.ends == old(info.ends) && rng.calls == old(rng.calls)
    ensures info.zipfAddress ==> rng.calls == old(rng.calls) + 1
    ensures info.zipfAddress ==>
      EndsOfDraw(info.srcZipf.table[..], info.srcZipf.n, old(info.ends), info.countPort, old(rng.calls), info.ends)
    ensures SameMacs(info.ends, old(info.ends))
    ensures |buf.data| == at + info.payloadLength
    ensures buf.data[..at] == old(buf.data) + UdpHeaders(info.l2, info.ends, info.payloadLength, 0, 0)
  {
    BeginPacket(buf, info, rng);
    at := FinishUdp(buf, old(buf.data), info.l2, info.ends, info.payloadLength);
  }

  /** payload_timestamp */
  method PayloadTimestamp(buf: Mbuf, at: nat, len: nat, now: nat, filler: Frame)
    requires 8 <= len <= 8 + |filler| && |buf.data| == at + len
    modifies buf
    ensures buf.data == old(buf.data)[..at] + NumberedPayload(now, len, filler)
  {
    buf.Put(at, Le64(now));
    buf.Put(at + 8, filler[..len - 8]);
  }
}
