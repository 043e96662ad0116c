/** The receiver thread (client.c:474-580), and the round trip of a packet: client, server, receiver. */
module Receiver {
  import opened Arith
  import opened Wire
  import opened Echo
  import opened Prepare
  import opened Histogram

  // ----- reading back the fields of a built frame

  lemma L2Fields(l2: L2, e: Ends, rest: Frame)
    requires |rest| >= 28
    ensures var f := L2Header(l2, e) + rest;
      && HasHeaders(f, l2.Tagged?) && f[L2Len(l2.Tagged?)..] == rest
      && DstMac(f) == e.dstMac && SrcMac(f) == e.srcMac
      && EtherType(f) == if l2.Tagged? then ETHER_TYPE_VLAN else ETHER_TYPE_IPV4
  {
    var h := L2Header(l2, e);
    assert h[0..6] == e.dstMac && h[6..12] == e.srcMac;
    assert (h + rest)[0..6] == h[0..6] && (h + rest)[6..12] == h[6..12];
    assert (h + rest)[12] == h[12] && (h + rest)[13] == h[13];
  }

  /** The bytes of the IPv4 and UDP headers, at their offsets. */
  lemma IpUdpSlices(e: Ends, len: nat, ic: nat, uc: nat, payload: Frame)
    ensures var g := Ipv4Header(e.srcIp, e.dstIp, 28 + len, PROTO_UDP, ic)
                       + UdpHeader(e.srcPort, e.dstPort, 8 + len, uc) + payload;
      && g[12..16] == Be32(e.srcIp) && g[16..20] == Be32(e.dstIp)
      && g[20..22] == Be16(e.srcPort) && g[22..24] == Be16(e.dstPort) && g[28..] == payload
      && g[0] == 0x45 && g[2..4] == Be16(28 + len) && g[24..26] == Be16(8 + len)
  {
    var u := UdpHeader(e.srcPort, e.dstPort, 8 + len, uc) + payload;
    var h := Ipv4Header(e.srcIp, e.dstIp, 28 + len, PROTO_UDP, ic);
    JoinThree(h, UdpHeader(e.srcPort, e.dstPort, 8 + len, uc), payload);
    IpSlices(e.srcIp, e.dstIp, 28 + len, PROTO_UDP, ic, u);
    UdpSlices(e.srcPort, e.dstPort, 8 + len, uc, payload);
    FieldAt(h + u, u, 20, 0, 2);
    FieldAt(h + u, u, 20, 2, 2);
    FieldAt(h + u, u, 20, 4, 2);
    assert (h + u)[28..] == u[8..];
  }

  lemma IpSlices(src: nat, dst: nat, total: nat, proto: byte, cksum: nat, rest: Frame)
    ensures var g := Ipv4Header(src, dst, total, proto, cksum) + rest;
      && g[0] == 0x45 && g[2..4] == Be16(total) && g[12..16] == Be32(src) && g[16..20] == Be32(dst)
      && g[20..] == rest
  {
  }

  lemma UdpSlices(srcPort: nat, dstPort: nat, length: nat, cksum: nat, rest: Frame)
    ensures var g := UdpHeader(srcPort, dstPort, length, cksum) + rest;
      && g[0..2] == Be16(srcPort) && g[2..4] == Be16(dstPort) && g[4..6] == Be16(length) && g[8..] == rest
  {
  }

  /** What a reader finds in a UDP frame is what the builder put there. */
  lemma UdpFrameFields(l2: L2, e: Ends, payload: Frame, ic: nat, uc: nat)
    requires EndsInRange(e)
    ensures var f, vlan := UdpFrame(l2, e, payload, ic, uc), l2.Tagged?;
      && HasHeaders(f, vlan)
      && DstMac(f) == e.dstMac && SrcMac(f) == e.srcMac
      && EtherType(f) == (if vlan then ETHER_TYPE_VLAN else ETHER_TYPE_IPV4)
      && SrcIp(f, vlan) == e.srcIp && DstIp(f, vlan) == e.dstIp
      && SrcPort(f, vlan) == e.srcPort && DstPort(f, vlan) == e.dstPort
      && Payload(f, vlan) == payload
  {
    var f, ip := UdpFrame(l2, e, payload, ic, uc), L2Len(l2.Tagged?);
    var g := Ipv4Header(e.srcIp, e.dstIp, 28 + |payload|, PROTO_UDP, ic)
             + UdpHeader(e.srcPort, e.dstPort, 8 + |payload|, uc) + payload;
    assert f == L2Header(l2, e) + g;
    L2Fields(l2, e, g);
    IpUdpSlices(e, |payload|, ic, uc, payload);
    FieldAt(f, g, ip, 12, 4);
    FieldAt(f, g, ip, 16, 4);
    FieldAt(f, g, ip, 20, 2);
    FieldAt(f, g, ip, 22, 2);
    Get32At(f, ip + 12, e.srcIp);
    Get32At(f, ip + 16, e.dstIp);
    Get16At(f, ip + 20, e.srcPort);
    Get16At(f, ip + 22, e.dstPort);
    assert f[ip + 28..] == g[28..];
  }

  lemma FieldAt(f: Frame, g: Frame, ip: nat, at: nat, n: nat)
    requires ip <= |f| && f[ip..] == g && at + n <= |g|
    ensures f[ip + at..ip + at + n] == g[at..at + n]
  {
    assert f[ip..][at..at + n] == f[ip + at..ip + at + n];
  }

  // ----- one received packet

  datatype ClientConfig = ClientConfig(mac: Mac, vlan: bool, dstIps: seq<nat>, basePort: nat, hz: nat)

  datatype Outcome =
    | Invalid       // not for this host, or ARP
    | WrongType     // tagged when untagged was expected, or the reverse
    | UnknownPeer   // no destination has this source address
    | Counted(k: nat, timestamp: nat, measured: bool)

  /** The first index of `ip` in `ips`, or |ips|. */
  function FirstIndex(ips: seq<nat>, ip: nat): (k: nat)
    ensures k <= |ips| && (k < |ips| ==> ips[k] == ip) && ip !in ips[..k]
  {
    if ips == [] || ips[0] == ip then 0 else 1 + FirstIndex(ips[1..], ip)
  }

  /** What the loop body does with a frame: the timestamp is the 64-bit number at the start of the payload, and
      only the flow on the base port is measured. */
  function Classify(cfg: ClientConfig, f: Frame): Outcome
    requires HasHeaders(f, cfg.vlan) && |f| >= L2Len(cfg.vlan) + 36
  {
    if !PassesEthernet(f, cfg.mac) then Invalid
    else if EtherType(f) != (if cfg.vlan then ETHER_TYPE_VLAN else ETHER_TYPE_IPV4) then WrongType
    else
      var k := FirstIndex(cfg.dstIps, SrcIp(f, cfg.vlan));
      if k == |cfg.dstIps| then UnknownPeer
      else Counted(k, LeValue(Payload(f, cfg.vlan)[..8]), SrcPort(f, cfg.vlan) == cfg.basePort)
  }

  /** Elapsed microseconds, in the 64-bit arithmetic of the source. */
  function LatencyUs(now: nat, timestamp: nat, hz: nat): nat
    requires hz > 0
  {
    ((now - timestamp) % U64 * 1000 * 1000) % U64 / hz
  }

  /** ... which is exact just when the scaled difference fits. */
  lemma LatencyExact(now: nat, timestamp: nat, hz: nat)
    requires 0 < hz < U64 && timestamp <= now
    ensures LatencyUs(now, timestamp, hz) == (now - timestamp) * 1000000 / hz
       <==> (now - timestamp) * 1000000 < U64
  {
    ScaledExact(now - timestamp, 1000000, U64, hz);
    TwoThousands((now - timestamp) % U64);
  }

  lemma TwoThousands(r: nat)
    ensures r * 1000 * 1000 == r * 1000000
  {
  }

  class Stats {
    const cfg: ClientConfig
    var received: seq<nat>  // total_received_pkts
    const hist: seq<PHist>

    ghost predicate Valid()
      reads this, hist, set h | h in hist :: h.buckets
    {
      && |received| == |hist| == |cfg.dstIps| && cfg.hz > 0
      && (forall h <- hist :: h.Valid())
      && (forall i, j | 0 <= i < j < |hist| :: hist[i] != hist[j] && hist[i].buckets != hist[j].buckets)
    }

    constructor (cfg: ClientConfig, hist: seq<PHist>)
      requires |hist| == |cfg.dstIps| && cfg.hz > 0
      requires forall h <- hist :: h.Valid()
      requires forall i, j | 0 <= i < j < |hist| :: hist[i] != hist[j] && hist[i].buckets != hist[j].buckets
      ensures Valid() && this.cfg == cfg && this.hist == hist
    {
      this.cfg, this.hist := cfg, hist;
      received := seq(|hist|, _ => 0);
    }

    /** What outcome `o` adds to histogram i. */
    ghost function NewSamples(o: Outcome, i: nat, now: nat): seq<real>
      requires cfg.hz > 0
    {
      if o.Counted? && o.measured && i == o.k then [LatencyUs(now, o.timestamp, cfg.hz) as real] else []
    }

    /** The address lookup. */
    method FindPeer(ip: nat) returns (k: nat)
      ensures k == FirstIndex(cfg.dstIps, ip)
    {
      k := 0;
      while k < |cfg.dstIps| && cfg.dstIps[k] != ip
        invariant k <= |cfg.dstIps|
        invariant FirstIndex(cfg.dstIps, ip) == k + FirstIndex(cfg.dstIps[k..], ip)
      {
        k := k + 1;
      }
    }

    /** A counted packet adds one to its destination's total and, on the base port, one latency to its
        destination's histogram; nothing else changes, and any other packet changes nothing. */
    method Handle(f: Frame, now: nat) returns (o: Outcome)
      requires Valid() && HasHeaders(f, cfg.vlan) && |f| >= L2Len(cfg.vlan) + 36
      modifies this, hist, set h | h in hist :: h.buckets
      ensures Valid() && o == Classify(cfg, f)
      ensures o.Counted? ==> received == old(received)[o.k := old(received)[o.k] + 1]
      ensures !o.Counted? ==> received == old(received)
      ensures forall i | 0 <= i < |hist| ::
        hist[i].samples == old(hist[i].samples) + NewSamples(o, i, now)
    {
      if !PassesEthernet(f, cfg.mac) {
        return Invalid;
      }
      if EtherType(f) != (if cfg.vlan then ETHER_TYPE_VLAN else ETHER_TYPE_IPV4) {
        return WrongType;
      }
      var k := FindPeer(SrcIp(f, cfg.vlan));
      if k == |cfg.dstIps| {
        return UnknownPeer;
      }
      var timestamp := LeValue(Payload(f, cfg.vlan)[..8]);
      var measured := SrcPort(f, cfg.vlan) == cfg.basePort;
      if measured {
        hist[k].Add(LatencyUs(now, timestamp, cfg.hz) as real);
      }
      received := received[k := received[k] + 1];
      o := Counted(k, timestamp, measured);
    }
  }

  // ----- the round trip

  /** A packet built for the server is accepted and echoed by it, and the receiver then attributes it to the
      destination it was sent to, with the timestamp it left with and its destination port as source port. */
  lemma WireRoundTrip(l2: L2, e: Ends, ts: nat, len: nat, filler: Frame, ic: nat, uc: nat,
                      server: ServerConfig, client: ClientConfig)
    requires EndsInRange(e) && ts < U64 && 8 <= len <= 8 + |filler|
    requires server.mac == e.dstMac && server.ip == e.dstIp && server.vlan == l2.Tagged?
    requires client.mac == e.srcMac && client.vlan == l2.Tagged? && e.dstIp in client.dstIps
    ensures var f := UdpFrame(l2, e, NumberedPayload(ts, len, filler), ic, uc);
      && HasHeaders(f, server.vlan) && Accepts(server, f)
      && |Swapped(f, server.vlan)| >= L2Len(client.vlan) + 36
      && Classify(client, Swapped(f, server.vlan))
         == Counted(FirstIndex(client.dstIps, e.dstIp), ts, e.dstPort == client.basePort)
    ensures FirstIndex(client.dstIps, e.dstIp) < |client.dstIps|
  {
    var payload := NumberedPayload(ts, len, filler);
    EchoOfBuilt(l2, e, payload, ic, uc);
    assert payload[..8] == Le64(ts);
    Le64RoundTrip(ts);
    assert client.dstIps[..|client.dstIps|] == client.dstIps;
    ClassifyFields(client, Swapped(UdpFrame(l2, e, payload, ic, uc), server.vlan), e, payload);
  }

  lemma ClassifyFields(client: ClientConfig, f: Frame, e: Ends, payload: Frame)
    requires HasHeaders(f, client.vlan) && |payload| >= 8 && Payload(f, client.vlan) == payload
    requires DstMac(f) == client.mac && SrcIp(f, client.vlan) == e.dstIp && SrcPort(f, client.vlan) == e.dstPort
    requires EtherType(f) == (if client.vlan then ETHER_TYPE_VLAN else ETHER_TYPE_IPV4)
    requires FirstIndex(client.dstIps, e.dstIp) < |client.dstIps|
    ensures |f| >= L2Len(client.vlan) + 36
    ensures Classify(client, f)
         == Counted(FirstIndex(client.dstIps, e.dstIp), LeValue(payload[..8]), e.dstPort == client.basePort)
  {
  }

  /** A built frame and its echo: the same packet with the ends exchanged. */
  lemma EchoOfBuilt(l2: L2, e: Ends, payload: Frame, ic: nat, uc: nat)
    requires EndsInRange(e)
    ensures var f, vlan := UdpFrame(l2, e, payload, ic, uc), l2.Tagged?;
      && HasHeaders(f, vlan) && DstMac(f) == e.dstMac && DstIp(f, vlan) == e.dstIp
      && EtherType(f) == (if vlan then ETHER_TYPE_VLAN else ETHER_TYPE_IPV4)
      && HasHeaders(Swapped(f, vlan), vlan) && EtherType(Swapped(f, vlan)) == EtherType(f)
      && DstMac(Swapped(f, vlan)) == e.srcMac && SrcMac(Swapped(f, vlan)) == e.dstMac
      && SrcIp(Swapped(f, vlan), vlan) == e.dstIp && DstIp(Swapped(f, vlan), vlan) == e.srcIp
      && SrcPort(Swapped(f, vlan), vlan) == e.dstPort && DstPort(Swapped(f, vlan), vlan) == e.srcPort
      && Payload(Swapped(f, vlan), vlan) == payload
  {
    UdpFrameFields(l2, e, payload, ic, uc);
    SwapExchangesEnds(UdpFrame(l2, e, payload, ic, uc), l2.Tagged?);
  }

  /** When the length fields fit 16 bits the frame is well formed, so its checksums survive the echo. */
  lemma BuiltFrameWellFormed(l2: L2, e: Ends, payload: Frame, ic: nat, uc: nat)
    requires EndsInRange(e) && 28 + |payload| < U16
    ensures UdpWellFormed(UdpFrame(l2, e, payload, ic, uc), l2.Tagged?)
  {
    var f, ip := UdpFrame(l2, e, payload, ic, uc), L2Len(l2.Tagged?);
    var g := Ipv4Header(e.srcIp, e.dstIp, 28 + |payload|, PROTO_UDP, ic)
             + UdpHeader(e.srcPort, e.dstPort, 8 + |payload|, uc) + payload;
    assert f == L2Header(l2, e) + g;
    L2Fields(l2, e, g);
    IpUdpSlices(e, |payload|, ic, uc, payload);
    FieldAt(f, g, ip, 2, 2);
    Get16At(f, ip + 2, 28 + |payload|);
    FieldAt(f, g, ip, 24, 2);
    Get16At(f, ip + 24, 8 + |payload|);
    assert f[ip] == g[0];
    LengthsFit(f, l2.Tagged?, |payload|);
  }

  lemma LengthsFit(f: Frame, vlan: bool, len: nat)
    requires |f| == L2Len(vlan) + 28 + len && f[L2Len(vlan)] == 0x45
    requires Get16(f, L2Len(vlan) + 2) == 28 + len && Get16(f, L2Len(vlan) + 24) == 8 + len
    ensures UdpWellFormed(f, vlan)
  {
    assert HeaderLen(f, vlan) == 20;
  }
}
