/** TCP packets with the Katran server-id option (include/client/prepare_tcp_pkt.h). */
module Tcp {
  import opened Arith
  import opened Wire
  import opened Rand
  import opened Echo
  import opened Prepare

  const PROTO_TCP: byte := 6
  const TCP_HDR_LEN := 20
  const NOP: byte := 0x01
  const OPT_KIND: byte := 0xB7
  const OPT_LEN: byte := 6

  // ----- what the bytes should be

  /** Source, destination, the fixed numbers the program stores in host order, data offset, ACK|PSH. */
  function TcpHeader(srcPort: nat, dstPort: nat, hdrSize: nat): (b: Frame)
    ensures |b| == TCP_HDR_LEN
  {
    (Be16(srcPort) + Be16(dstPort)) + (LeBytes(123, 4) + LeBytes(321, 4))
      + [DataOffset(hdrSize), 0x18] + (LeBytes(256, 2) + [0, 0, 0, 0])
  }

  /** The header length in 32-bit words, in the upper half of the byte. */
  function DataOffset(hdrSize: nat): byte {
    hdrSize / 4 % 16 * 16
  }

  function KatranOption(id: nat): (b: Frame)
    ensures |b| == 8
  {
    [NOP, NOP] + [OPT_KIND, OPT_LEN] + LeBytes(id, 4)
  }

  /** The option bytes for a choice among `servers` servers; 0 turns the option off. */
  function Options(servers: nat, draw: nat): Frame {
    if servers == 0 then [] else KatranOption(ServerId(servers, draw))
  }

  /** Server ids start at 1: a remainder of 0 becomes 1. */
  function ServerId(servers: nat, draw: nat): (id: nat)
    requires servers > 0
    ensures 1 <= id && (servers == 1 ==> id == 1) && (servers > 1 ==> id < servers)
  {
    if draw % servers == 0 then 1 else draw % servers
  }

  function SegmentHeaders(e: Ends, len: nat, opts: Frame): (b: Frame)
    ensures |b| == 40 + |opts|
  {
    Ipv4Header(e.srcIp, e.dstIp, 40 + |opts| + len, PROTO_TCP, 0) + TcpHeader(e.srcPort, e.dstPort, 20 + |opts|) + opts
  }

  function TcpHeaders(l2: L2, e: Ends, len: nat, opts: Frame): (b: Frame)
    ensures |b| == L2Len(l2.Tagged?) + 40 + |opts|
  {
    L2Header(l2, e) + SegmentHeaders(e, len, opts)
  }

  // ----- writing it

  method AppendTcp(buf: Mbuf, srcPort: nat, dstPort: nat, hdrSize: nat)
    modifies buf
    ensures buf.data == old(buf.data) + TcpHeader(srcPort, dstPort, hdrSize)
  {
    ghost var d := buf.data;
    var at := buf.Append(TCP_HDR_LEN);
    var ports, numbers := Be16(srcPort) + Be16(dstPort), LeBytes(123, 4) + LeBytes(321, 4);
    var flags, tail: Frame := [DataOffset(hdrSize), 0x18], LeBytes(256, 2) + [0, 0, 0, 0];
    buf.PutNext(at, ports);
    buf.PutNext(at + 4, numbers);
    buf.PutNext(at + 12, flags);
    buf.PutNext(at + 14, tail);
    assert buf.data == buf.data[..at + 20];
    JoinFive(d, ports, numbers, flags, tail);
  }

  /** The loop that pads the option to a multiple of four bytes. */
  method WriteNops(buf: Mbuf, at: nat, count: nat) returns (ptr: nat)
    requires at + count <= |buf.data|
    modifies buf
    ensures ptr == at + count && |buf.data| == |old(buf.data)|
    ensures buf.data[..ptr] == old(buf.data)[..at] + seq(count, _ => NOP)
  {
    ghost var d := buf.data[..at];
    ptr := at;
    for z := 0 to count
      invariant ptr == at + z && |buf.data| == |old(buf.data)|
      invariant buf.data[..ptr] == d + seq(z, _ => NOP)
    {
      buf.Put(ptr, [NOP]);
      assert buf.data[..ptr + 1] == d + seq(z, _ => NOP) + [NOP];
      ptr := ptr + 1;
    }
  }

  method AppendOptions(buf: Mbuf, servers: nat, rng: Replay)
    requires servers > 0 && rng.Valid()
    modifies buf, rng, rng.srendipity
    ensures rng.Valid() && rng.srendipity == old(rng.srendipity) && rng.calls == old(rng.calls) + 1
    ensures buf.data == old(buf.data) + Options(servers, Draw(old(rng.calls)))
  {
    var draw := rng.MyRand();
    DrawRange(old(rng.calls));
    var id := draw % servers;
    if id == 0 {
      id := 1;
    }
    var at := buf.Append(8);
    WriteOption(buf, at, id);
  }

  /** The padding and the option. */
  method WriteOption(buf: Mbuf, at: nat, id: nat)
    requires |buf.data| == at + 8
    modifies buf
    ensures buf.data == old(buf.data[..at]) + KatranOption(id)
  {
    ghost var d := buf.data[..at];
    var ptr := WriteNops(buf, at, 2);
    assert seq(2, _ => NOP) == [NOP, NOP];
    buf.PutNext(ptr, [OPT_KIND, OPT_LEN]);
    buf.PutNext(at + 4, LeBytes(id, 4));
    assert buf.data == buf.data[..at + 8];
    JoinFour(d, [NOP, NOP], [OPT_KIND, OPT_LEN], LeBytes(id, 4));
  }

  method AppendIpv4Tcp(buf: Mbuf, e: Ends, hdrSize: nat, payloadLength: nat)
    modifies buf
    ensures buf.data == old(buf.data)
      + Ipv4Header(e.srcIp, e.dstIp, IPV4_HDR_LEN + hdrSize + payloadLength, PROTO_TCP, 0)
      + TcpHeader(e.srcPort, e.dstPort, hdrSize)
  {
    ghost var d := buf.data;
    var ip;
    ghost var stale;
    ip, stale := AppendIpv4(buf, e.srcIp, e.dstIp);
    FinishIpv4(buf, ip, (IPV4_HDR_LEN + hdrSize + payloadLength) % U16, PROTO_TCP, d, stale, e.srcIp, e.dstIp);
    StoredModulo(e.srcIp, e.dstIp, IPV4_HDR_LEN + hdrSize + payloadLength, PROTO_TCP);
    AppendTcp(buf, e.srcPort, e.dstPort, hdrSize);
  }

  method AppendSegmentHeaders(buf: Mbuf, e: Ends, payloadLength: nat, servers: nat, rng: Replay)
    requires rng.Valid()
    modifies buf, rng, rng.srendipity
    ensures rng.Valid() && rng.srendipity == old(rng.srendipity)
    ensures rng.calls == old(rng.calls) + if servers > 0 then 1 else 0
    ensures buf.data == old(buf.data) + SegmentHeaders(e, payloadLength, Options(servers, Draw(old(rng.calls))))
  {
    var sizeOpts := if servers > 0 then OPT_LEN as nat + 2 else 0;
    ghost var opts := Options(servers, Draw(rng.calls));
    JoinHeaders(buf.data, e, payloadLength, opts, TCP_HDR_LEN + sizeOpts);
    AppendIpv4Tcp(buf, e, TCP_HDR_LEN + sizeOpts, payloadLength);
    if servers > 0 {
      AppendOptions(buf, servers, rng);
    } else {
      assert buf.data + opts == buf.data;
    }
  }

  lemma JoinHeaders(d: Frame, e: Ends, len: nat, opts: Frame, hdrSize: nat)
    requires hdrSize == TCP_HDR_LEN + |opts|
    ensures d + Ipv4Header(e.srcIp, e.dstIp, IPV4_HDR_LEN + hdrSize + len, PROTO_TCP, 0)
              + TcpHeader(e.srcPort, e.dstPort, hdrSize) + opts
         == d + SegmentHeaders(e, len, opts)
  {
    JoinFour(d, Ipv4Header(e.srcIp, e.dstIp, IPV4_HDR_LEN + hdrSize + len, PROTO_TCP, 0),
             TcpHeader(e.srcPort, e.dstPort, hdrSize), opts);
  }

  /** The rest of a packet whose link-layer header is in place, up to room for the payload. */
  method AppendSegment(buf: Mbuf, ghost d: Frame, ghost l2: L2, e: Ends, payloadLength: nat, servers: nat, rng: Replay)
      returns (at: nat)
    requires rng.Valid() && buf.data == d + L2Header(l2, e)
    modifies buf, rng, rng.srendipity
    ensures rng.Valid() && rng.srendipity == old(rng.srendipity)
    ensures rng.calls == old(rng.calls) + if servers > 0 then 1 else 0
    ensures |buf.data| == at + payloadLength
    ensures buf.data[..at] == d + TcpHeaders(l2, e, payloadLength, Options(servers, Draw(old(rng.calls))))
  {
    JoinSegment(d, l2, e, payloadLength, Options(servers, Draw(rng.calls)));
    AppendSegmentHeaders(buf, e, payloadLength, servers, rng);
    at := buf.Append(payloadLength);
  }

  lemma StoredModulo(src: nat, dst: nat, v: nat, proto: byte)
    ensures Ipv4Header(src, dst, v % U16, proto, 0) == Ipv4Header(src, dst, v, proto, 0)
  {
    assert Be16(v % U16) == Be16(v);
  }

  /** prepare_tcp: the client draw, if any, comes before the server draw, which is number `call`. */
  method PrepareTcp(buf: Mbuf, info: PacketInfo, servers: nat, rng: Replay) returns (at: nat, ghost call: nat)
    requires info.zipfAddress ==> info.countPort > 0
    requires info.srcZipf.Valid() && rng.Valid() && info.srcZipf.table != rng.srendipity
    modifies buf, info`ends, rng, rng.srendipity
    ensures info.srcZipf.Valid() && rng.Valid() && rng.srendipity == old(rng.srendipity)
    ensures !info.zipfAddress ==> info.ends == old(info.ends)
    ensures info.zipfAddress ==>
      EndsOfDraw(info.srcZipf.table[..], info.srcZipf.n, old(info.ends), info.countPort, old(rng.calls), info.ends)
    ensures call == old(rng.calls) + if info.zipfAddress then 1 else 0
    ensures rng.calls == call + if servers > 0 then 1 else 0
    ensures |buf.data| == at + info.payloadLength
    ensures buf.data[..at] == old(buf.data)
      + TcpHeaders(info.l2, info.ends, info.payloadLength, Options(servers, Draw(call)))
  {
    BeginPacket(buf, info, rng);
    call := rng.calls;
    at := AppendSegment(buf, old(buf.data), info.l2, info.ends, info.payloadLength, servers, rng);
  }

  lemma JoinSegment(d: Frame, l2: L2, e: Ends, len: nat, opts: Frame)
    ensures d + L2Header(l2, e) + SegmentHeaders(e, len, opts) == d + TcpHeaders(l2, e, len, opts)
  {
    JoinThree(d, L2Header(l2, e), SegmentHeaders(e, len, opts));
  }

  // ----- reading it: sections 3.1 and 3.2 of RFC 9293

  datatype TcpOption = Nop | Opt(kind: byte, data: Frame)
  datatype Parsed = Bad | Good(options: seq<TcpOption>)

  /** Walk an option list: kind 0 ends it, kind 1 is one byte, any other kind carries its own length. */
  function Walk(b: Frame): Parsed {
    if b == [] || b[0] == 0 then Good([])
    else if b[0] == 1 then
      var rest := Walk(b[1..]);
      if rest.Good? then Good([Nop] + rest.options) else Bad
    else if |b| < 2 || b[1] < 2 || b[1] as int > |b| then Bad
    else
      var rest := Walk(b[b[1]..]);
      if rest.Good? then Good([Opt(b[0], b[2..b[1]])] + rest.options) else Bad
  }

  /** A walker finds two NOPs and one server-id option, and reads back an id between 1 and max(1, N - 1). */
  lemma OptionsWalk(servers: nat, draw: nat)
    requires servers < U32
    ensures servers == 0 ==> Walk(Options(servers, draw)) == Good([])
    ensures servers > 0 ==> exists data ::
      && Walk(Options(servers, draw)) == Good([Nop, Nop, Opt(OPT_KIND, data)])
      && |data| == OPT_LEN as nat - 2 && LeValue(data) == ServerId(servers, draw)
      && 1 <= LeValue(data) && (LeValue(data) < servers || LeValue(data) == servers == 1)
  {
    if servers > 0 {
      var b, id := Options(servers, draw), ServerId(servers, draw);
      var data := LeBytes(id, 4);
      assert b[1..][1..] == [OPT_KIND, OPT_LEN] + data;
      assert ([OPT_KIND, OPT_LEN] + data)[6..] == [];
      assert ([OPT_KIND, OPT_LEN] + data)[2..6] == data;
      assert Walk([OPT_KIND, OPT_LEN] + data) == Good([Opt(OPT_KIND, data)]);
      assert Walk(b[1..]) == Good([Nop] + [Opt(OPT_KIND, data)]);
      assert [Nop] + ([Nop] + [Opt(OPT_KIND, data)]) == [Nop, Nop, Opt(OPT_KIND, data)];
      assert Pow256(4) == U32;
      LeRoundTrip(id, 4);
    }
  }

  /** The remainder r of a draw is the server's id, and remainder 0 goes to server 1. */
  lemma ServerOfDraw(servers: nat, q: nat, r: nat)
    requires r < servers
    ensures ServerId(servers, servers * q + r) == if r == 0 then 1 else r
  {
    DivModUnique(servers * q + r, servers, q, r);
  }

  /** The three places that state a length agree with the bytes: the data offset covers header and options, and
      the IPv4 total length covers everything after the link-layer header. */
  lemma TcpLengthsAgree(l2: L2, e: Ends, servers: nat, draw: nat, payload: Frame)
    requires 40 + |Options(servers, draw)| + |payload| < U16
    ensures var opts, ip := Options(servers, draw), L2Len(l2.Tagged?);
      var f := TcpHeaders(l2, e, |payload|, opts) + payload;
      && |f| >= ip + 40
      && Get16(f, ip + 2) == |f| - ip
      && f[ip + 32] as int / 16 * 4 == TCP_HDR_LEN + |opts|
      && f[ip + 40..ip + 4 * (f[ip + 32] as int / 16) + 20] == opts
  {
    var opts := Options(servers, draw);
    SegmentFields(L2Header(l2, e), e, opts, payload);
    JoinThree(L2Header(l2, e), SegmentHeaders(e, |payload|, opts), payload);
    OffsetExact(20 + |opts|, DataOffset(20 + |opts|));
  }

  lemma OffsetExact(hdrSize: nat, b: byte)
    requires hdrSize == 20 || hdrSize == 28
    requires b == DataOffset(hdrSize)
    ensures b as int / 16 * 4 == hdrSize && 4 * (b as int / 16) + 20 == hdrSize + 20
  {
  }

  lemma SegmentFields(l: Frame, e: Ends, opts: Frame, payload: Frame)
    requires 40 + |opts| + |payload| < U16
    ensures var f, ip := l + (SegmentHeaders(e, |payload|, opts) + payload), |l|;
      && Get16(f, ip + 2) == |f| - ip
      && f[ip + 32] == DataOffset(20 + |opts|)
      && f[ip + 40..ip + 40 + |opts|] == opts
  {
    var f, ip := l + (SegmentHeaders(e, |payload|, opts) + payload), |l|;
    var total := 40 + |opts| + |payload|;
    var h, t := Ipv4Header(e.srcIp, e.dstIp, total, PROTO_TCP, 0), TcpHeader(e.srcPort, e.dstPort, 20 + |opts|);
    SegmentPieces(l, h, t, opts, payload);
    assert h[2..4] == Be16(total);
    Get16At(f, ip + 2, total);
    assert t[12] == DataOffset(20 + |opts|);
  }

  /** Where the pieces of a segment lie in its frame. */
  lemma SegmentPieces(l: Frame, h: Frame, t: Frame, opts: Frame, payload: Frame)
    requires |h| == IPV4_HDR_LEN && |t| == TCP_HDR_LEN
    ensures var f, ip := l + (h + t + opts + payload), |l|;
      && f[ip + 2..ip + 4] == h[2..4]
      && f[ip + 32] == t[12]
      && f[ip + 40..ip + 40 + |opts|] == opts
  {
  }
}
