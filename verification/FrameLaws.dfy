/** What a reader finds in the frames the program builds, field by field (section 3.1 of RFC 791, RFC 768, section 3.1
    of RFC 9293), and which of these frames each receiver takes. */
module FrameLaws {
  import opened Arith
  import opened Wire
  import opened Echo
  import opened Prepare
  import opened Receiver
  import opened Tcp
  import Latency
  import Arp

  // ----- headers

  lemma WordAt(f: Frame, at: nat, v: nat)
    requires at + 2 <= |f| && f[at..at + 2] == Be16(v)
    ensures Get16(f, at) == v % U16
  {
    assert f[at..at + 2][0] == f[at] && f[at..at + 2][1] == f[at + 1];
  }

  /** Piece n of header h, where h follows l and is followed by rest. */
  lemma Placed(l: Frame, h: Frame, rest: Frame, at: nat, n: nat)
    requires at + n <= |h|
    ensures (l + (h + rest))[|l| + at..|l| + at + n] == h[at..at + n]
  {
  }

  lemma BytePlaced(l: Frame, h: Frame, rest: Frame, at: nat)
    requires at < |h|
    ensures (l + (h + rest))[|l| + at] == h[at]
  {
  }

  lemma WordPlaced(l: Frame, h: Frame, rest: Frame, at: nat, v: nat)
    requires at + 2 <= |h| && h[at..at + 2] == Be16(v)
    ensures Get16(l + (h + rest), |l| + at) == v % U16
  {
    Placed(l, h, rest, at, 2);
    WordAt(l + (h + rest), |l| + at, v);
  }

  /** An IPv4 header without options, from byte ip on. */
  ghost predicate Ipv4At(f: Frame, ip: nat, src: nat, dst: nat, total: nat, proto: byte, cksum: nat) {
    && ip + 20 <= |f|
    && Get16(f, ip) == 0x4500 && Get16(f, ip + 2) == total % U16
    && Get16(f, ip + 4) == 0 && Get16(f, ip + 6) == 0
    && f[ip + 8] == 64 && f[ip + 9] == proto && Get16(f, ip + 10) == cksum % U16
    && Get32(f, ip + 12) == src && Get32(f, ip + 16) == dst
  }

  lemma Ipv4Placed(l: Frame, src: nat, dst: nat, total: nat, proto: byte, cksum: nat, rest: Frame)
    requires src < U32 && dst < U32
    ensures Ipv4At(l + (Ipv4Header(src, dst, total, proto, cksum) + rest), |l|, src, dst, total, proto, cksum)
  {
    var h, ip := Ipv4Header(src, dst, total, proto, cksum), |l|;
    var f := l + (h + rest);
    BytePlaced(l, h, rest, 8);
    BytePlaced(l, h, rest, 9);
    Ipv4Pieces(src, dst, total, proto, cksum);
    WordPlaced(l, h, rest, 0, 0x4500);
    WordPlaced(l, h, rest, 2, total);
    WordPlaced(l, h, rest, 4, 0);
    WordPlaced(l, h, rest, 6, 0);
    WordPlaced(l, h, rest, 10, cksum);
    Placed(l, h, rest, 12, 4);
    Placed(l, h, rest, 16, 4);
    Get32At(f, ip + 12, src);
    Get32At(f, ip + 16, dst);
  }

  lemma Ipv4Pieces(src: nat, dst: nat, total: nat, proto: byte, cksum: nat)
    ensures var h := Ipv4Header(src, dst, total, proto, cksum);
      && h[0..2] == Be16(0x4500) && h[2..4] == Be16(total) && h[4..6] == Be16(0) && h[6..8] == Be16(0)
      && h[8] == 64 && h[9] == proto && h[10..12] == Be16(cksum) && h[12..16] == Be32(src) && h[16..20] == Be32(dst)
  {
    var front := [0x45, 0] + Be16(total) + [0, 0, 0, 0, 64, proto] + Be16(cksum);
    assert Ipv4Header(src, dst, total, proto, cksum) == front + (Be32(src) + Be32(dst));
    assert Be16(0x4500) == [0x45, 0] && Be16(0) == [0, 0];
    assert front[0..2] == [0x45, 0] && front[2..4] == Be16(total) && front[10..12] == Be16(cksum);
    assert front[4..6] == [0, 0] && front[6..8] == [0, 0];
  }

  ghost predicate UdpAt(f: Frame, at: nat, srcPort: nat, dstPort: nat, length: nat, cksum: nat) {
    && at + 8 <= |f|
    && Get16(f, at) == srcPort % U16 && Get16(f, at + 2) == dstPort % U16
    && Get16(f, at + 4) == length % U16 && Get16(f, at + 6) == cksum % U16
  }

  lemma UdpPlaced(l: Frame, srcPort: nat, dstPort: nat, length: nat, cksum: nat, rest: Frame)
    ensures UdpAt(l + (UdpHeader(srcPort, dstPort, length, cksum) + rest), |l|, srcPort, dstPort, length, cksum)
  {
    var h := UdpHeader(srcPort, dstPort, length, cksum);
    assert h[0..2] == Be16(srcPort) && h[2..4] == Be16(dstPort) && h[4..6] == Be16(length) && h[6..8] == Be16(cksum);
    WordPlaced(l, h, rest, 0, srcPort);
    WordPlaced(l, h, rest, 2, dstPort);
    WordPlaced(l, h, rest, 4, length);
    WordPlaced(l, h, rest, 6, cksum);
  }

  /** A TCP header with the sequence number 123, the acknowledgement 321 and the window 256 in little-endian order, the
      flags ACK and PSH, no urgent data and no checksum. */
  ghost predicate TcpAt(f: Frame, at: nat, srcPort: nat, dstPort: nat, words: nat) {
    && at + 20 <= |f|
    && Get16(f, at) == srcPort % U16 && Get16(f, at + 2) == dstPort % U16
    && f[at + 4..at + 8] == [123, 0, 0, 0] && f[at + 8..at + 12] == [0x41, 0x01, 0, 0]
    && f[at + 12] as int == 16 * words && f[at + 13] == 0x18
    && f[at + 14..at + 16] == [0, 1] && f[at + 16..at + 20] == [0, 0, 0, 0]
  }

  lemma TcpPlaced(l: Frame, srcPort: nat, dstPort: nat, hdrSize: nat, words: nat, rest: Frame)
    requires hdrSize == 4 * words && words < 16
    ensures TcpAt(l + (TcpHeader(srcPort, dstPort, hdrSize) + rest), |l|, srcPort, dstPort, words)
  {
    TcpPieces(srcPort, dstPort, hdrSize);
    TcpWordsPlaced(l, TcpHeader(srcPort, dstPort, hdrSize), srcPort, dstPort, rest);
    TcpNumbersPlaced(l, TcpHeader(srcPort, dstPort, hdrSize), rest);
  }

  lemma TcpWordsPlaced(l: Frame, h: Frame, srcPort: nat, dstPort: nat, rest: Frame)
    requires |h| == 20 && h[0..2] == Be16(srcPort) && h[2..4] == Be16(dstPort)
    ensures var f, at := l + (h + rest), |l|;
      && Get16(f, at) == srcPort % U16 && Get16(f, at + 2) == dstPort % U16
      && f[at + 12] == h[12] && f[at + 13] == h[13]
  {
    WordPlaced(l, h, rest, 0, srcPort);
    WordPlaced(l, h, rest, 2, dstPort);
    BytePlaced(l, h, rest, 12);
    BytePlaced(l, h, rest, 13);
  }

  lemma TcpNumbersPlaced(l: Frame, h: Frame, rest: Frame)
    requires |h| == 20
    ensures var f, at := l + (h + rest), |l|;
      && f[at + 4..at + 8] == h[4..8] && f[at + 8..at + 12] == h[8..12]
      && f[at + 14..at + 16] == h[14..16] && f[at + 16..at + 20] == h[16..20]
  {
    Placed(l, h, rest, 4, 4);
    Placed(l, h, rest, 8, 4);
    Placed(l, h, rest, 14, 2);
    Placed(l, h, rest, 16, 4);
  }

  lemma TcpPieces(srcPort: nat, dstPort: nat, hdrSize: nat)
    ensures var h := TcpHeader(srcPort, dstPort, hdrSize);
      && h[0..2] == Be16(srcPort) && h[2..4] == Be16(dstPort)
      && h[4..8] == [123, 0, 0, 0] && h[8..12] == [0x41, 0x01, 0, 0]
      && h[12] == DataOffset(hdrSize) && h[13] == 0x18 && h[14..16] == [0, 1] && h[16..20] == [0, 0, 0, 0]
  {
    LittleEndian(123, 2);
    LittleEndian(321, 2);
    LittleEndian(256, 0);
    HeaderPieces(Be16(srcPort), Be16(dstPort), LeBytes(123, 4), LeBytes(321, 4), [DataOffset(hdrSize), 0x18],
                LeBytes(256, 2), [0, 0, 0, 0]);
  }

  lemma HeaderPieces(a: Frame, b: Frame, c: Frame, d: Frame, flags: Frame, w: Frame, tail: Frame)
    requires |a| == |b| == |flags| == |w| == 2 && |c| == |d| == |tail| == 4
    ensures var h := (a + b) + (c + d) + flags + (w + tail);
      && h[0..2] == a && h[2..4] == b && h[4..8] == c && h[8..12] == d
      && h[12] == flags[0] && h[13] == flags[1] && h[14..16] == w && h[16..20] == tail
  {
  }

  /** A 16-bit number in little-endian order, followed by zeros. */
  lemma LittleEndian(v: nat, zeros: nat)
    requires v < U16 && zeros <= 2
    ensures LeBytes(v, 2 + zeros) == [v % 256, v / 256] + [0, 0][..zeros]
  {
    LeZeros(zeros);
    assert LeBytes(v, 2 + zeros) == [v % 256] + LeBytes(v / 256, 1 + zeros);
    assert LeBytes(v / 256, 1 + zeros) == [v / 256] + LeBytes(0, zeros);
  }

  lemma LeZeros(zeros: nat)
    requires zeros <= 2
    ensures LeBytes(0, zeros) == [0, 0][..zeros]
  {
  }

  /** The link-layer header, with the tag and the inner type if there is one. */
  ghost predicate L2At(f: Frame, l2: L2, src: Mac, dst: Mac) {
    && |f| >= L2Len(l2.Tagged?) && SrcMac(f) == src && DstMac(f) == dst
    && match l2
       case Plain => EtherType(f) == ETHER_TYPE_IPV4
       case Tagged(tci) =>
         EtherType(f) == ETHER_TYPE_VLAN && Get16(f, 14) == tci % U16 && Get16(f, 16) == ETHER_TYPE_IPV4
  }

  lemma L2Placed(l2: L2, e: Ends, rest: Frame)
    ensures L2At(L2Header(l2, e) + rest, l2, e.srcMac, e.dstMac)
  {
    match l2 {
      case Plain =>
        EthernetPlaced(e.srcMac, e.dstMac, ETHER_TYPE_IPV4, rest);
      case Tagged(tci) =>
        var h, v := EthernetHeader(e.srcMac, e.dstMac, ETHER_TYPE_VLAN), VlanHeader(tci);
        JoinThree(h, v, rest);
        EthernetPlaced(e.srcMac, e.dstMac, ETHER_TYPE_VLAN, v + rest);
        VlanPlaced(h, tci, rest);
    }
  }

  lemma EthernetPlaced(src: Mac, dst: Mac, etherType: nat, rest: Frame)
    ensures var f := EthernetHeader(src, dst, etherType) + rest;
      SrcMac(f) == src && DstMac(f) == dst && EtherType(f) == etherType % U16
  {
    var h := EthernetHeader(src, dst, etherType);
    assert h[0..6] == dst && h[6..12] == src && h[12..14] == Be16(etherType);
    assert [] + (h + rest) == h + rest;
    Placed([], h, rest, 0, 6);
    Placed([], h, rest, 6, 6);
    WordPlaced([], h, rest, 12, etherType);
  }

  lemma VlanPlaced(l: Frame, tci: nat, rest: Frame)
    ensures var f := l + (VlanHeader(tci) + rest);
      Get16(f, |l|) == tci % U16 && Get16(f, |l| + 2) == ETHER_TYPE_IPV4
  {
    var h := VlanHeader(tci);
    assert h[0..2] == Be16(tci) && h[2..4] == Be16(ETHER_TYPE_IPV4);
    WordPlaced(l, h, rest, 0, tci);
    WordPlaced(l, h, rest, 2, ETHER_TYPE_IPV4);
  }

  // ----- whole frames

  /** Every header field of a UDP packet. */
  lemma UdpFrameHeaders(f: Frame, l2: L2, e: Ends, payload: Frame, ic: nat, uc: nat)
    requires EndsInRange(e) && f == UdpFrame(l2, e, payload, ic, uc)
    ensures var ip, n := L2Len(l2.Tagged?), |payload|;
      && L2At(f, l2, e.srcMac, e.dstMac)
      && Ipv4At(f, ip, e.srcIp, e.dstIp, 28 + n, 17, ic)
      && UdpAt(f, ip + 20, e.srcPort, e.dstPort, 8 + n, uc)
  {
    var n := |payload|;
    var l, h := L2Header(l2, e), Ipv4Header(e.srcIp, e.dstIp, 28 + n, PROTO_UDP, ic);
    var u := UdpHeader(e.srcPort, e.dstPort, 8 + n, uc);
    JoinFour(l, h, u, payload);
    JoinThree(h, u, payload);
    JoinThree(l, h, u + payload);
    L2Placed(l2, e, h + u + payload);
    Ipv4Placed(l, e.srcIp, e.dstIp, 28 + n, PROTO_UDP, ic, u + payload);
    UdpPlaced(l + h, e.srcPort, e.dstPort, 8 + n, uc, payload);
  }

  /** Every header field of a TCP packet, and its payload behind the options. */
  lemma TcpFrameFields(f: Frame, l2: L2, e: Ends, payload: Frame, servers: nat, draw: nat)
    requires EndsInRange(e) && f == TcpHeaders(l2, e, |payload|, Options(servers, draw)) + payload
    ensures var ip, opts := L2Len(l2.Tagged?), Options(servers, draw);
      && L2At(f, l2, e.srcMac, e.dstMac)
      && Ipv4At(f, ip, e.srcIp, e.dstIp, 40 + |opts| + |payload|, 6, 0)
      && TcpAt(f, ip + 20, e.srcPort, e.dstPort, if servers == 0 then 5 else 7)
      && f[ip + 40..ip + 40 + |opts|] == opts && f[ip + 40 + |opts|..] == payload
    ensures SrcMac(f) == e.srcMac && DstMac(f) == e.dstMac
    ensures SrcIp(f, l2.Tagged?) == e.srcIp && DstIp(f, l2.Tagged?) == e.dstIp
    ensures SrcPort(f, l2.Tagged?) == e.srcPort && DstPort(f, l2.Tagged?) == e.dstPort
  {
    TcpWithOptions(f, l2, e, payload, Options(servers, draw), if servers == 0 then 5 else 7);
    ReadersAgree(f, l2, e, 40 + |Options(servers, draw)| + |payload|, if servers == 0 then 5 else 7);
  }

  lemma ReadersAgree(f: Frame, l2: L2, e: Ends, total: nat, words: nat)
    requires EndsInRange(e) && L2At(f, l2, e.srcMac, e.dstMac)
    requires Ipv4At(f, L2Len(l2.Tagged?), e.srcIp, e.dstIp, total, 6, 0)
    requires TcpAt(f, L2Len(l2.Tagged?) + 20, e.srcPort, e.dstPort, words)
    ensures SrcMac(f) == e.srcMac && DstMac(f) == e.dstMac
    ensures SrcIp(f, l2.Tagged?) == e.srcIp && DstIp(f, l2.Tagged?) == e.dstIp
    ensures SrcPort(f, l2.Tagged?) == e.srcPort && DstPort(f, l2.Tagged?) == e.dstPort
  {
  }

  lemma TcpWithOptions(f: Frame, l2: L2, e: Ends, payload: Frame, opts: Frame, words: nat)
    requires EndsInRange(e) && 20 + |opts| == 4 * words && words < 16
    requires f == TcpHeaders(l2, e, |payload|, opts) + payload
    ensures var ip := L2Len(l2.Tagged?);
      && L2At(f, l2, e.srcMac, e.dstMac)
      && Ipv4At(f, ip, e.srcIp, e.dstIp, 40 + |opts| + |payload|, 6, 0)
      && TcpAt(f, ip + 20, e.srcPort, e.dstPort, words)
      && f[ip + 40..ip + 40 + |opts|] == opts && f[ip + 40 + |opts|..] == payload
  {
    var total := 40 + |opts| + |payload|;
    var l, h := L2Header(l2, e), Ipv4Header(e.srcIp, e.dstIp, total, PROTO_TCP, 0);
    var t := TcpHeader(e.srcPort, e.dstPort, 20 + |opts|);
    TcpOfPieces(f, l2, e, l, h, t, opts, payload, total, words);
  }

  lemma TcpOfPieces(f: Frame, l2: L2, e: Ends, l: Frame, h: Frame, t: Frame, opts: Frame, payload: Frame,
                    total: nat, words: nat)
    requires EndsInRange(e) && 20 + |opts| == 4 * words && words < 16
    requires l == L2Header(l2, e) && h == Ipv4Header(e.srcIp, e.dstIp, total, PROTO_TCP, 0)
    requires t == TcpHeader(e.srcPort, e.dstPort, 20 + |opts|)
    requires f == l + (h + t + opts) + payload
    ensures L2At(f, l2, e.srcMac, e.dstMac)
    ensures Ipv4At(f, |l|, e.srcIp, e.dstIp, total, 6, 0)
    ensures TcpAt(f, |l| + 20, e.srcPort, e.dstPort, words)
    ensures f[|l| + 40..|l| + 40 + |opts|] == opts && f[|l| + 40 + |opts|..] == payload
  {
    JoinTcp(l, h, t, opts, payload);
    L2Placed(l2, e, h + (t + (opts + payload)));
    Ipv4Placed(l, e.srcIp, e.dstIp, total, PROTO_TCP, 0, t + (opts + payload));
    TcpPlaced(l + h, e.srcPort, e.dstPort, 20 + |opts|, words, opts + payload);
    BehindHeaders(f, l + h + t, opts, payload);
  }

  lemma JoinTcp(l: Frame, h: Frame, t: Frame, opts: Frame, payload: Frame)
    ensures l + (h + t + opts) + payload == l + (h + (t + (opts + payload)))
    ensures l + (h + t + opts) + payload == l + h + (t + (opts + payload)) == l + h + t + (opts + payload)
  {
  }

  lemma BehindHeaders(f: Frame, hs: Frame, opts: Frame, payload: Frame)
    requires f == hs + (opts + payload)
    ensures f[|hs|..|hs| + |opts|] == opts && f[|hs| + |opts|..] == payload
  {
  }

  // ----- payloads

  /** Byte i of a number in little-endian order. */
  lemma {:induction false} LeByteAt(v: nat, n: nat, i: nat)
    requires i < n
    ensures LeBytes(v, n)[i] as int == v / Pow256(i) % 256
  {
    if i > 0 {
      LeByteAt(v / 256, n - 1, i - 1);
      DivDiv(v, 256, Pow256(i - 1));
    }
  }

  lemma DivDiv(v: nat, a: nat, b: nat)
    requires a > 0 && b > 0
    ensures a * b > 0 && v / a / b == v / (a * b)
  {
    var m, s := v / a, v % a;
    var q, r := m / b, m % b;
    assert v == a * m + s && m == b * q + r;
    ProductPositive(a, b);
    SplitProduct(v, a, b, m, q, r, s);
    DivModUnique(v, a * b, q, a * r + s);
  }

  lemma ProductPositive(a: nat, b: nat)
    requires a > 0 && b > 0
    ensures a * b > 0
  {
    MulMonotone(1, b, a);
  }

  lemma SplitProduct(v: nat, a: nat, b: nat, m: nat, q: nat, r: nat, s: nat)
    requires v == a * m + s && m == b * q + r && r < b && s < a
    ensures v == (a * b) * q + (a * r + s) && a * r + s < a * b
  {
    MulMonotone(r + 1, b, a);
    MulSplit(a, r, 1);
    MulSplit(a, b * q, r);
    assert a * (b * q) == (a * b) * q;
  }

  /** A payload is its number, little-endian, and then the filler from its start. */
  lemma PayloadBytes(num: nat, len: nat, filler: Frame)
    requires 8 <= len <= 8 + |filler|
    ensures var p := NumberedPayload(num, len, filler);
      && (forall i: nat | i < 8 :: p[i] as int == num / Pow256(i) % 256)
      && (forall i | 8 <= i < len :: p[i] == filler[i - 8])
      && (num < U64 ==> LeValue(p[..8]) == num)
  {
    var p := NumberedPayload(num, len, filler);
    forall i: nat | i < 8 ensures p[i] as int == num / Pow256(i) % 256 {
      LeByteAt(num, 8, i);
    }
    assert p[..8] == Le64(num);
    if num < U64 {
      Le64RoundTrip(num);
    }
  }

  /** The bytes of a probe behind its headers. */
  lemma ProbePayload(c: Latency.Config, st: Latency.Stamp)
    requires Latency.Sane(c)
    ensures var f := Latency.Probe(c, st);
      && |f| == 42 + c.len
      && (forall i: nat | i < 8 :: f[42 + i] as int == st.ts / Pow256(i) % 256)
      && (forall i | 50 <= i < |f| :: f[i] == 0xAB)
  {
    var p := NumberedPayload(st.ts, c.len, Latency.Fill(c.len));
    UdpFrameFields(Plain, c.ends, p, st.ipCksum, st.udpCksum);
    PayloadBytes(st.ts, c.len, Latency.Fill(c.len));
    var f := Latency.Probe(c, st);
    assert forall i: nat | i < c.len :: f[42 + i] == f[42..][i];
    assert forall i | 50 <= i < |f| :: f[i] == p[i - 42];
  }

  // ----- ARP

  /** An ARP packet whose link-layer addresses need not be those it names. */
  function ArpPacket(src: Mac, dst: Mac, op: nat, senderMac: Mac, senderIp: nat, targetMac: Mac, targetIp: nat)
    : (f: Frame)
    ensures |f| == 42
  {
    EthernetHeader(src, dst, ETHER_TYPE_ARP) + Arp.ArpHeader(op, senderMac, senderIp, targetMac, targetIp)
  }

  lemma ArpPacketFields(src: Mac, dst: Mac, op: nat, senderMac: Mac, senderIp: nat, targetMac: Mac, targetIp: nat)
    requires op < U16 && senderIp < U32 && targetIp < U32
    ensures var f := ArpPacket(src, dst, op, senderMac, senderIp, targetMac, targetIp);
      && DstMac(f) == dst && SrcMac(f) == src && EtherType(f) == ETHER_TYPE_ARP && Arp.Op(f) == op
      && Arp.SenderMac(f) == senderMac && Arp.SenderIp(f) == senderIp
      && Arp.TargetMac(f) == targetMac && Arp.TargetIp(f) == targetIp
  {
    var l, h := EthernetHeader(src, dst, ETHER_TYPE_ARP), Arp.ArpHeader(op, senderMac, senderIp, targetMac, targetIp);
    EthernetPlaced(src, dst, ETHER_TYPE_ARP, h);
    assert h + [] == h;
    ArpPieces(op, senderMac, senderIp, targetMac, targetIp);
    WordPlaced(l, h, [], 6, op);
    Placed(l, h, [], 8, 6);
    Placed(l, h, [], 14, 4);
    Placed(l, h, [], 18, 6);
    Placed(l, h, [], 24, 4);
    Get32At(l + h, 28, senderIp);
    Get32At(l + h, 38, targetIp);
  }

  lemma ArpPieces(op: nat, senderMac: Mac, senderIp: nat, targetMac: Mac, targetIp: nat)
    ensures var h := Arp.ArpHeader(op, senderMac, senderIp, targetMac, targetIp);
      && h[6..8] == Be16(op) && h[8..14] == senderMac && h[14..18] == Be32(senderIp)
      && h[18..24] == targetMac && h[24..28] == Be32(targetIp)
  {
    SixPieces(Be16(1) + Be16(ETHER_TYPE_IPV4) + [6, 4], Be16(op), senderMac, Be32(senderIp), targetMac, Be32(targetIp));
  }

  lemma SixPieces(a: Frame, op: Frame, m: Frame, i: Frame, n: Frame, j: Frame)
    requires |a| == |m| == |n| == 6 && |op| == 2 && |i| == |j| == 4
    ensures var h := a + op + m + i + n + j;
      h[6..8] == op && h[8..14] == m && h[14..18] == i && h[18..24] == n && h[24..28] == j
  {
  }

  /** The responder answers exactly the requests for its address that reach its hardware address or everybody, and the
      answer goes to the sender the request names. */
  lemma RepliesIff(src: Mac, dst: Mac, op: nat, senderMac: Mac, senderIp: nat, targetMac: Mac, targetIp: nat,
                   mac: Mac, ip: nat)
    requires op < U16 && senderIp < U32 && targetIp < U32
    ensures Arp.ReplyTo(ArpPacket(src, dst, op, senderMac, senderIp, targetMac, targetIp), mac, ip)
         == if (dst == mac || dst == BROADCAST) && op == 1 && targetIp == ip
            then [ArpPacket(mac, senderMac, 2, mac, ip, senderMac, senderIp)] else []
  {
    ArpPacketFields(src, dst, op, senderMac, senderIp, targetMac, targetIp);
  }

  /** The resolver takes exactly the replies to its own addresses, whatever sender they name. */
  lemma TakesReplyIff(src: Mac, dst: Mac, op: nat, senderMac: Mac, senderIp: nat, targetMac: Mac, targetIp: nat,
                      r: Arp.Resolver)
    requires op < U16 && senderIp < U32 && targetIp < U32
    ensures Arp.AcceptsReply(r, ArpPacket(src, dst, op, senderMac, senderIp, targetMac, targetIp))
       <==> dst == r.mac && op == 2 && targetMac == r.mac && targetIp == r.ip
  {
    ArpPacketFields(src, dst, op, senderMac, senderIp, targetMac, targetIp);
  }

  // ----- which of them the receivers take

  /** The server takes an IPv4 packet exactly when it carries the server's address, is tagged if and only if the server
      expects tags, and, where the server answers ARP, is addressed to the server or to everybody. */
  lemma AcceptsIff(cfg: ServerConfig, f: Frame, l2: L2, e: Ends, total: nat, proto: byte, cksum: nat)
    requires HasHeaders(f, l2.Tagged?) && L2At(f, l2, e.srcMac, e.dstMac)
    requires Ipv4At(f, L2Len(l2.Tagged?), e.srcIp, e.dstIp, total, proto, cksum)
    ensures Readable(cfg, f)
    ensures Accepts(cfg, f) <==>
      && e.dstIp == cfg.ip
      && l2.Tagged? == cfg.vlan
      && (cfg.arp ==> e.dstMac == cfg.mac || e.dstMac == BROADCAST)
  {
  }

  lemma AcceptsUdpIff(cfg: ServerConfig, l2: L2, e: Ends, payload: Frame, ic: nat, uc: nat)
    requires EndsInRange(e)
    ensures var f := UdpFrame(l2, e, payload, ic, uc);
      && Readable(cfg, f)
      && (Accepts(cfg, f) <==>
          && e.dstIp == cfg.ip
          && l2.Tagged? == cfg.vlan
          && (cfg.arp ==> e.dstMac == cfg.mac || e.dstMac == BROADCAST))
  {
    var f := UdpFrame(l2, e, payload, ic, uc);
    UdpFrameHeaders(f, l2, e, payload, ic, uc);
    AcceptsIff(cfg, f, l2, e, 28 + |payload|, 17, ic);
  }

  /** No receiver takes an ARP packet, whatever padding follows it. */
  lemma ArpNotTaken(server: ServerConfig, client: ClientConfig, mac: Mac, op: nat, srcMac: Mac, srcIp: nat,
                    dstMac: Mac, dstIp: nat, pad: Frame)
    requires op < U16 && srcIp < U32 && dstIp < U32 && |pad| >= 12
    ensures var f := Arp.ArpFrame(op, srcMac, srcIp, dstMac, dstIp) + pad;
      && Readable(server, f) && !Accepts(server, f)
      && !PassesEthernet(f, mac) && Classify(client, f) == Receiver.Invalid
  {
    var h, rest := EthernetHeader(srcMac, dstMac, ETHER_TYPE_ARP), Arp.ArpHeader(op, srcMac, srcIp, dstMac, dstIp);
    JoinThree(h, rest, pad);
    EthernetPlaced(srcMac, dstMac, ETHER_TYPE_ARP, rest + pad);
  }

  /** What the receiver thread makes of a UDP packet that is long enough for it. */
  lemma ClassifyUdp(cfg: ClientConfig, l2: L2, e: Ends, payload: Frame, ic: nat, uc: nat)
    requires EndsInRange(e) && |payload| >= 8 + (if cfg.vlan && l2.Plain? then VLAN_HDR_LEN else 0)
    ensures var o := Classify(cfg, UdpFrame(l2, e, payload, ic, uc));
      var forUs := e.dstMac == cfg.mac || e.dstMac == BROADCAST;
      && (o == Receiver.Invalid <==> !forUs)
      && (o == WrongType <==> forUs && l2.Tagged? != cfg.vlan)
      && (o == UnknownPeer <==> forUs && l2.Tagged? == cfg.vlan && e.srcIp !in cfg.dstIps)
      && (o.Counted? ==>
          && o.k < |cfg.dstIps| && cfg.dstIps[o.k] == e.srcIp && e.srcIp !in cfg.dstIps[..o.k]
          && o.timestamp == LeValue(payload[..8]) && (o.measured <==> e.srcPort == cfg.basePort))
  {
    UdpFrameFields(l2, e, payload, ic, uc);
    assert cfg.dstIps[..|cfg.dstIps|] == cfg.dstIps;
  }

  /** What the latency client makes of one: for another host, nothing; tagged, one packet less outstanding; otherwise
      also a sample, with the number at the start of the payload as its timestamp. */
  lemma HandleUdp(c: Latency.Config, k: Latency.Count, l2: L2, e: Ends, payload: Frame, ic: nat, uc: nat, at: nat)
    requires EndsInRange(e) && |payload| >= 8 && k.nbTx < U32
    ensures var k' := Latency.HandleOne(c, k, UdpFrame(l2, e, payload, ic, uc), at);
      var forUs := e.dstMac == c.ends.srcMac || e.dstMac == BROADCAST;
      && k'.nbTx == (if !forUs then k.nbTx else if k.nbTx == 0 then U32 - 1 else k.nbTx - 1)
      && k'.samples == k.samples
           + if forUs && l2.Plain? then [Latency.Sample(LeValue(payload[..8]), at)] else []
  {
    UdpFrameFields(l2, e, payload, ic, uc);
    HandleFields(c, k, UdpFrame(l2, e, payload, ic, uc), at, l2.Tagged?, payload);
  }

  lemma HandleFields(c: Latency.Config, k: Latency.Count, f: Frame, at: nat, vlan: bool, payload: Frame)
    requires |payload| >= 8 && k.nbTx < U32 && HasHeaders(f, vlan) && Payload(f, vlan) == payload
    requires EtherType(f) == (if vlan then ETHER_TYPE_VLAN else ETHER_TYPE_IPV4)
    ensures var k', forUs := Latency.HandleOne(c, k, f, at), DstMac(f) == c.ends.srcMac || DstMac(f) == BROADCAST;
      && k'.nbTx == (if !forUs then k.nbTx else if k.nbTx == 0 then U32 - 1 else k.nbTx - 1)
      && k'.samples == k.samples + if forUs && !vlan then [Latency.Sample(LeValue(payload[..8]), at)] else []
  {
    if !vlan {
      assert f[42..50] == f[42..][..8];
    }
  }

  // ----- checksums

  /** The values that complete a one's-complement sum s to all ones. */
  predicate Completes(cksum: nat, s: nat) {
    cksum + s == 0xFFFF || cksum == s == 0xFFFF
  }

  lemma AllOnesIff(x: Frame, y: Frame, cksum: nat)
    requires cksum < U16 && WordSum(x) == WordSum(y) + cksum
    ensures OnesSum(x) == 0xFFFF <==> Completes(cksum, OnesSum(y))
  {
    OnesSumFolds(x);
    OnesSumFolds(y);
    FoldAdd(cksum, WordSum(y));
  }

  /** f and g agree from a to b, but for the word at `at`, which g has as 0. */
  ghost predicate ButForWord(f: Frame, g: Frame, a: nat, at: nat, b: nat, v: nat) {
    && a <= at && at + 2 <= b <= |f| && |g| == |f| && (at - a) % 2 == 0
    && f[a..at] == g[a..at] && f[at + 2..b] == g[at + 2..b]
    && Get16(f, at) == v && Get16(g, at) == 0
  }

  lemma WordReplaced(f: Frame, g: Frame, a: nat, at: nat, b: nat, v: nat)
    requires ButForWord(f, g, a, at, b, v)
    ensures WordSum(f[a..b]) == WordSum(g[a..b]) + v
  {
    OneWord(f, a, at, b);
    OneWord(g, a, at, b);
  }

  lemma OneWord(f: Frame, a: nat, at: nat, b: nat)
    requires a <= at && at + 2 <= b <= |f| && (at - a) % 2 == 0
    ensures WordSum(f[a..b]) == WordSum(f[a..at]) + Get16(f, at) + WordSum(f[at + 2..b])
  {
    CutSum(f, a, at, b);
    CutSum(f, at, at + 2, b);
    var w := f[at..at + 2];
    assert w[0] == f[at] && w[1] == f[at + 1] && w[2..] == [];
    assert WordSum(w) == Get16(f, at) + WordSum(w[2..]);
  }

  /** f and g are the same but for the two checksums of a UDP packet with a 20-byte IPv4 header at ip. */
  ghost predicate ButForChecksums(f: Frame, g: Frame, ip: nat) {
    && |f| == |g| >= ip + 28
    && f[..ip + 10] == g[..ip + 10] && f[ip + 12..ip + 26] == g[ip + 12..ip + 26] && f[ip + 28..] == g[ip + 28..]
  }

  lemma UdpFramesAgree(l2: L2, e: Ends, payload: Frame, ic: nat, uc: nat)
    ensures ButForChecksums(UdpFrame(l2, e, payload, ic, uc), UdpFrame(l2, e, payload, 0, 0), L2Len(l2.Tagged?))
  {
    var n := |payload|;
    var a := L2Header(l2, e) + ([0x45, 0] + Be16(28 + n) + [0, 0, 0, 0, 64, PROTO_UDP]);
    var b := Be32(e.srcIp) + Be32(e.dstIp) + (Be16(e.srcPort) + Be16(e.dstPort) + Be16(8 + n));
    UdpFrameAs(l2, e, payload, ic, uc, a, b);
    UdpFrameAs(l2, e, payload, 0, 0, a, b);
    FivePieces(a, Be16(ic), b, Be16(uc), payload);
    FivePieces(a, Be16(0), b, Be16(0), payload);
  }

  lemma UdpFrameAs(l2: L2, e: Ends, payload: Frame, ic: nat, uc: nat, a: Frame, b: Frame)
    requires a == L2Header(l2, e) + ([0x45, 0] + Be16(28 + |payload|) + [0, 0, 0, 0, 64, PROTO_UDP])
    requires b == Be32(e.srcIp) + Be32(e.dstIp) + (Be16(e.srcPort) + Be16(e.dstPort) + Be16(8 + |payload|))
    ensures UdpFrame(l2, e, payload, ic, uc) == a + Be16(ic) + b + Be16(uc) + payload
  {
    var n := |payload|;
    Regroup(L2Header(l2, e), [0x45, 0] + Be16(28 + n) + [0, 0, 0, 0, 64, PROTO_UDP], Be16(ic), Be32(e.srcIp),
            Be32(e.dstIp), Be16(e.srcPort) + Be16(e.dstPort) + Be16(8 + n), Be16(uc));
  }

  lemma Regroup(l: Frame, a: Frame, c: Frame, s: Frame, d: Frame, p: Frame, u: Frame)
    ensures l + (a + c + s + d) + (p + u) == (l + a) + c + (s + d + p) + u
  {
  }

  lemma FivePieces(a: Frame, c: Frame, b: Frame, d: Frame, p: Frame)
    requires |c| == |d| == 2
    ensures var f, i, j := a + c + b + d + p, |a|, |a| + 2 + |b|;
      f[..i] == a && f[i + 2..j] == b && f[j + 2..] == p
  {
  }

  lemma SubSlice(f: Frame, g: Frame, a: nat, b: nat, x: nat, y: nat)
    requires |f| == |g| && a <= x <= y <= b <= |f| && f[a..b] == g[a..b]
    ensures f[x..y] == g[x..y]
  {
    SliceOfSlice(f, a, b, x, y);
    SliceOfSlice(g, a, b, x, y);
  }

  lemma SliceOfSlice(f: Frame, a: nat, b: nat, x: nat, y: nat)
    requires a <= x <= y <= b <= |f|
    ensures f[a..b][x - a..y - a] == f[x..y]
  {
    var s, t := f[a..b][x - a..y - a], f[x..y];
    assert |s| == |t|;
    forall k | 0 <= k < |s| ensures s[k] == t[k] {
      assert s[k] == f[a..b][x - a + k] == f[x + k];
    }
  }

  /** The fields the two checksums depend on. */
  ghost predicate UdpPacket(f: Frame, vlan: bool, len: nat, ic: nat, uc: nat) {
    && UdpWellFormed(f, vlan) && HeaderLen(f, vlan) == 20 && UdpLen(f, vlan) == 8 + len
    && Get16(f, L2Len(vlan) + 10) == ic && Get16(f, L2Len(vlan) + 26) == uc
  }

  lemma UdpPacketBuilt(f: Frame, l2: L2, e: Ends, payload: Frame, ic: nat, uc: nat)
    requires EndsInRange(e) && 28 + |payload| < U16 && ic < U16 && uc < U16 && f == UdpFrame(l2, e, payload, ic, uc)
    ensures UdpPacket(f, l2.Tagged?, |payload|, ic, uc)
  {
    UdpFrameHeaders(f, l2, e, payload, ic, uc);
    FieldsOfPacket(f, l2.Tagged?, e, |payload|, ic, uc);
  }

  lemma FieldsOfPacket(f: Frame, vlan: bool, e: Ends, len: nat, ic: nat, uc: nat)
    requires |f| == L2Len(vlan) + 28 + len && 28 + len < U16 && ic < U16 && uc < U16
    requires Ipv4At(f, L2Len(vlan), e.srcIp, e.dstIp, 28 + len, 17, ic)
    requires UdpAt(f, L2Len(vlan) + 20, e.srcPort, e.dstPort, 8 + len, uc)
    ensures UdpPacket(f, vlan, len, ic, uc)
  {
    SmallWords(len, ic, uc);
    FirstByte(f, L2Len(vlan));
    LengthsFit(f, vlan, len);
  }

  lemma SmallWords(len: nat, ic: nat, uc: nat)
    requires 28 + len < U16 && ic < U16 && uc < U16
    ensures (28 + len) % U16 == 28 + len && (8 + len) % U16 == 8 + len && ic % U16 == ic && uc % U16 == uc
  {
  }

  lemma FirstByte(f: Frame, at: nat)
    requires at + 2 <= |f| && Get16(f, at) == 0x4500
    ensures f[at] == 0x45
  {
  }

  /** The checksums of a UDP packet are right exactly when each completes the sum taken with zero in its place. */
  lemma ChecksumsRightIff(f: Frame, g: Frame, l2: L2, e: Ends, payload: Frame, ic: nat, uc: nat)
    requires EndsInRange(e) && 28 + |payload| < U16 && ic < U16 && uc < U16
    requires f == UdpFrame(l2, e, payload, ic, uc) && g == UdpFrame(l2, e, payload, 0, 0)
    ensures UdpWellFormed(f, l2.Tagged?) && UdpWellFormed(g, l2.Tagged?)
    ensures HeaderChecksumOk(f, l2.Tagged?) <==> Completes(ic, OnesSum(Ipv4HeaderBytes(g, l2.Tagged?)))
    ensures UdpChecksumOk(f, l2.Tagged?) <==> Completes(uc, OnesSum(UdpChecksumBytes(g, l2.Tagged?)))
  {
    UdpPacketBuilt(f, l2, e, payload, ic, uc);
    UdpPacketBuilt(g, l2, e, payload, 0, 0);
    UdpFramesAgree(l2, e, payload, ic, uc);
    HeaderRightIff(f, g, l2.Tagged?, |payload|, ic, uc);
    UdpRightIff(f, g, l2.Tagged?, |payload|, ic, uc);
  }

  lemma HeaderRightIff(f: Frame, g: Frame, vlan: bool, len: nat, ic: nat, uc: nat)
    requires UdpPacket(f, vlan, len, ic, uc) && UdpPacket(g, vlan, len, 0, 0) && ic < U16
    requires ButForChecksums(f, g, L2Len(vlan))
    ensures HeaderChecksumOk(f, vlan) <==> Completes(ic, OnesSum(Ipv4HeaderBytes(g, vlan)))
  {
    HeaderSums(f, g, L2Len(vlan), ic);
    AllOnesIff(Ipv4HeaderBytes(f, vlan), Ipv4HeaderBytes(g, vlan), ic);
  }

  lemma HeaderSums(f: Frame, g: Frame, ip: nat, ic: nat)
    requires ButForChecksums(f, g, ip) && Get16(f, ip + 10) == ic && Get16(g, ip + 10) == 0
    ensures WordSum(f[ip..ip + 20]) == WordSum(g[ip..ip + 20]) + ic
  {
    SubSlice(f, g, 0, ip + 10, ip, ip + 10);
    SubSlice(f, g, ip + 12, ip + 26, ip + 12, ip + 20);
    WordReplaced(f, g, ip, ip + 10, ip + 20, ic);
  }

  lemma UdpRightIff(f: Frame, g: Frame, vlan: bool, len: nat, ic: nat, uc: nat)
    requires UdpPacket(f, vlan, len, ic, uc) && UdpPacket(g, vlan, len, 0, 0) && uc < U16
    requires ButForChecksums(f, g, L2Len(vlan))
    ensures UdpChecksumOk(f, vlan) <==> Completes(uc, OnesSum(UdpChecksumBytes(g, vlan)))
  {
    UdpSums(f, g, vlan, len, ic, uc);
    AllOnesIff(UdpChecksumBytes(f, vlan), UdpChecksumBytes(g, vlan), uc);
  }

  lemma UdpSums(f: Frame, g: Frame, vlan: bool, len: nat, ic: nat, uc: nat)
    requires UdpPacket(f, vlan, len, ic, uc) && UdpPacket(g, vlan, len, 0, 0)
    requires ButForChecksums(f, g, L2Len(vlan))
    ensures WordSum(UdpChecksumBytes(f, vlan)) == WordSum(UdpChecksumBytes(g, vlan)) + uc
  {
    SegmentOfPacket(f, g, vlan, len, ic, uc);
    SamePseudoHeader(f, g, vlan);
    UdpSumParts(f, vlan);
    UdpSumParts(g, vlan);
  }

  lemma SegmentOfPacket(f: Frame, g: Frame, vlan: bool, len: nat, ic: nat, uc: nat)
    requires UdpPacket(f, vlan, len, ic, uc) && UdpPacket(g, vlan, len, 0, 0)
    requires ButForChecksums(f, g, L2Len(vlan))
    ensures WordSum(SegmentBytes(f, vlan)) == WordSum(SegmentBytes(g, vlan)) + uc
  {
    SegmentSums(f, g, L2Len(vlan), L2Len(vlan) + 28 + len, uc);
  }

  lemma SegmentSums(f: Frame, g: Frame, ip: nat, end: nat, uc: nat)
    requires ButForChecksums(f, g, ip) && Get16(f, ip + 26) == uc && Get16(g, ip + 26) == 0 && ip + 28 <= end <= |f|
    ensures WordSum(f[ip + 20..end]) == WordSum(g[ip + 20..end]) + uc
  {
    SubSlice(f, g, ip + 12, ip + 26, ip + 20, ip + 26);
    SubSlice(f, g, ip + 28, |f|, ip + 28, end);
    WordReplaced(f, g, ip + 20, ip + 26, end, uc);
  }

  lemma SamePseudoHeader(f: Frame, g: Frame, vlan: bool)
    requires UdpWellFormed(f, vlan) && UdpWellFormed(g, vlan) && UdpLen(f, vlan) == UdpLen(g, vlan)
    requires ButForChecksums(f, g, L2Len(vlan))
    ensures AddressBytes(f, vlan) == AddressBytes(g, vlan) && LengthWords(f, vlan) == LengthWords(g, vlan)
  {
    var ip := L2Len(vlan);
    SubSlice(f, g, ip + 12, ip + 26, ip + 12, ip + 20);
    SameAt(g, f, 0, ip + 10, ip + 9);
  }

  /** A probe has the checksums it was built with in their places; they are right, there and in its echo, exactly when
      each completes the sum over the probe without checksums. */
  lemma ProbeChecksums(c: Latency.Config, st: Latency.Stamp)
    requires Latency.Sane(c) && 28 + c.len < U16 && st.ipCksum < U16 && st.udpCksum < U16
    ensures var f, g := Latency.Probe(c, st), Latency.Probe(c, st.(ipCksum := 0, udpCksum := 0));
      && UdpWellFormed(f, false) && UdpWellFormed(g, false) && UdpWellFormed(Latency.EchoOf(c, st), false)
      && Get16(f, 24) == st.ipCksum && Get16(f, 40) == st.udpCksum
      && (HeaderChecksumOk(f, false) <==> Completes(st.ipCksum, OnesSum(Ipv4HeaderBytes(g, false))))
      && (UdpChecksumOk(f, false) <==> Completes(st.udpCksum, OnesSum(UdpChecksumBytes(g, false))))
      && (HeaderChecksumOk(Latency.EchoOf(c, st), false) <==> HeaderChecksumOk(f, false))
      && (UdpChecksumOk(Latency.EchoOf(c, st), false) <==> UdpChecksumOk(f, false))
  {
    var payload := NumberedPayload(st.ts, c.len, Latency.Fill(c.len));
    var f, g := Latency.Probe(c, st), Latency.Probe(c, st.(ipCksum := 0, udpCksum := 0));
    UdpPacketBuilt(f, Plain, c.ends, payload, st.ipCksum, st.udpCksum);
    ChecksumsRightIff(f, g, Plain, c.ends, payload, st.ipCksum, st.udpCksum);
    EchoKeepsChecksums(f, false);
  }
}
