/** What the server does to a packet it echoes (server.c:226-306), and why that keeps the checksums right. */
module Echo {
  import opened Wire

  /** Length of everything before the IPv4 header. */
  function L2Len(vlan: bool): nat {
    if vlan then ETHER_HDR_LEN + VLAN_HDR_LEN else ETHER_HDR_LEN
  }

  /** The frame reaches as far as the ports the server swaps. */
  predicate HasHeaders(f: Frame, vlan: bool) {
    |f| >= L2Len(vlan) + IPV4_HDR_LEN + UDP_HDR_LEN
  }

  function DstMac(f: Frame): Mac requires |f| >= ETHER_HDR_LEN { f[0..6] }
  function SrcMac(f: Frame): Mac requires |f| >= ETHER_HDR_LEN { f[6..12] }
  function EtherType(f: Frame): nat requires |f| >= ETHER_HDR_LEN { Get16(f, 12) }
  function SrcIp(f: Frame, vlan: bool): nat requires HasHeaders(f, vlan) { Get32(f, L2Len(vlan) + 12) }
  function DstIp(f: Frame, vlan: bool): nat requires HasHeaders(f, vlan) { Get32(f, L2Len(vlan) + 16) }
  function SrcPort(f: Frame, vlan: bool): nat requires HasHeaders(f, vlan) { Get16(f, L2Len(vlan) + 20) }
  function DstPort(f: Frame, vlan: bool): nat requires HasHeaders(f, vlan) { Get16(f, L2Len(vlan) + 22) }
  function Payload(f: Frame, vlan: bool): Frame requires HasHeaders(f, vlan) { f[L2Len(vlan) + 28..] }

  // ----- the filter

  /** check_eth_hdr without its reply: addressed to us or to everybody, and not ARP. */
  predicate PassesEthernet(f: Frame, mac: Mac)
    requires |f| >= ETHER_HDR_LEN
  {
    (DstMac(f) == mac || DstMac(f) == BROADCAST) && EtherType(f) != ETHER_TYPE_ARP
  }

  datatype ServerConfig = ServerConfig(mac: Mac, ip: nat, vlan: bool, arp: bool, bidi: bool)

  /** The tests that look at the Ethernet header only. */
  predicate PassesType(cfg: ServerConfig, f: Frame)
    requires |f| >= ETHER_HDR_LEN
  {
    && (cfg.arp ==> PassesEthernet(f, cfg.mac))
    && EtherType(f) == if cfg.vlan then ETHER_TYPE_VLAN else ETHER_TYPE_IPV4
  }

  /** The frame reaches as far as the server reads: the Ethernet header and, if that passes, the ports. */
  predicate Readable(cfg: ServerConfig, f: Frame) {
    |f| >= ETHER_HDR_LEN && (PassesType(cfg, f) ==> HasHeaders(f, cfg.vlan))
  }

  predicate Accepts(cfg: ServerConfig, f: Frame)
    requires Readable(cfg, f)
  {
    PassesType(cfg, f) && DstIp(f, cfg.vlan) == cfg.ip
  }

  // ----- the swap

  /** Where byte k comes from when the n bytes at `a` and the n bytes at `b` change places. */
  function Twin(a: nat, b: nat, n: nat, k: nat): nat {
    if a <= k < a + n then k - a + b else if b <= k < b + n then k - b + a else k
  }

  function Exchange(f: Frame, a: nat, b: nat, n: nat): (r: Frame)
    requires a + n <= b && b + n <= |f|
    ensures |r| == |f|
  {
    seq(|f|, k requires 0 <= k < |f| => f[Twin(a, b, n, k)])
  }

  /** Where byte k of the echoed frame comes from: MACs, addresses and ports change places. */
  function Origin(vlan: bool, k: nat): nat {
    var ip := L2Len(vlan);
    Twin(0, 6, 6, Twin(ip + 12, ip + 16, 4, Twin(ip + 20, ip + 22, 2, k)))
  }

  function Swapped(f: Frame, vlan: bool): (r: Frame)
    requires HasHeaders(f, vlan)
    ensures |r| == |f|
  {
    seq(|f|, k requires 0 <= k < |f| => f[Origin(vlan, k)])
  }

  /** server.c:288-301, in the packet buffer. */
  method SwapHeaders(buf: Mbuf, vlan: bool)
    requires HasHeaders(buf.data, vlan)
    modifies buf
    ensures buf.data == Swapped(old(buf.data), vlan)
  {
    var ip := L2Len(vlan);
    ThreeExchanges(buf.data, vlan);
    SwapFields(buf, 0, 6, 6);
    SwapFields(buf, ip + 12, ip + 16, 4);
    SwapFields(buf, ip + 20, ip + 22, 2);
  }

  lemma ThreeExchanges(f: Frame, vlan: bool)
    requires HasHeaders(f, vlan)
    ensures var ip := L2Len(vlan);
      Exchange(Exchange(Exchange(f, 0, 6, 6), ip + 12, ip + 16, 4), ip + 20, ip + 22, 2) == Swapped(f, vlan)
  {
    var ip := L2Len(vlan);
    var a := Exchange(f, 0, 6, 6);
    var b := Exchange(a, ip + 12, ip + 16, 4);
    forall k | 0 <= k < |f| ensures Exchange(b, ip + 20, ip + 22, 2)[k] == Swapped(f, vlan)[k] {
      var j := Twin(ip + 20, ip + 22, 2, k);
      assert b[j] == a[Twin(ip + 12, ip + 16, 4, j)];
    }
  }

  /** tmp := a; a := b; b := tmp, for two fields of n bytes. */
  method SwapFields(buf: Mbuf, a: nat, b: nat, n: nat)
    requires a + n <= b && b + n <= |buf.data|
    modifies buf
    ensures buf.data == Exchange(old(buf.data), a, b, n)
  {
    var tmp := buf.data[a..a + n];
    buf.Put(a, buf.data[b..b + n]);
    buf.Put(b, tmp);
  }

  /** A field whose bytes all come from one place. */
  lemma FieldMoved(f: Frame, vlan: bool, at: nat, from: nat, n: nat)
    requires HasHeaders(f, vlan) && at + n <= |f| && from + n <= |f|
    requires forall k | at <= k < at + n :: Origin(vlan, k) == k - at + from
    ensures Swapped(f, vlan)[at..at + n] == f[from..from + n]
  {
    var x, y := Swapped(f, vlan)[at..at + n], f[from..from + n];
    forall k | 0 <= k < n ensures x[k] == y[k] {
      assert Origin(vlan, at + k) == k + from;
    }
  }

  lemma SameField(r: Frame, f: Frame, at: nat, from: nat, n: nat)
    requires at + n <= |r| && from + n <= |f| && r[at..at + n] == f[from..from + n]
    ensures n == 2 ==> Get16(r, at) == Get16(f, from)
    ensures n == 4 ==> Get32(r, at) == Get32(f, from)
  {
    var x, y := r[at..at + n], f[from..from + n];
    if n == 2 || n == 4 {
      assert x[0] == r[at] && x[1] == r[at + 1] && y[0] == f[from] && y[1] == f[from + 1];
    }
    if n == 4 {
      assert x[2] == r[at + 2] && x[3] == r[at + 3] && y[2] == f[from + 2] && y[3] == f[from + 3];
    }
  }

  lemma NumberMoved(f: Frame, vlan: bool, at: nat, from: nat, n: nat)
    requires HasHeaders(f, vlan) && at + n <= |f| && from + n <= |f|
    requires forall k | at <= k < at + n :: Origin(vlan, k) == k - at + from
    ensures n == 2 ==> Get16(Swapped(f, vlan), at) == Get16(f, from)
    ensures n == 4 ==> Get32(Swapped(f, vlan), at) == Get32(f, from)
  {
    FieldMoved(f, vlan, at, from, n);
    SameField(Swapped(f, vlan), f, at, from, n);
  }

  lemma SwapMacs(f: Frame, vlan: bool)
    requires HasHeaders(f, vlan)
    ensures var r := Swapped(f, vlan);
      DstMac(r) == SrcMac(f) && SrcMac(r) == DstMac(f) && EtherType(r) == EtherType(f)
  {
    FieldMoved(f, vlan, 0, 6, 6);
    FieldMoved(f, vlan, 6, 0, 6);
    NumberMoved(f, vlan, 12, 12, 2);
  }

  lemma SwapIps(f: Frame, vlan: bool)
    requires HasHeaders(f, vlan)
    ensures SrcIp(Swapped(f, vlan), vlan) == DstIp(f, vlan) && DstIp(Swapped(f, vlan), vlan) == SrcIp(f, vlan)
  {
    NumberMoved(f, vlan, L2Len(vlan) + 12, L2Len(vlan) + 16, 4);
    NumberMoved(f, vlan, L2Len(vlan) + 16, L2Len(vlan) + 12, 4);
  }

  lemma SwapPorts(f: Frame, vlan: bool)
    requires HasHeaders(f, vlan)
    ensures SrcPort(Swapped(f, vlan), vlan) == DstPort(f, vlan) && DstPort(Swapped(f, vlan), vlan) == SrcPort(f, vlan)
  {
    NumberMoved(f, vlan, L2Len(vlan) + 20, L2Len(vlan) + 22, 2);
    NumberMoved(f, vlan, L2Len(vlan) + 22, L2Len(vlan) + 20, 2);
  }

  lemma SwapPayload(f: Frame, vlan: bool)
    requires HasHeaders(f, vlan)
    ensures Payload(Swapped(f, vlan), vlan) == Payload(f, vlan)
  {
    var at, r := L2Len(vlan) + 28, Swapped(f, vlan);
    FieldMoved(f, vlan, at, at, |f| - at);
    assert f[at..] == f[at..|f|] && r[at..] == r[at..|f|];
  }

  /** Echoing exchanges the two ends of the conversation and nothing else. */
  lemma SwapExchangesEnds(f: Frame, vlan: bool)
    requires HasHeaders(f, vlan)
    ensures var r := Swapped(f, vlan);
      && HasHeaders(r, vlan)
      && DstMac(r) == SrcMac(f) && SrcMac(r) == DstMac(f) && EtherType(r) == EtherType(f)
      && SrcIp(r, vlan) == DstIp(f, vlan) && DstIp(r, vlan) == SrcIp(f, vlan)
      && SrcPort(r, vlan) == DstPort(f, vlan) && DstPort(r, vlan) == SrcPort(f, vlan)
      && Payload(r, vlan) == Payload(f, vlan)
  {
    SwapMacs(f, vlan);
    SwapIps(f, vlan);
    SwapPorts(f, vlan);
    SwapPayload(f, vlan);
  }

  /** A second echo undoes the first. */
  lemma SwapTwice(f: Frame, vlan: bool)
    requires HasHeaders(f, vlan)
    ensures Swapped(Swapped(f, vlan), vlan) == f
  {
    var r := Swapped(f, vlan);
    forall k | 0 <= k < |f| ensures Swapped(r, vlan)[k] == f[k] {
    }
  }

  // ----- checksums: section 2 of RFC 1071

  /** The sum of the big-endian 16-bit words of b; an odd last byte is padded with zero. */
  function WordSum(b: Frame): nat {
    if |b| == 0 then 0
    else if |b| == 1 then b[0] as int * 256
    else b[0] as int * 256 + b[1] + WordSum(b[2..])
  }

  /** One's-complement addition: the carry out of bit 15 comes back in at bit 0. */
  function EndAround(x: nat, y: nat): nat {
    if x + y >= U16 then x + y - U16 + 1 else x + y
  }

  /** The one's-complement sum, word by word. */
  function OnesSum(b: Frame): (s: nat)
    ensures s < U16
  {
    if |b| == 0 then 0
    else if |b| == 1 then b[0] as int * 256
    else EndAround(b[0] as int * 256 + b[1], OnesSum(b[2..]))
  }

  function Folded(w: nat): nat {
    if w == 0 then 0 else (w - 1) % (U16 - 1) + 1
  }

  lemma FoldAdd(x: nat, w: nat)
    requires x < U16
    ensures EndAround(x, Folded(w)) == Folded(x + w)
  {
    if w > 0 {
      var q, r := (w - 1) / (U16 - 1), (w - 1) % (U16 - 1);
      assert x + w - 1 == (U16 - 1) * q + (x + r);
    }
  }

  /** The one's-complement sum is the ordinary sum with its high part folded in, so the order of the words
      does not matter. */
  lemma {:induction false} OnesSumFolds(b: Frame)
    ensures OnesSum(b) == Folded(WordSum(b))
  {
    if |b| >= 2 {
      OnesSumFolds(b[2..]);
      FoldAdd(b[0] as int * 256 + b[1], WordSum(b[2..]));
    }
  }

  lemma {:induction false} WordSumConcat(a: Frame, b: Frame)
    requires |a| % 2 == 0
    ensures WordSum(a + b) == WordSum(a) + WordSum(b)
  {
    if a == [] {
      assert a + b == b;
    } else {
      assert (a + b)[2..] == a[2..] + b;
      WordSumConcat(a[2..], b);
    }
  }

  /** Cut a slice in two, after an even number of bytes. */
  lemma CutSum(f: Frame, a: nat, m: nat, b: nat)
    requires a <= m <= b <= |f| && (m - a) % 2 == 0
    ensures WordSum(f[a..b]) == WordSum(f[a..m]) + WordSum(f[m..b])
  {
    assert f[a..b] == f[a..m] + f[m..b];
    WordSumConcat(f[a..m], f[m..b]);
  }

  /** Neighbouring fields that trade places leave the word sum alone. */
  lemma TradeSum(f: Frame, r: Frame, a: nat, m: nat, b: nat)
    requires |r| == |f| && a <= m <= b <= |f| && m - a == b - m && (m - a) % 2 == 0
    requires r[a..m] == f[m..b] && r[m..b] == f[a..m]
    ensures WordSum(r[a..b]) == WordSum(f[a..b])
  {
    CutSum(f, a, m, b);
    CutSum(r, a, m, b);
  }

  lemma ThreeParts(x: Frame, y: Frame, t: Frame)
    requires |x| % 2 == 0 && |y| % 2 == 0
    ensures WordSum(x + y + t) == WordSum(x) + WordSum(y) + WordSum(t)
  {
    WordSumConcat(x, y);
    WordSumConcat(x + y, t);
  }

  // ----- the two checksums of a frame

  /** Bytes in the IPv4 header, from its IHL field (section 3.1 of RFC 791). */
  function HeaderLen(f: Frame, vlan: bool): nat
    requires HasHeaders(f, vlan)
  {
    4 * (f[L2Len(vlan)] as int % 16)
  }

  /** The header fields describe a datagram that lies inside the frame and can hold a UDP header. */
  predicate WellFormed(f: Frame, vlan: bool) {
    && HasHeaders(f, vlan)
    && var ip, total := L2Len(vlan), Get16(f, L2Len(vlan) + 2);
    && IPV4_HDR_LEN <= HeaderLen(f, vlan)
    && HeaderLen(f, vlan) + UDP_HDR_LEN <= total
    && ip + total <= |f|
  }

  /** The length field of the UDP header; padding may follow the UDP datagram. */
  function UdpLen(f: Frame, vlan: bool): nat
    requires WellFormed(f, vlan)
  {
    Get16(f, L2Len(vlan) + HeaderLen(f, vlan) + 4)
  }

  /** ... and the UDP datagram lies inside the IP datagram. */
  predicate UdpWellFormed(f: Frame, vlan: bool) {
    && WellFormed(f, vlan)
    && UDP_HDR_LEN <= UdpLen(f, vlan)
    && HeaderLen(f, vlan) + UdpLen(f, vlan) <= Get16(f, L2Len(vlan) + 2)
  }

  function Ipv4HeaderBytes(f: Frame, vlan: bool): Frame
    requires WellFormed(f, vlan)
  {
    f[L2Len(vlan)..L2Len(vlan) + HeaderLen(f, vlan)]
  }

  function AddressBytes(f: Frame, vlan: bool): (b: Frame)
    requires HasHeaders(f, vlan)
    ensures |b| == 8
  {
    f[L2Len(vlan) + 12..L2Len(vlan) + 20]
  }

  /** Protocol and UDP length, as the pseudo-header of RFC 768 lists them. */
  function LengthWords(f: Frame, vlan: bool): (b: Frame)
    requires WellFormed(f, vlan)
    ensures |b| == 4
  {
    [0, f[L2Len(vlan) + 9]] + Be16(UdpLen(f, vlan))
  }

  /** The UDP header and data. */
  function SegmentBytes(f: Frame, vlan: bool): Frame
    requires UdpWellFormed(f, vlan)
  {
    var at := L2Len(vlan) + HeaderLen(f, vlan);
    f[at..at + UdpLen(f, vlan)]
  }

  /** Pseudo-header of RFC 768 followed by the UDP header and data. */
  function UdpChecksumBytes(f: Frame, vlan: bool): Frame
    requires UdpWellFormed(f, vlan)
  {
    AddressBytes(f, vlan) + LengthWords(f, vlan) + SegmentBytes(f, vlan)
  }

  /** A receiver accepts a checksum when the covered words, checksum included, add up to all ones. */
  predicate HeaderChecksumOk(f: Frame, vlan: bool)
    requires WellFormed(f, vlan)
  {
    OnesSum(Ipv4HeaderBytes(f, vlan)) == 0xFFFF
  }

  predicate UdpChecksumOk(f: Frame, vlan: bool)
    requires UdpWellFormed(f, vlan)
  {
    OnesSum(UdpChecksumBytes(f, vlan)) == 0xFFFF
  }

  /** r is f with the two addresses and the two 16-bit words behind them exchanged, from byte ip on. */
  ghost predicate Mirrored(f: Frame, r: Frame, ip: nat) {
    && |r| == |f| && ip + 28 <= |f|
    && r[ip..ip + 12] == f[ip..ip + 12]
    && r[ip + 12..ip + 16] == f[ip + 16..ip + 20] && r[ip + 16..ip + 20] == f[ip + 12..ip + 16]
    && r[ip + 20..ip + 22] == f[ip + 22..ip + 24] && r[ip + 22..ip + 24] == f[ip + 20..ip + 22]
    && r[ip + 24..] == f[ip + 24..]
  }

  lemma SwapMirrors(f: Frame, vlan: bool)
    requires HasHeaders(f, vlan)
    ensures Mirrored(f, Swapped(f, vlan), L2Len(vlan))
  {
    SwapKeepsRest(f, vlan);
    SwapTradesAddresses(f, vlan);
    SwapTradesWords(f, vlan);
  }

  lemma SwapKeepsRest(f: Frame, vlan: bool)
    requires HasHeaders(f, vlan)
    ensures var ip, r := L2Len(vlan), Swapped(f, vlan);
      r[ip..ip + 12] == f[ip..ip + 12] && r[ip + 24..] == f[ip + 24..]
  {
    var ip, r := L2Len(vlan), Swapped(f, vlan);
    FieldMoved(f, vlan, ip, ip, 12);
    FieldMoved(f, vlan, ip + 24, ip + 24, |f| - (ip + 24));
    assert f[ip + 24..] == f[ip + 24..|f|] && r[ip + 24..] == r[ip + 24..|f|];
  }

  lemma SwapTradesAddresses(f: Frame, vlan: bool)
    requires HasHeaders(f, vlan)
    ensures var ip, r := L2Len(vlan), Swapped(f, vlan);
      r[ip + 12..ip + 16] == f[ip + 16..ip + 20] && r[ip + 16..ip + 20] == f[ip + 12..ip + 16]
  {
    FieldMoved(f, vlan, L2Len(vlan) + 12, L2Len(vlan) + 16, 4);
    FieldMoved(f, vlan, L2Len(vlan) + 16, L2Len(vlan) + 12, 4);
  }

  lemma SwapTradesWords(f: Frame, vlan: bool)
    requires HasHeaders(f, vlan)
    ensures var ip, r := L2Len(vlan), Swapped(f, vlan);
      r[ip + 20..ip + 22] == f[ip + 22..ip + 24] && r[ip + 22..ip + 24] == f[ip + 20..ip + 22]
  {
    FieldMoved(f, vlan, L2Len(vlan) + 20, L2Len(vlan) + 22, 2);
    FieldMoved(f, vlan, L2Len(vlan) + 22, L2Len(vlan) + 20, 2);
  }

  lemma SameAt(f: Frame, r: Frame, a: nat, b: nat, k: nat)
    requires a <= k < b <= |f| && |r| == |f| && r[a..b] == f[a..b]
    ensures r[k] == f[k]
  {
    assert r[a..b][k - a] == r[k] && f[a..b][k - a] == f[k];
  }

  /** All length fields are where they were. */
  lemma MirrorKeepsShape(f: Frame, r: Frame, vlan: bool)
    requires WellFormed(f, vlan) && Mirrored(f, r, L2Len(vlan))
    ensures WellFormed(r, vlan) && HeaderLen(r, vlan) == HeaderLen(f, vlan)
    ensures UdpLen(r, vlan) == UdpLen(f, vlan) && LengthWords(r, vlan) == LengthWords(f, vlan)
    ensures UdpWellFormed(r, vlan) <==> UdpWellFormed(f, vlan)
  {
    var ip := L2Len(vlan);
    SameAt(f, r, ip, ip + 12, ip);
    SameAt(f, r, ip, ip + 12, ip + 2);
    SameAt(f, r, ip, ip + 12, ip + 3);
    SameAt(f, r, ip, ip + 12, ip + 9);
    var at := ip + HeaderLen(f, vlan) + 4;
    SameAt(f, r, ip + 24, |f|, at);
    SameAt(f, r, ip + 24, |f|, at + 1);
  }

  /** From the start of the IP header, or of anything behind the exchanged words, sums of words stay the same. Where the
      header has options (IHL > 5), the server takes the first two option words for ports. */
  lemma MirrorKeepsSums(f: Frame, r: Frame, ip: nat, hl: nat, end: nat)
    requires Mirrored(f, r, ip) && hl % 4 == 0 && IPV4_HDR_LEN <= hl && ip + hl + UDP_HDR_LEN <= end <= |f|
    ensures WordSum(r[ip..ip + hl]) == WordSum(f[ip..ip + hl])
    ensures WordSum(r[ip + hl..end]) == WordSum(f[ip + hl..end])
  {
    TradeSum(f, r, ip + 12, ip + 16, ip + 20);
    TradeSum(f, r, ip + 20, ip + 22, ip + 24);
    FrontSum(f, r, ip);
    if hl == 20 {
      TailSum(f, r, ip + 20, end);
    } else {
      TailSum(f, r, ip + 20, ip + hl);
      HeaderSum(f, r, ip, ip + hl);
      SameTail(f, r, ip + 24, ip + hl, end);
    }
  }

  lemma FrontSum(f: Frame, r: Frame, ip: nat)
    requires |r| == |f| && ip + 20 <= |f| && r[ip..ip + 12] == f[ip..ip + 12]
    requires WordSum(r[ip + 12..ip + 20]) == WordSum(f[ip + 12..ip + 20])
    ensures WordSum(r[ip..ip + 20]) == WordSum(f[ip..ip + 20])
  {
    CutSum(f, ip, ip + 12, ip + 20);
    CutSum(r, ip, ip + 12, ip + 20);
  }

  lemma HeaderSum(f: Frame, r: Frame, ip: nat, end: nat)
    requires |r| == |f| && ip + 20 <= end <= |f|
    requires WordSum(r[ip..ip + 20]) == WordSum(f[ip..ip + 20]) && WordSum(r[ip + 20..end]) == WordSum(f[ip + 20..end])
    ensures WordSum(r[ip..end]) == WordSum(f[ip..end])
  {
    CutSum(f, ip, ip + 20, end);
    CutSum(r, ip, ip + 20, end);
  }

  lemma TailSum(f: Frame, r: Frame, at: nat, end: nat)
    requires |r| == |f| && at + 4 <= end <= |f| && r[at + 4..] == f[at + 4..]
    requires WordSum(r[at..at + 4]) == WordSum(f[at..at + 4])
    ensures WordSum(r[at..end]) == WordSum(f[at..end])
  {
    SameTail(f, r, at + 4, at + 4, end);
    CutSum(f, at, at + 4, end);
    CutSum(r, at, at + 4, end);
  }

  lemma SameTail(f: Frame, r: Frame, from: nat, at: nat, end: nat)
    requires |r| == |f| && from <= at <= end <= |f| && r[from..] == f[from..]
    ensures r[at..end] == f[at..end]
  {
    assert r[from..][at - from..end - from] == r[at..end] && f[from..][at - from..end - from] == f[at..end];
  }

  lemma UdpSumParts(f: Frame, vlan: bool)
    requires UdpWellFormed(f, vlan)
    ensures WordSum(UdpChecksumBytes(f, vlan))
         == WordSum(AddressBytes(f, vlan)) + WordSum(LengthWords(f, vlan)) + WordSum(SegmentBytes(f, vlan))
  {
    ThreeParts(AddressBytes(f, vlan), LengthWords(f, vlan), SegmentBytes(f, vlan));
  }

  lemma HeaderOfMirror(f: Frame, r: Frame, vlan: bool)
    requires WellFormed(f, vlan) && WellFormed(r, vlan) && HeaderLen(r, vlan) == HeaderLen(f, vlan)
    requires Mirrored(f, r, L2Len(vlan))
    ensures WordSum(Ipv4HeaderBytes(r, vlan)) == WordSum(Ipv4HeaderBytes(f, vlan))
  {
    var ip, hl := L2Len(vlan), HeaderLen(f, vlan);
    MirrorKeepsSums(f, r, ip, hl, ip + hl + UDP_HDR_LEN);
  }

  lemma UdpOfMirror(f: Frame, r: Frame, vlan: bool)
    requires UdpWellFormed(f, vlan) && UdpWellFormed(r, vlan) && HeaderLen(r, vlan) == HeaderLen(f, vlan)
    requires UdpLen(r, vlan) == UdpLen(f, vlan) && LengthWords(r, vlan) == LengthWords(f, vlan)
    requires Mirrored(f, r, L2Len(vlan))
    ensures WordSum(UdpChecksumBytes(r, vlan)) == WordSum(UdpChecksumBytes(f, vlan))
  {
    AddressOfMirror(f, r, vlan);
    SegmentOfMirror(f, r, vlan);
    UdpSumParts(f, vlan);
    UdpSumParts(r, vlan);
  }

  lemma AddressOfMirror(f: Frame, r: Frame, vlan: bool)
    requires HasHeaders(f, vlan) && HasHeaders(r, vlan) && Mirrored(f, r, L2Len(vlan))
    ensures WordSum(AddressBytes(r, vlan)) == WordSum(AddressBytes(f, vlan))
  {
    var ip := L2Len(vlan);
    TradeSum(f, r, ip + 12, ip + 16, ip + 20);
  }

  lemma SegmentOfMirror(f: Frame, r: Frame, vlan: bool)
    requires UdpWellFormed(f, vlan) && UdpWellFormed(r, vlan) && HeaderLen(r, vlan) == HeaderLen(f, vlan)
    requires UdpLen(r, vlan) == UdpLen(f, vlan) && Mirrored(f, r, L2Len(vlan))
    ensures WordSum(SegmentBytes(r, vlan)) == WordSum(SegmentBytes(f, vlan))
  {
    var ip, hl := L2Len(vlan), HeaderLen(f, vlan);
    MirrorKeepsSums(f, r, ip, hl, ip + hl + UdpLen(f, vlan));
  }

  /** The server recomputes no checksum, and need not: for every well-formed frame, echoing leaves the IPv4
      header checksum and the UDP checksum exactly as valid as they were. */
  lemma EchoKeepsChecksums(f: Frame, vlan: bool)
    requires WellFormed(f, vlan)
    ensures WellFormed(Swapped(f, vlan), vlan)
    ensures HeaderChecksumOk(Swapped(f, vlan), vlan) <==> HeaderChecksumOk(f, vlan)
    ensures UdpWellFormed(Swapped(f, vlan), vlan) <==> UdpWellFormed(f, vlan)
    ensures UdpWellFormed(f, vlan) ==> (UdpChecksumOk(Swapped(f, vlan), vlan) <==> UdpChecksumOk(f, vlan))
  {
    SwapMirrors(f, vlan);
    ChecksumsOfMirror(f, Swapped(f, vlan), vlan);
  }

  lemma ChecksumsOfMirror(f: Frame, r: Frame, vlan: bool)
    requires WellFormed(f, vlan) && Mirrored(f, r, L2Len(vlan))
    ensures WellFormed(r, vlan) && (UdpWellFormed(r, vlan) <==> UdpWellFormed(f, vlan))
    ensures HeaderChecksumOk(r, vlan) <==> HeaderChecksumOk(f, vlan)
    ensures UdpWellFormed(f, vlan) ==> (UdpChecksumOk(r, vlan) <==> UdpChecksumOk(f, vlan))
  {
    MirrorKeepsShape(f, r, vlan);
    HeaderOfMirror(f, r, vlan);
    OnesSumFolds(Ipv4HeaderBytes(f, vlan));
    OnesSumFolds(Ipv4HeaderBytes(r, vlan));
    if UdpWellFormed(f, vlan) {
      UdpOfMirror(f, r, vlan);
      OnesSumFolds(UdpChecksumBytes(f, vlan));
      OnesSumFolds(UdpChecksumBytes(r, vlan));
    }
  }
}
