/** Bytes of an Ethernet frame: big-endian header fields, the header layouts the program writes, and
    the readers it uses. */
module Wire {
  type byte = x: int | 0 <= x < 256
  type Frame = seq<byte>
  type Mac = m: seq<byte> | |m| == 6 witness [0, 0, 0, 0, 0, 0]

  const ETHER_TYPE_IPV4 := 0x0800
  const ETHER_TYPE_ARP := 0x0806
  const ETHER_TYPE_VLAN := 0x8100
  const BROADCAST: Mac := [255, 255, 255, 255, 255, 255]
  const ETHER_HDR_LEN := 14
  const VLAN_HDR_LEN := 4
  const IPV4_HDR_LEN := 20
  const UDP_HDR_LEN := 8
  const U16 := 0x1_0000
  const U32 := 0x1_0000_0000
  const U64 := 0x1_0000_0000_0000_0000

  // ----- fields; a value that does not fit is truncated, as the C conversions do

  function Be16(v: nat): (b: Frame)
    ensures |b| == 2 && b[0] as int * 256 + b[1] == v % U16
  {
    [v % U16 / 256, v % U16 % 256]
  }

  function Be32(v: nat): (b: Frame)
    ensures |b| == 4
  {
    Be16(v / U16) + Be16(v)
  }

  function Get16(f: Frame, at: nat): (v: nat)
    requires at + 2 <= |f|
    ensures v < U16
  {
    f[at] as int * 256 + f[at + 1]
  }

  function Get32(f: Frame, at: nat): (v: nat)
    requires at + 4 <= |f|
    ensures v < U32
  {
    Get16(f, at) * U16 + Get16(f, at + 2)
  }

  lemma Get16At(f: Frame, at: nat, v: nat)
    requires at + 2 <= |f| && f[at..at + 2] == Be16(v) && v < U16
    ensures Get16(f, at) == v
  {
    assert f[at..at + 2][0] == f[at] && f[at..at + 2][1] == f[at + 1];
  }

  lemma Get32At(f: Frame, at: nat, v: nat)
    requires at + 4 <= |f| && f[at..at + 4] == Be32(v) && v < U32
    ensures Get32(f, at) == v
  {
    assert f[at..at + 2] == f[at..at + 4][..2] == Be16(v / U16);
    assert f[at + 2..at + 4] == f[at..at + 4][2..] == Be16(v);
    var hi := v / U16;
    Get16At(f, at, hi);
    assert Be16(v) == Be16(v % U16);
    Get16At(f, at + 2, v % U16);
  }

  /** Native 64-bit stores and loads (little-endian host). */
  function Le64(v: nat): (b: Frame)
    ensures |b| == 8
  {
    LeBytes(v, 8)
  }

  function LeBytes(v: nat, n: nat): (b: Frame)
    ensures |b| == n
  {
    if n == 0 then [] else [v % 256] + LeBytes(v / 256, n - 1)
  }

  function LeValue(b: Frame): nat {
    if b == [] then 0 else b[0] + 256 * LeValue(b[1..])
  }

  function Pow256(n: nat): (p: nat)
    ensures p > 0
  {
    if n == 0 then 1 else 256 * Pow256(n - 1)
  }

  /** Reading back what was stored gives the value, when it fits in the n bytes. */
  lemma {:induction false} LeRoundTrip(v: nat, n: nat)
    requires v < Pow256(n)
    ensures LeValue(LeBytes(v, n)) == v
  {
    if n > 0 {
      LeRoundTrip(v / 256, n - 1);
      assert LeBytes(v, n)[1..] == LeBytes(v / 256, n - 1);
    }
  }

  lemma Le64RoundTrip(v: nat)
    requires v < U64
    ensures LeValue(Le64(v)) == v
  {
    assert Pow256(4) == U32;
    assert Pow256(8) == 256 * (256 * (256 * (256 * Pow256(4))));
    LeRoundTrip(v, 8);
  }

  // ----- headers

  function EthernetHeader(src: Mac, dst: Mac, etherType: nat): (b: Frame)
    ensures |b| == ETHER_HDR_LEN
  {
    dst + src + Be16(etherType)
  }

  function VlanHeader(tci: nat): (b: Frame)
    ensures |b| == VLAN_HDR_LEN
  {
    Be16(tci) + Be16(ETHER_TYPE_IPV4)
  }

  function Ipv4Header(src: nat, dst: nat, totalLength: nat, proto: byte, cksum: nat): (b: Frame)
    ensures |b| == IPV4_HDR_LEN
  {
    [0x45, 0] + Be16(totalLength) + [0, 0, 0, 0, 64, proto] + Be16(cksum) + Be32(src) + Be32(dst)
  }

  function UdpHeader(srcPort: nat, dstPort: nat, length: nat, cksum: nat): (b: Frame)
    ensures |b| == UDP_HDR_LEN
  {
    Be16(srcPort) + Be16(dstPort) + Be16(length) + Be16(cksum)
  }

  /** A packet buffer (rte_mbuf): `data` is what has been appended so far. */
  class Mbuf {
    var data: Frame

    constructor ()
      ensures data == []
    {
      data := [];
    }

    /** rte_pktmbuf_append: the new bytes hold whatever the pool buffer held before. */
    method Append(n: nat) returns (at: nat)
      modifies this
      ensures at == |old(data)| && |data| == at + n && data[..at] == old(data)
    {
      at := |data|;
      ghost var zeros: Frame := seq(n, _ => 0);
      assert |zeros| == n;
      var stale: Frame :| |stale| == n;
      data := data + stale;
    }

    /** Overwrite the bytes at `at`. */
    method Put(at: nat, bytes: Frame)
      requires at + |bytes| <= |data|
      modifies this
      ensures data == old(data)[..at] + bytes + old(data)[at + |bytes|..]
    {
      data := data[..at] + bytes + data[at + |bytes|..];
    }

    /** Overwrite the bytes at `at`, where everything in front of them is already in place. */
    method PutNext(at: nat, bytes: Frame)
      requires at + |bytes| <= |data|
      modifies this
      ensures |data| == |old(data)|
      ensures data[..at + |bytes|] == old(data)[..at] + bytes
    {
      Put(at, bytes);
    }
  }

  // Mentioned where a predicate on frames is to be unfolded; elsewhere its frames stay folded.
  ghost predicate Look(f: Frame) { true }

  function Flat<T>(ss: seq<seq<T>>): seq<T> {
    if ss == [] then [] else Flat(ss[..|ss| - 1]) + ss[|ss| - 1]
  }

  lemma JoinThree(a: Frame, b: Frame, c: Frame)
    ensures a + b + c == a + (b + c)
  {
  }

  lemma JoinFour(a: Frame, b: Frame, c: Frame, d: Frame)
    ensures a + b + c + d == a + (b + c + d)
  {
  }

  lemma JoinFive(a: Frame, b: Frame, c: Frame, d: Frame, e: Frame)
    ensures a + b + c + d + e == a + (b + c + d + e)
  {
  }
}
