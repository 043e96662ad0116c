/** ARP: the packets (utils/arp.c:12-41), the responder (utils/exp.c:38-71) and the resolve loop
    (utils/arp.c:81-146). */
module Arp {
  import opened Wire
  import opened Echo
  import opened Prepare

  const OP_REQUEST := 1
  const OP_REPLY := 2

  // ----- packets

  function ArpHeader(op: nat, senderMac: Mac, senderIp: nat, targetMac: Mac, targetIp: nat): (b: Frame)
    ensures |b| == 28
  {
    Be16(1) + Be16(ETHER_TYPE_IPV4) + [6, 4] + Be16(op) + senderMac + Be32(senderIp) + targetMac + Be32(targetIp)
  }

  /** An ARP frame is addressed to the hardware address it names as target. */
  function ArpFrame(op: nat, srcMac: Mac, srcIp: nat, dstMac: Mac, dstIp: nat): (b: Frame)
    ensures |b| == 42
  {
    EthernetHeader(srcMac, dstMac, ETHER_TYPE_ARP) + ArpHeader(op, srcMac, srcIp, dstMac, dstIp)
  }

  /** _prepare_arp_pkt */
  method PrepareArp(buf: Mbuf, op: nat, srcMac: Mac, srcIp: nat, dstMac: Mac, dstIp: nat)
    requires buf.data == []
    modifies buf
    ensures buf.data == ArpFrame(op, srcMac, srcIp, dstMac, dstIp)
  {
    AppendEthernet(buf, srcMac, dstMac, ETHER_TYPE_ARP);
    ghost var eth := buf.data;
    var at := buf.Append(28);
    var kinds: Frame := Be16(1) + Be16(ETHER_TYPE_IPV4) + [6, 4] + Be16(op);
    buf.PutNext(at, kinds);
    buf.PutNext(at + 8, srcMac);
    buf.PutNext(at + 14, Be32(srcIp));
    buf.PutNext(at + 18, dstMac);
    buf.PutNext(at + 24, Be32(dstIp));
    assert buf.data[..at + 28] == buf.data;
    JoinFive(kinds, srcMac, Be32(srcIp), dstMac, Be32(dstIp));
    assert buf.data == eth + (kinds + srcMac + Be32(srcIp) + dstMac + Be32(dstIp));
  }

  predicate IsArp(f: Frame) {
    |f| >= 42 && EtherType(f) == ETHER_TYPE_ARP
  }

  function Op(f: Frame): nat requires |f| >= 42 { Get16(f, 20) }
  function SenderMac(f: Frame): Mac requires |f| >= 42 { f[22..28] }
  function SenderIp(f: Frame): nat requires |f| >= 42 { Get32(f, 28) }
  function TargetMac(f: Frame): Mac requires |f| >= 42 { f[32..38] }
  function TargetIp(f: Frame): nat requires |f| >= 42 { Get32(f, 38) }

  /** A reader finds in an ARP frame what was put there. */
  lemma ArpFields(op: nat, srcMac: Mac, srcIp: nat, dstMac: Mac, dstIp: nat)
    requires op < U16 && srcIp < U32 && dstIp < U32
    ensures var f := ArpFrame(op, srcMac, srcIp, dstMac, dstIp);
      && IsArp(f) && DstMac(f) == dstMac && SrcMac(f) == srcMac && Op(f) == op
      && Get16(f, 14) == 1 && Get16(f, 16) == ETHER_TYPE_IPV4 && f[18] == 6 && f[19] == 4
      && SenderMac(f) == srcMac && SenderIp(f) == srcIp && TargetMac(f) == dstMac && TargetIp(f) == dstIp
  {
    var f := ArpFrame(op, srcMac, srcIp, dstMac, dstIp);
    assert f[12..14] == Be16(ETHER_TYPE_ARP) && f[20..22] == Be16(op);
    assert f[28..32] == Be32(srcIp) && f[38..42] == Be32(dstIp);
    assert f[14..16] == Be16(1) && f[16..18] == Be16(ETHER_TYPE_IPV4);
    Get16At(f, 12, ETHER_TYPE_ARP);
    Get16At(f, 14, 1);
    Get16At(f, 16, ETHER_TYPE_IPV4);
    Get16At(f, 20, op);
    Get32At(f, 28, srcIp);
    Get32At(f, 38, dstIp);
  }

  // ----- the responder

  /** What check_eth_hdr sends when it sees `f`, if anything. */
  function ReplyTo(f: Frame, myMac: Mac, myIp: nat): seq<Frame>
    requires |f| >= 42
  {
    if (DstMac(f) == myMac || DstMac(f) == BROADCAST) && IsArp(f) && Op(f) == OP_REQUEST && TargetIp(f) == myIp
    then [ArpFrame(OP_REPLY, myMac, myIp, SenderMac(f), SenderIp(f))]
    else []
  }

  /** check_eth_hdr: is the frame for this host's applications, and the answer to an ARP request for its address. */
  method CheckEthHdr(buf: Mbuf, myMac: Mac, myIp: nat) returns (valid: bool, sent: Mbuf?)
    requires |buf.data| >= 42
    ensures valid == PassesEthernet(buf.data, myMac)
    ensures sent != null ==> fresh(sent)
    ensures ReplyTo(buf.data, myMac, myIp) == if sent == null then [] else [sent.data]
  {
    var f := buf.data;
    if DstMac(f) != myMac && DstMac(f) != BROADCAST {
      return false, null;
    }
    if EtherType(f) == ETHER_TYPE_ARP {
      if Op(f) == OP_REQUEST && TargetIp(f) == myIp {
        var reply := new Mbuf();
        PrepareArp(reply, OP_REPLY, myMac, myIp, SenderMac(f), SenderIp(f));
        return false, reply;
      }
      return false, null;
    }
    return true, null;
  }

  // ----- the resolver

  datatype Resolver = Resolver(mac: Mac, ip: nat)

  function Request(r: Resolver, dstIp: nat): Frame {
    ArpFrame(OP_REQUEST, r.mac, r.ip, BROADCAST, dstIp)
  }

  /** The test of get_dst_mac. It looks at the target of the reply, never at its sender address. */
  predicate AcceptsReply(r: Resolver, f: Frame)
    requires |f| >= 42
  {
    && DstMac(f) == r.mac && EtherType(f) == ETHER_TYPE_ARP
    && Op(f) == OP_REPLY && TargetMac(f) == r.mac && TargetIp(f) == r.ip
  }

  /** Position of the first accepted frame, or |frames|. */
  function FirstReply(r: Resolver, frames: seq<Frame>): (k: nat)
    requires forall i | 0 <= i < |frames| :: |frames[i]| >= 42
    ensures k <= |frames| && (k < |frames| ==> AcceptsReply(r, frames[k]))
    ensures forall i | 0 <= i < k :: !AcceptsReply(r, frames[i])
  {
    if frames == [] || AcceptsReply(r, frames[0]) then 0 else 1 + FirstReply(r, frames[1..])
  }

  /** Frame k is the first accepted one of a burst, and names `mac` as its sender. */
  ghost predicate Decides(r: Resolver, frames: seq<Frame>, k: nat, mac: Mac)
    requires forall i | 0 <= i < |frames| :: |frames[i]| >= 42
  {
    && k < |frames| && AcceptsReply(r, frames[k]) && mac == SenderMac(frames[k])
    && forall j | 0 <= j < k :: !AcceptsReply(r, frames[j])
  }

  ghost predicate Answered(r: Resolver, frames: seq<Frame>, mac: Mac) {
    (forall i | 0 <= i < |frames| :: |frames[i]| >= 42) && exists k :: Decides(r, frames, k, mac)
  }

  ghost predicate Silent(r: Resolver, frames: seq<Frame>) {
    forall i | 0 <= i < |frames| :: |frames[i]| >= 42 && !AcceptsReply(r, frames[i])
  }

  /** The loop over one received burst: every buffer is freed once, in order, and the first accepted reply
      decides. */
  method ScanBurst(r: Resolver, bufs: seq<Mbuf>, ghost frames: seq<Frame>)
    returns (found: bool, dstMac: Mac, freed: seq<Mbuf>)
    requires Holds(bufs, frames)
    ensures freed == bufs
    ensures if found then Answered(r, frames, dstMac) else Silent(r, frames)
  {
    found, dstMac, freed := false, BROADCAST, [];
    for i := 0 to |bufs|
      invariant freed == bufs[..i]
      invariant !found ==> forall j | 0 <= j < i :: !AcceptsReply(r, frames[j])
      invariant found ==> exists k :: Decides(r, frames, k, dstMac)
    {
      var f := bufs[i].data;
      if !found && AcceptsReply(r, f) {
        dstMac := SenderMac(f);
        found := true;
        assert Decides(r, frames, i, dstMac);
      }
      freed := freed + [bufs[i]];
    }
  }

  ghost predicate Holds(bufs: seq<Mbuf>, frames: seq<Frame>)
    reads set b | b in bufs
  {
    |frames| == |bufs| && forall i | 0 <= i < |bufs| :: bufs[i].data == frames[i] && |frames[i]| >= 42
  }

  /** One round of the resolve loop: queues are polled in turn until one burst holds the answer. Exactly the
      buffers of the polled queues are freed, in order, and queues after the answer are left alone. */
  method PollQueues(r: Resolver, queues: seq<seq<Mbuf>>, ghost frames: seq<seq<Frame>>)
    returns (found: bool, dstMac: Mac, polled: nat, freed: seq<Mbuf>)
    requires |frames| == |queues| && forall q | 0 <= q < |queues| :: Holds(queues[q], frames[q])
    ensures polled <= |queues| && freed == Flat(queues[..polled])
    ensures if found then polled > 0 && Answered(r, frames[polled - 1], dstMac) else polled == |queues|
    ensures forall q | 0 <= q < (if found then polled - 1 else polled) :: Silent(r, frames[q])
  {
    found, dstMac, polled, freed := false, BROADCAST, 0, [];
    while !found && polled < |queues|
      invariant polled <= |queues| && freed == Flat(queues[..polled])
      invariant found ==> polled > 0 && Answered(r, frames[polled - 1], dstMac)
      invariant forall q | 0 <= q < (if found then polled - 1 else polled) :: Silent(r, frames[q])
    {
      var bufs;
      found, dstMac, bufs := ScanBurst(r, queues[polled], frames[polled]);
      assert queues[..polled + 1][..polled] == queues[..polled];
      polled, freed := polled + 1, freed + bufs;
    }
  }

  /** Every burst of a round, as bytes. */
  ghost predicate RoundHolds(queues: seq<seq<Mbuf>>, frames: seq<seq<Frame>>)
    reads set q, b | 0 <= q < |queues| && b in queues[q] :: b
  {
    |frames| == |queues| && forall q | 0 <= q < |queues| :: Holds(queues[q], frames[q])
  }

  /** send_arp with a request, in a buffer of its own. */
  method SendRequest(r: Resolver, dstIp: nat) returns (f: Frame)
    ensures f == Request(r, dstIp)
  {
    var buf := new Mbuf();
    PrepareArp(buf, OP_REQUEST, r.mac, r.ip, BROADCAST, dstIp);
    f := buf.data;
  }

  /** The first polled[t] queues of each round t, one after the other. */
  function Polled<T>(rounds: seq<seq<T>>, polled: seq<nat>): (r: seq<T>)
    requires |polled| <= |rounds| && forall t | 0 <= t < |polled| :: polled[t] <= |rounds[t]|
  {
    if polled == [] then []
    else
      var t := |polled| - 1;
      Polled(rounds, polled[..t]) + rounds[t][..polled[t]]
  }

  /** The bursts read so far: none is accepted, but for the last one if the answer has been found. */
  ghost predicate Searched(r: Resolver, bursts: seq<seq<Frame>>, found: bool, mac: Mac) {
    && (found ==> bursts != [] && Answered(r, bursts[|bursts| - 1], mac))
    && forall q | 0 <= q < (if found then |bursts| - 1 else |bursts|) :: Silent(r, bursts[q])
  }

  /** One round: the request, then the queues. */
  method Round(r: Resolver, dstIp: nat, queues: seq<seq<Mbuf>>, ghost frames: seq<seq<Frame>>)
    returns (found: bool, dstMac: Mac, request: Frame, polled: nat, freed: seq<Mbuf>)
    requires RoundHolds(queues, frames)
    ensures request == Request(r, dstIp) && polled <= |queues| && freed == Flat(queues[..polled])
    ensures Searched(r, frames[..polled], found, dstMac) && (!found ==> polled == |queues|)
  {
    request := SendRequest(r, dstIp);
    found, dstMac, polled, freed := PollQueues(r, queues, frames);
    assert forall q | 0 <= q < polled :: frames[..polled][q] == frames[q];
  }

  /** What get_dst_mac has done after some rounds: a request for each, the answer if there was one, and exactly the
      buffers read freed, in order. */
  ghost predicate Resolved(r: Resolver, dstIp: nat, rounds: seq<seq<seq<Mbuf>>>, frames: seq<seq<seq<Frame>>>,
                           found: bool, mac: Mac, sent: seq<Frame>, polled: seq<nat>, freed: seq<Mbuf>) {
    && |sent| == |polled| && (forall i | 0 <= i < |sent| :: sent[i] == Request(r, dstIp))
    && PolledFits(rounds, frames, polled)
    && freed == Flat(Polled(rounds, polled)) && Searched(r, Polled(frames, polled), found, mac)
    && (!found ==> forall t | 0 <= t < |polled| :: polled[t] == |rounds[t]|)
  }

  ghost predicate RoundsHold(rounds: seq<seq<seq<Mbuf>>>, frames: seq<seq<seq<Frame>>>)
    reads set t, q, b | 0 <= t < |rounds| && 0 <= q < |rounds[t]| && b in rounds[t][q] :: b
  {
    |frames| == |rounds| && forall t | 0 <= t < |rounds| :: RoundHolds(rounds[t], frames[t])
  }

  /** get_dst_mac, for as many rounds as are given: a request, then a poll of the queues in turn, until a burst holds
      the answer. */
  method Resolve(r: Resolver, dstIp: nat, rounds: seq<seq<seq<Mbuf>>>, ghost frames: seq<seq<seq<Frame>>>)
    returns (found: bool, dstMac: Mac, sent: seq<Frame>, polled: seq<nat>, freed: seq<Mbuf>)
    requires RoundsHold(rounds, frames)
    ensures Resolved(r, dstIp, rounds, frames, found, dstMac, sent, polled, freed)
    ensures !found ==> |polled| == |rounds|
  {
    found, dstMac, sent, polled, freed := false, BROADCAST, [], [], [];
    while !found && |polled| < |rounds|
      invariant |polled| <= |rounds| && RoundsHold(rounds, frames)
      invariant Resolved(r, dstIp, rounds, frames, found, dstMac, sent, polled, freed)
      decreases !found, |rounds| - |polled|
    {
      var request, n, bufs;
      ghost var t := |polled|;
      found, dstMac, request, n, bufs := Round(r, dstIp, rounds[|polled|], frames[t]);
      OneRoundMore(r, dstIp, rounds, frames, sent, polled, freed, request, n, bufs, found, dstMac);
      sent, polled, freed := sent + [request], polled + [n], freed + bufs;
    }
  }

  ghost predicate PolledFits(rounds: seq<seq<seq<Mbuf>>>, frames: seq<seq<seq<Frame>>>, polled: seq<nat>) {
    |polled| <= |rounds| == |frames| && forall t | 0 <= t < |polled| :: polled[t] <= |rounds[t]| == |frames[t]|
  }

  lemma OneRoundMore(r: Resolver, dstIp: nat, rounds: seq<seq<seq<Mbuf>>>, frames: seq<seq<seq<Frame>>>,
                     sent: seq<Frame>, polled: seq<nat>, freed: seq<Mbuf>, request: Frame, n: nat, bufs: seq<Mbuf>,
                     found: bool, mac: Mac)
    requires Resolved(r, dstIp, rounds, frames, false, mac, sent, polled, freed) && |polled| < |rounds|
    requires request == Request(r, dstIp) && n <= |rounds[|polled|]| == |frames[|polled|]|
    requires Searched(r, frames[|polled|][..n], found, mac) && bufs == Flat(rounds[|polled|][..n])
    requires !found ==> n == |rounds[|polled|]|
    ensures Resolved(r, dstIp, rounds, frames, found, mac, sent + [request], polled + [n], freed + bufs)
  {
    assert (polled + [n])[..|polled|] == polled;
    FlatConcat(Polled(rounds, polled), rounds[|polled|][..n]);
    SearchedMore(r, Polled(frames, polled), frames[|polled|][..n], found, mac);
  }

  lemma SearchedMore(r: Resolver, before: seq<seq<Frame>>, last: seq<seq<Frame>>, found: bool, mac: Mac)
    requires Searched(r, before, false, mac) && Searched(r, last, found, mac)
    ensures Searched(r, before + last, found, mac)
  {
    var all := before + last;
    forall q | 0 <= q < (if found then |all| - 1 else |all|) ensures Silent(r, all[q]) {
      if q < |before| {
        assert all[q] == before[q];
      } else {
        assert all[q] == last[q - |before|];
      }
    }
  }

  lemma {:induction false} FlatConcat<T>(a: seq<seq<T>>, b: seq<seq<T>>)
    ensures Flat(a + b) == Flat(a) + Flat(b)
    decreases |b|
  {
    if b == [] {
      assert a + b == a;
    } else {
      var n := |b| - 1;
      assert (a + b)[..|a + b| - 1] == a + b[..n];
      FlatConcat(a, b[..n]);
    }
  }

  // ----- resolution as a protocol

  /** Hosts on the link, by address: no two hosts share an IP. */
  type Hosts = map<nat, Mac>

  /** Frames in flight, the address being resolved, and the finished resolutions (`_server_eth`). */
  datatype State = State(net: seq<Frame>, busy: bool, target: nat, results: seq<(nat, Mac)>)

  datatype Action =
    | Begin(ip: nat)                 // get_dst_mac is called
    | Ask                            // it sends a request
    | Answer(i: nat, host: nat)      // the host with this IP sees frame i; broadcasts reach every host
    | Lose(i: nat)
    | Poll(i: nat, n: nat)           // the resolver reads n frames, in whatever order the network brings them

  const Start := State([], false, 0, [])

  ghost predicate Enabled(hosts: Hosts, s: State, a: Action) {
    && (forall i | 0 <= i < |s.net| :: |s.net[i]| >= 42)
    && match a
       case Begin(_) => !s.busy
       case Ask => s.busy
       case Answer(i, host) => i < |s.net| && host in hosts
       case Lose(i) => i < |s.net|
       case Poll(i, n) => s.busy && i + n <= |s.net|
  }

  ghost function Next(r: Resolver, hosts: Hosts, s: State, a: Action): State
    requires Enabled(hosts, s, a)
  {
    match a
    case Begin(ip) => s.(busy := true, target := ip)
    case Ask => s.(net := s.net + [Request(r, s.target)])
    case Answer(i, host) => s.(net := s.net + ReplyTo(s.net[i], hosts[host], host))
    case Lose(i) => s.(net := s.net[..i] + s.net[i + 1..])
    case Poll(i, n) =>
      var burst := s.net[i..i + n];
      var k, rest := FirstReply(r, burst), s.(net := s.net[..i] + s.net[i + n..]);
      if k < |burst| then rest.(busy := false, results := s.results + [(s.target, SenderMac(burst[k]))]) else rest
  }

  ghost predicate Run(r: Resolver, hosts: Hosts, states: seq<State>, actions: seq<Action>) {
    && |states| == |actions| + 1 && states[0] == Start
    && forall i | 0 <= i < |actions| ::
         Enabled(hosts, states[i], actions[i]) && states[i + 1] == Next(r, hosts, states[i], actions[i])
  }

  /** Only addresses in T are ever resolved. */
  ghost predicate Resolving(T: set<nat>, actions: seq<Action>) {
    forall i | 0 <= i < |actions| && actions[i].Begin? :: actions[i].ip in T
  }

  ghost predicate Sane(r: Resolver, hosts: Hosts, T: set<nat>) {
    r.mac != BROADCAST && r.ip < U32 && (forall ip <- T :: ip < U32) && (forall ip <- hosts :: ip < U32)
  }

  function ReplyFrom(r: Resolver, hosts: Hosts, ip: nat): Frame
    requires ip in hosts
  {
    ArpFrame(OP_REPLY, hosts[ip], ip, r.mac, r.ip)
  }

  /** A request for an address in T, or the reply of that address's owner to this resolver. */
  ghost predicate Legitimate(r: Resolver, hosts: Hosts, T: set<nat>, f: Frame) {
    forall g: Frame {:trigger Look(g)} :: Look(g) && g == f ==>
      exists ip :: ip in T && (g == Request(r, ip) || (ip in hosts && g == ReplyFrom(r, hosts, ip)))
  }

  /** The responder answers exactly the requests for its own address, with a reply the resolver accepts. */
  lemma AnswerToLegitimate(r: Resolver, hosts: Hosts, T: set<nat>, f: Frame, host: nat)
    requires Sane(r, hosts, T) && Legitimate(r, hosts, T, f) && host in hosts && |f| >= 42
    ensures ReplyTo(f, hosts[host], host) == [] || ReplyTo(f, hosts[host], host) == [ReplyFrom(r, hosts, host)]
    ensures ReplyTo(f, hosts[host], host) != [] ==> host in T
  {
    assert Look(f);
    var ip :| ip in T && (f == Request(r, ip) || (ip in hosts && f == ReplyFrom(r, hosts, ip)));
    if f == Request(r, ip) {
      ArpFields(OP_REQUEST, r.mac, r.ip, BROADCAST, ip);
    } else {
      ArpFields(OP_REPLY, hosts[ip], ip, r.mac, r.ip);
    }
  }

  lemma RequestIsAnswered(r: Resolver, hosts: Hosts, ip: nat)
    requires Sane(r, hosts, {ip}) && ip in hosts
    ensures ReplyTo(Request(r, ip), hosts[ip], ip) == [ReplyFrom(r, hosts, ip)]
    ensures AcceptsReply(r, ReplyFrom(r, hosts, ip)) && SenderMac(ReplyFrom(r, hosts, ip)) == hosts[ip]
    ensures !AcceptsReply(r, Request(r, ip))
  {
    ArpFields(OP_REQUEST, r.mac, r.ip, BROADCAST, ip);
    ArpFields(OP_REPLY, hosts[ip], ip, r.mac, r.ip);
  }

  /** A legitimate frame that passes the test comes from the owner of the address it names as sender. */
  lemma AcceptedIsReply(r: Resolver, hosts: Hosts, T: set<nat>, f: Frame)
    requires Sane(r, hosts, T) && Legitimate(r, hosts, T, f) && |f| >= 42 && AcceptsReply(r, f)
    ensures SenderIp(f) in T && SenderIp(f) in hosts && SenderMac(f) == hosts[SenderIp(f)]
  {
    assert Look(f);
    var ip :| ip in T && (f == Request(r, ip) || (ip in hosts && f == ReplyFrom(r, hosts, ip)));
    if f == Request(r, ip) {
      ArpFields(OP_REQUEST, r.mac, r.ip, BROADCAST, ip);
    } else {
      ArpFields(OP_REPLY, hosts[ip], ip, r.mac, r.ip);
    }
  }

  /** Each result names an address in T and the hardware address of some address in T. */
  ghost predicate Inv(r: Resolver, hosts: Hosts, T: set<nat>, s: State) {
    && (forall i | 0 <= i < |s.net| :: |s.net[i]| >= 42 && Legitimate(r, hosts, T, s.net[i]))
    && (s.busy ==> s.target in T)
    && AllOwned(hosts, T, s.results)
  }

  ghost predicate OwnedBy(hosts: Hosts, T: set<nat>, mac: Mac) {
    exists ip :: ip in T && ip in hosts && hosts[ip] == mac
  }

  lemma AcceptedOwner(r: Resolver, hosts: Hosts, T: set<nat>, f: Frame)
    requires Sane(r, hosts, T) && Legitimate(r, hosts, T, f) && |f| >= 42 && AcceptsReply(r, f)
    ensures OwnedBy(hosts, T, SenderMac(f))
  {
    AcceptedIsReply(r, hosts, T, f);
  }

  lemma StepInv(r: Resolver, hosts: Hosts, T: set<nat>, s: State, a: Action)
    requires Sane(r, hosts, T) && Enabled(hosts, s, a) && Inv(r, hosts, T, s)
    requires a.Begin? ==> a.ip in T
    ensures Inv(r, hosts, T, Next(r, hosts, s, a))
  {
    match a
    case Answer(i, host) => AnswerToLegitimate(r, hosts, T, s.net[i], host);
    case Poll(i, n) => PollInv(r, hosts, T, s, i, n);
    case _ =>
  }

  lemma PollInv(r: Resolver, hosts: Hosts, T: set<nat>, s: State, i: nat, n: nat)
    requires Sane(r, hosts, T) && Enabled(hosts, s, Poll(i, n)) && Inv(r, hosts, T, s)
    ensures Inv(r, hosts, T, Next(r, hosts, s, Poll(i, n)))
  {
    RestInv(r, hosts, T, s.net, i, n);
    if FirstReply(r, s.net[i..i + n]) < n {
      AnswerInv(r, hosts, T, s, i, n);
    }
  }

  lemma AnswerInv(r: Resolver, hosts: Hosts, T: set<nat>, s: State, i: nat, n: nat)
    requires Sane(r, hosts, T) && Enabled(hosts, s, Poll(i, n)) && Inv(r, hosts, T, s)
    requires FirstReply(r, s.net[i..i + n]) < n
    ensures AllOwned(hosts, T, s.results + [(s.target, SenderMac(s.net[i..i + n][FirstReply(r, s.net[i..i + n])]))])
  {
    var burst := s.net[i..i + n];
    var k := FirstReply(r, burst);
    assert burst[k] == s.net[i + k];
    AcceptedOwner(r, hosts, T, burst[k]);
    ResultsGrow(hosts, T, s.results, s.target, SenderMac(burst[k]));
  }

  ghost predicate AllOwned(hosts: Hosts, T: set<nat>, results: seq<(nat, Mac)>) {
    forall i | 0 <= i < |results| :: results[i].0 in T && OwnedBy(hosts, T, results[i].1)
  }

  lemma ResultsGrow(hosts: Hosts, T: set<nat>, results: seq<(nat, Mac)>, ip: nat, mac: Mac)
    requires AllOwned(hosts, T, results) && ip in T && OwnedBy(hosts, T, mac)
    ensures AllOwned(hosts, T, results + [(ip, mac)])
  {
  }

  lemma RestInv(r: Resolver, hosts: Hosts, T: set<nat>, net: seq<Frame>, i: nat, n: nat)
    requires i + n <= |net| && forall j | 0 <= j < |net| :: |net[j]| >= 42 && Legitimate(r, hosts, T, net[j])
    ensures var rest := net[..i] + net[i + n..];
      forall j | 0 <= j < |rest| :: |rest[j]| >= 42 && Legitimate(r, hosts, T, rest[j])
  {
    var rest := net[..i] + net[i + n..];
    assert forall j | 0 <= j < |rest| :: rest[j] == net[if j < i then j else j + n];
  }

  lemma {:induction false} RunInv(r: Resolver, hosts: Hosts, T: set<nat>, states: seq<State>, actions: seq<Action>,
                                  i: nat)
    requires Sane(r, hosts, T) && Run(r, hosts, states, actions) && Resolving(T, actions) && i < |states|
    ensures Inv(r, hosts, T, states[i])
  {
    if i > 0 {
      RunInv(r, hosts, T, states, actions, i - 1);
      StepInv(r, hosts, T, states[i - 1], actions[i - 1]);
    }
  }

  // ----- the resolve loop takes these steps

  /** Steps from a state where an address is being resolved, without a new resolution. */
  ghost predicate Resolves(r: Resolver, hosts: Hosts, states: seq<State>, actions: seq<Action>) {
    && |states| == |actions| + 1 && states[0].busy
    && forall i | 0 <= i < |actions| ::
         !actions[i].Begin? && Enabled(hosts, states[i], actions[i])
         && states[i + 1] == Next(r, hosts, states[i], actions[i])
  }

  /** The bursts the resolver reads on the way. */
  ghost function BurstsRead(hosts: Hosts, states: seq<State>, actions: seq<Action>): seq<seq<Frame>>
    requires |states| == |actions| + 1
    requires forall i | 0 <= i < |actions| :: Enabled(hosts, states[i], actions[i])
    decreases |actions|
  {
    if actions == [] then []
    else
      var n := |actions| - 1;
      var a := actions[n];
      assert Enabled(hosts, states[n], a);
      BurstsRead(hosts, states[..n + 1], actions[..n]) + if a.Poll? then [states[n].net[a.i..a.i + a.n]] else []
  }

  /** What a poll does is decided by the burst, as in the loop over it. */
  lemma PollDecides(r: Resolver, hosts: Hosts, s: State, i: nat, n: nat, mac: Mac)
    requires Enabled(hosts, s, Poll(i, n))
    ensures var burst, s' := s.net[i..i + n], Next(r, hosts, s, Poll(i, n));
      && (Silent(r, burst) ==> s'.busy && s'.results == s.results && s'.target == s.target)
      && (Answered(r, burst, mac) ==> !s'.busy && s'.results == s.results + [(s.target, mac)])
  {
    var burst := s.net[i..i + n];
    var k := FirstReply(r, burst);
    if Answered(r, burst, mac) {
      var j :| Decides(r, burst, j, mac);
      assert j == k;
    }
  }

  /** get_dst_mac is a run of the protocol: if the bursts it reads, in whatever surroundings, are as Resolve leaves
      them, the run has no result yet, or one more: the address Resolve returns. */
  lemma {:induction false} ResolveIsRun(r: Resolver, hosts: Hosts, states: seq<State>, actions: seq<Action>,
                                        found: bool, mac: Mac)
    requires Resolves(r, hosts, states, actions)
    requires Searched(r, BurstsRead(hosts, states, actions), found, mac)
    ensures Resulting(states[0], states[|actions|], found, mac)
    decreases |actions|
  {
    if actions != [] {
      var n, a := |actions| - 1, actions[|actions| - 1];
      var before := BurstsRead(hosts, states[..n + 1], actions[..n]);
      if a.Poll? {
        var burst := states[n].net[a.i..a.i + a.n];
        SearchedBefore(r, before, burst, found, mac);
        ResolveIsRun(r, hosts, states[..n + 1], actions[..n], false, mac);
        LastPoll(r, hosts, states[0], states[n], a.i, a.n, found, mac);
      } else {
        assert BurstsRead(hosts, states, actions) == before;
        ResolveIsRun(r, hosts, states[..n + 1], actions[..n], found, mac);
      }
    }
  }

  /** The run so far has not answered, or has answered with `mac`. */
  ghost predicate Resulting(s: State, t: State, found: bool, mac: Mac) {
    && t.busy == !found
    && (!found ==> t.target == s.target && t.results == s.results)
    && (found ==> t.results == s.results + [(s.target, mac)])
  }

  lemma LastPoll(r: Resolver, hosts: Hosts, s: State, m: State, i: nat, n: nat, found: bool, mac: Mac)
    requires Enabled(hosts, m, Poll(i, n)) && Resulting(s, m, false, mac)
    requires if found then Answered(r, m.net[i..i + n], mac) else Silent(r, m.net[i..i + n])
    ensures Resulting(s, Next(r, hosts, m, Poll(i, n)), found, mac)
  {
    PollDecides(r, hosts, m, i, n, mac);
  }

  lemma SearchedBefore(r: Resolver, before: seq<seq<Frame>>, burst: seq<Frame>, found: bool, mac: Mac)
    requires Searched(r, before + [burst], found, mac)
    ensures Searched(r, before, false, mac)
    ensures if found then Answered(r, burst, mac) else Silent(r, burst)
  {
    var all := before + [burst];
    assert all[|before|] == burst;
    forall q | 0 <= q < |before| ensures Silent(r, before[q]) {
      assert all[q] == before[q];
    }
  }

  /** Every finished resolution names the right host. */
  ghost predicate AllRight(hosts: Hosts, s: State) {
    forall i | 0 <= i < |s.results| :: s.results[i].0 in hosts && s.results[i].1 == hosts[s.results[i].0]
  }

  /** With one destination, resolved any number of times, over any loss, delay and duplication of answers, the
      address returned is that of the host owning it. */
  lemma OneDestination(r: Resolver, hosts: Hosts, ip: nat, states: seq<State>, actions: seq<Action>)
    requires Sane(r, hosts, {ip}) && Run(r, hosts, states, actions) && Resolving({ip}, actions)
    ensures AllRight(hosts, states[|actions|])
  {
    RunInv(r, hosts, {ip}, states, actions, |actions|);
  }

  /** With two destinations it is not: the owner of the first answers the request and its repetition, and the second
      answer, still on its way, is taken for the answer of the second destination. */
  lemma StaleAnswer(r: Resolver, hosts: Hosts, a: nat, b: nat) returns (states: seq<State>, actions: seq<Action>)
    requires Sane(r, hosts, {a, b}) && a in hosts && (b in hosts ==> hosts[a] != hosts[b])
    ensures Run(r, hosts, states, actions) && Resolving({a, b}, actions) && !AllRight(hosts, states[|actions|])
  {
    RequestIsAnswered(r, hosts, a);
    states, actions := AnswerTaken(r, hosts, a, b, Request(r, a), ReplyFrom(r, hosts, a), hosts[a]);
  }

  lemma AnswerTaken(r: Resolver, hosts: Hosts, a: nat, b: nat, q: Frame, p: Frame, mac: Mac)
      returns (states: seq<State>, actions: seq<Action>)
    requires a in hosts && |q| >= 42 && |p| >= 42 && q == Request(r, a) && ReplyTo(q, hosts[a], a) == [p]
    requires AcceptsReply(r, p) && SenderMac(p) == hosts[a] == mac && (b in hosts ==> hosts[b] != mac)
    ensures Run(r, hosts, states, actions) && Resolving({a, b}, actions) && !AllRight(hosts, states[|actions|])
  {
    var first := (a, mac);
    AskSteps(r, hosts, a, b, q, p, mac);
    AnswerSteps(r, hosts, a, q, p);
    PollSteps(r, hosts, a, b, q, p);
    states, actions := [Start], [];
    states, actions := Extend(r, hosts, states, actions, Begin(a), State([], true, a, []));
    states, actions := Extend(r, hosts, states, actions, Ask, State([q], true, a, []));
    states, actions := Extend(r, hosts, states, actions, Ask, State([q, q], true, a, []));
    states, actions := Extend(r, hosts, states, actions, Answer(0, a), State([q, q, p], true, a, []));
    states, actions := Extend(r, hosts, states, actions, Answer(1, a), State([q, q, p, p], true, a, []));
    states, actions := Extend(r, hosts, states, actions, Poll(2, 1), State([q, q, p], false, a, [first]));
    states, actions := Extend(r, hosts, states, actions, Begin(b), State([q, q, p], true, b, [first]));
    states, actions := Extend(r, hosts, states, actions, Poll(2, 1), State([q, q], false, b, [first, (b, mac)]));
    assert states[|actions|].results[1] == (b, mac);
  }

  lemma Extend(r: Resolver, hosts: Hosts, states: seq<State>, actions: seq<Action>, a: Action, s: State)
      returns (states': seq<State>, actions': seq<Action>)
    requires Run(r, hosts, states, actions)
    requires Leads(r, hosts, states[|actions|], a, s)
    ensures Run(r, hosts, states', actions') && actions' == actions + [a] && states'[|actions'|] == s
  {
    assert At(states[|actions|]);
    states', actions' := states + [s], actions + [a];
  }

  ghost predicate At(s: State) { true }

  /** The action leads from s to t; unfolded where At(s) is mentioned. */
  ghost predicate Leads(r: Resolver, hosts: Hosts, s: State, a: Action, t: State) {
    forall z: State {:trigger At(z)} :: At(z) && z == s ==> Enabled(hosts, z, a) && t == Next(r, hosts, z, a)
  }

  lemma AskSteps(r: Resolver, hosts: Hosts, a: nat, b: nat, q: Frame, p: Frame, mac: Mac)
    requires |q| >= 42 && |p| >= 42 && q == Request(r, a)
    ensures Leads(r, hosts, Start, Begin(a), State([], true, a, []))
    ensures Leads(r, hosts, State([], true, a, []), Ask, State([q], true, a, []))
    ensures Leads(r, hosts, State([q], true, a, []), Ask, State([q, q], true, a, []))
    ensures Leads(r, hosts, State([q, q, p], false, a, [(a, mac)]), Begin(b), State([q, q, p], true, b, [(a, mac)]))
  {
    assert [] + [q] == [q] && [q] + [q] == [q, q];
  }

  lemma AnswerSteps(r: Resolver, hosts: Hosts, a: nat, q: Frame, p: Frame)
    requires a in hosts && |q| >= 42 && |p| >= 42 && ReplyTo(q, hosts[a], a) == [p]
    ensures Leads(r, hosts, State([q, q], true, a, []), Answer(0, a), State([q, q, p], true, a, []))
    ensures Leads(r, hosts, State([q, q, p], true, a, []), Answer(1, a), State([q, q, p, p], true, a, []))
  {
    assert [q, q] + [p] == [q, q, p] && [q, q, p] + [p] == [q, q, p, p];
  }

  lemma PollSteps(r: Resolver, hosts: Hosts, a: nat, b: nat, q: Frame, p: Frame)
    requires a in hosts && |q| >= 42 && |p| >= 42 && AcceptsReply(r, p) && SenderMac(p) == hosts[a]
    ensures Leads(r, hosts, State([q, q, p, p], true, a, []), Poll(2, 1), State([q, q, p], false, a, [(a, hosts[a])]))
    ensures Leads(r, hosts, State([q, q, p], true, b, [(a, hosts[a])]), Poll(2, 1),
                  State([q, q], false, b, [(a, hosts[a]), (b, hosts[a])]))
  {
    assert [q, q, p, p][2..3] == [p] && [q, q, p][2..3] == [p];
    assert [q, q, p, p][..2] + [q, q, p, p][3..] == [q, q, p];
    assert [q, q, p][..2] + [q, q, p][3..] == [q, q];
    assert FirstReply(r, [p]) == 0;
  }

  /** For a set of addresses whose hosts are on the link with different hardware addresses: all resolutions in all
      runs are right exactly when there is at most one address to resolve. */
  lemma RightIffOneDestination(r: Resolver, hosts: Hosts, T: set<nat>)
    requires Sane(r, hosts, T) && T <= hosts.Keys
    requires forall a, b | a in hosts && b in hosts && a != b :: hosts[a] != hosts[b]
    ensures (forall states, actions | Run(r, hosts, states, actions) && Resolving(T, actions) ::
               AllRight(hosts, states[|actions|]))
       <==> (forall a, b | a in T && b in T :: a == b)
  {
    if a, b :| a in T && b in T && a != b {
      var states, actions := StaleAnswer(r, hosts, a, b);
      assert Resolving(T, actions);
    } else {
      forall states, actions | Run(r, hosts, states, actions) && Resolving(T, actions)
        ensures AllRight(hosts, states[|actions|])
      {
        RunInv(r, hosts, T, states, actions, |actions|);
      }
    }
  }
}
