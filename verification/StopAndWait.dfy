/** Client, network and server as one transition system over frames, and what holds in all its runs.
    The network may reorder, delay and lose packets; it neither duplicates nor invents them. */
module StopAndWait {
  import opened Wire
  import opened Echo
  import opened Latency

  datatype State = State(
    waiting: bool,          // between sending a batch and the end of its receive phase
    nbTx: nat,
    samples: seq<Sample>,
    toServer: seq<Frame>,   // on the way, or queued at the server
    toClient: seq<Frame>,
    clock: nat,
    sent: seq<nat>,         // timestamps of all packets the NIC took
    lost: seq<nat>)         // timestamps of all packets that will never be recorded

  datatype Action =
    | Send(stamps: seq<Stamp>, taken: nat)
    | Serve(i: nat)              // the server handles a packet
    | LoseRequest(i: nat)
    | LoseReply(i: nat)
    | Receive(n: nat, at: nat)   // a poll that finds n packets
    | Timeout(n: nat, at: nat)   // the client stops waiting, at any time; the n packets of its last poll are dropped

  const Start := State(false, 0, [], [], [], 0, [], [])

  // ----- steps

  ghost predicate Ordered(stamps: seq<Stamp>, from: nat) {
    && (forall i | 0 <= i < |stamps| :: from <= stamps[i].ts < U64)
    && (forall i, j | 0 <= i < j < |stamps| :: stamps[i].ts <= stamps[j].ts)
  }

  ghost predicate Enabled(c: Config, s: State, a: Action) {
    Sane(c) && match a
    case Send(stamps, taken) => !s.waiting && |stamps| == c.burst && taken <= c.burst && Ordered(stamps, s.clock)
    case Serve(i) => i < |s.toServer|
    case LoseRequest(i) => i < |s.toServer|
    case LoseReply(i) => i < |s.toClient|
    case Receive(n, at) => s.waiting && 1 <= n <= |s.toClient| && n <= RX_BURST && s.clock <= at
                           && forall i | 0 <= i < |s.toClient| :: |s.toClient[i]| >= 50
    case Timeout(n, at) => s.waiting && n <= |s.toClient| && n <= RX_BURST && s.clock <= at
  }

  function Without<T>(s: seq<T>, i: nat): seq<T>
    requires i < |s|
  {
    s[..i] + s[i + 1..]
  }

  function Stamps(frames: seq<Frame>): (r: seq<nat>)
    ensures |r| == |frames|
  {
    seq(|frames|, i requires 0 <= i < |frames| => TsOf(frames[i]))
  }

  function Probes(c: Config, stamps: seq<Stamp>): (r: seq<Frame>)
    requires c.len >= 8
    ensures |r| == |stamps|
  {
    seq(|stamps|, i requires 0 <= i < |stamps| => Probe(c, stamps[i]))
  }

  function Times(stamps: seq<Stamp>): (r: seq<nat>)
    ensures |r| == |stamps|
  {
    seq(|stamps|, i requires 0 <= i < |stamps| => stamps[i].ts)
  }

  ghost function Next(c: Config, s: State, a: Action): State
    requires Enabled(c, s, a)
  {
    match a
    case Send(stamps, taken) =>
      s.(waiting := true, nbTx := taken, toServer := s.toServer + Probes(c, stamps[..taken]),
         clock := stamps[c.burst - 1].ts, sent := s.sent + Times(stamps[..taken]))
    case Serve(i) =>
      var f, rest := s.toServer[i], s.(toServer := Without(s.toServer, i));
      if HasHeaders(f, false) && Accepts(c.server, f) then rest.(toClient := s.toClient + [Swapped(f, false)])
      else rest.(lost := s.lost + [TsOf(f)])
    case LoseRequest(i) =>
      s.(toServer := Without(s.toServer, i), lost := s.lost + [TsOf(s.toServer[i])])
    case LoseReply(i) =>
      s.(toClient := Without(s.toClient, i), lost := s.lost + [TsOf(s.toClient[i])])
    case Receive(n, at) =>
      var k := HandleAll(c, Count(s.nbTx, s.samples), s.toClient[..n], at);
      s.(nbTx := k.nbTx, samples := k.samples, toClient := s.toClient[n..], clock := at, waiting := k.nbTx > 0)
    case Timeout(n, at) =>
      s.(toClient := s.toClient[n..], lost := s.lost + Stamps(s.toClient[..n]), clock := at, waiting := false)
  }

  /** Packets sent and not yet arrived or lost. */
  function InFlight(s: State): nat {
    |s.toServer| + |s.toClient|
  }

  // ----- contents

  /** A packet the client built, no later than `clock`. */
  ghost predicate IsProbe(c: Config, f: Frame, clock: nat)
    requires c.len >= 8
  {
    forall g: Frame {:trigger Look(g)} :: Look(g) && g == f ==>
      exists st: Stamp :: st.ts <= clock && st.ts < U64 && g == Probe(c, st)
  }

  /** The echo of such a packet. */
  ghost predicate IsEcho(c: Config, f: Frame, clock: nat)
    requires c.len >= 8
  {
    forall g: Frame {:trigger Look(g)} :: Look(g) && g == f ==>
      exists st: Stamp :: st.ts <= clock && st.ts < U64 && g == EchoOf(c, st)
  }

  lemma ProbeIs(c: Config, f: Frame, clock: nat) returns (st: Stamp)
    requires c.len >= 8 && IsProbe(c, f, clock)
    ensures st.ts <= clock && st.ts < U64 && f == Probe(c, st)
  {
    assert Look(f);
    st :| st.ts <= clock && st.ts < U64 && f == Probe(c, st);
  }

  lemma EchoIs(c: Config, f: Frame, clock: nat) returns (st: Stamp)
    requires c.len >= 8 && IsEcho(c, f, clock)
    ensures st.ts <= clock && st.ts < U64 && f == EchoOf(c, st)
  {
    assert Look(f);
    st :| st.ts <= clock && st.ts < U64 && f == EchoOf(c, st);
  }

  lemma ProbeLater(c: Config, f: Frame, t: nat, t': nat)
    requires c.len >= 8 && IsProbe(c, f, t) && t <= t'
    ensures IsProbe(c, f, t')
  {
    var st := ProbeIs(c, f, t);
  }

  lemma EchoLater(c: Config, f: Frame, t: nat, t': nat)
    requires c.len >= 8 && IsEcho(c, f, t) && t <= t'
    ensures IsEcho(c, f, t')
  {
    var st := EchoIs(c, f, t);
  }

  lemma NewProbe(c: Config, st: Stamp, clock: nat)
    requires Sane(c) && st.ts <= clock && st.ts < U64
    ensures IsProbe(c, Probe(c, st), clock) && TsOf(Probe(c, st)) == st.ts
  {
    ProbeFacts(c, st);
  }

  /** What the server does with a probe. */
  lemma ServedProbe(c: Config, f: Frame, clock: nat)
    requires Sane(c) && IsProbe(c, f, clock)
    ensures HasHeaders(f, false) && Accepts(c.server, f)
    ensures IsEcho(c, Swapped(f, false), clock) && TsOf(Swapped(f, false)) == TsOf(f)
  {
    var st := ProbeIs(c, f, clock);
    ProbeFacts(c, st);
  }

  /** What the client finds in an echo. */
  lemma ReceivedEcho(c: Config, f: Frame, clock: nat)
    requires Sane(c) && IsEcho(c, f, clock)
    ensures GoodReply(c, f) && TsOf(f) <= clock
  {
    var st := EchoIs(c, f, clock);
    ProbeFacts(c, st);
  }

  predicate GoodReply(c: Config, f: Frame) {
    |f| >= 50 && PassesEthernet(f, c.ends.srcMac) && EtherType(f) == ETHER_TYPE_IPV4
  }

  /** Every packet in flight is one the client built or its echo; every packet sent is in flight, lost or
      recorded, exactly once; and no sample has a negative latency. */
  ghost predicate Content(c: Config, s: State) {
    && Sane(c) && s.nbTx < U32
    && (forall i | 0 <= i < |s.toServer| :: IsProbe(c, s.toServer[i], s.clock))
    && (forall i | 0 <= i < |s.toClient| :: IsEcho(c, s.toClient[i], s.clock))
    && (forall i | 0 <= i < |s.samples| :: s.samples[i].ts <= s.samples[i].at <= s.clock)
    && multiset(s.sent) == multiset(Stamps(s.toServer)) + multiset(Stamps(s.toClient)) + multiset(s.lost)
                           + multiset(SampleTimes(s.samples))
  }

  function SampleTimes(samples: seq<Sample>): (r: seq<nat>)
    ensures |r| == |samples|
  {
    seq(|samples|, i requires 0 <= i < |samples| => samples[i].ts)
  }

  function SamplesOf(frames: seq<Frame>, at: nat): (r: seq<Sample>)
    ensures |r| == |frames|
  {
    seq(|frames|, i requires 0 <= i < |frames| => Sample(TsOf(frames[i]), at))
  }

  lemma WithoutMultiset<T>(s: seq<T>, i: nat)
    requires i < |s|
    ensures multiset(s) == multiset(Without(s, i)) + multiset{s[i]}
  {
    assert s == s[..i] + [s[i]] + s[i + 1..];
  }

  lemma StampsWithout(frames: seq<Frame>, i: nat)
    requires i < |frames|
    ensures multiset(Stamps(frames)) == multiset(Stamps(Without(frames, i))) + multiset{TsOf(frames[i])}
  {
    assert Stamps(Without(frames, i)) == Without(Stamps(frames), i);
    WithoutMultiset(Stamps(frames), i);
  }

  lemma StampsSplit(frames: seq<Frame>, n: nat)
    requires n <= |frames|
    ensures multiset(Stamps(frames)) == multiset(Stamps(frames[..n])) + multiset(Stamps(frames[n..]))
  {
    assert Stamps(frames) == Stamps(frames[..n]) + Stamps(frames[n..]);
  }

  /** Unsigned: below zero it wraps. */
  function Decrement(n: nat): nat
    requires n < U32
  {
    if n == 0 then U32 - 1 else n - 1
  }

  /** An echo counts down by one and leaves one sample. */
  lemma HandleReply(c: Config, k: Count, f: Frame, at: nat)
    requires k.nbTx < U32 && GoodReply(c, f)
    ensures HandleOne(c, k, f, at) == Count(Decrement(k.nbTx), k.samples + [Sample(TsOf(f), at)])
  {
  }

  /** Receiving echoes: one sample each, and one decrement each, which wraps below zero. */
  lemma {:induction false} HandleReplies(c: Config, k: Count, frames: seq<Frame>, at: nat)
    requires k.nbTx < U32 && |frames| <= U32
    requires forall i | 0 <= i < |frames| :: |frames[i]| >= 50 && GoodReply(c, frames[i])
    ensures HandleAll(c, k, frames, at).samples == k.samples + SamplesOf(frames, at)
    ensures HandleAll(c, k, frames, at).nbTx
         == if |frames| <= k.nbTx then k.nbTx - |frames| else k.nbTx + U32 - |frames|
    decreases |frames|
  {
    if frames != [] {
      var n := |frames| - 1;
      HandleReplies(c, k, frames[..n], at);
      HandleReply(c, HandleAll(c, k, frames[..n], at), frames[n], at);
      assert SamplesOf(frames, at) == SamplesOf(frames[..n], at) + [Sample(TsOf(frames[n]), at)];
    }
  }

  lemma SendContent(c: Config, s: State, a: Action)
    requires a.Send? && Enabled(c, s, a) && Content(c, s)
    ensures Content(c, Next(c, s, a))
  {
    var s', some := Next(c, s, a), a.stamps[..a.taken];
    var built := Probes(c, some);
    forall i | 0 <= i < |some| ensures IsProbe(c, built[i], s'.clock) && TsOf(built[i]) == some[i].ts {
      NewProbe(c, some[i], s'.clock);
    }
    assert Stamps(built) == Times(some);
    assert Stamps(s'.toServer) == Stamps(s.toServer) + Times(some);
    PacketsLater(c, s, s'.clock);
  }

  lemma PacketsLater(c: Config, s: State, clock: nat)
    requires Content(c, s) && s.clock <= clock
    ensures forall i | 0 <= i < |s.toServer| :: IsProbe(c, s.toServer[i], clock)
    ensures forall i | 0 <= i < |s.toClient| :: IsEcho(c, s.toClient[i], clock)
  {
    forall i | 0 <= i < |s.toServer| ensures IsProbe(c, s.toServer[i], clock) {
      ProbeLater(c, s.toServer[i], s.clock, clock);
    }
    forall i | 0 <= i < |s.toClient| ensures IsEcho(c, s.toClient[i], clock) {
      EchoLater(c, s.toClient[i], s.clock, clock);
    }
  }

  lemma ServeContent(c: Config, s: State, a: Action)
    requires a.Serve? && Enabled(c, s, a) && Content(c, s)
    ensures Content(c, Next(c, s, a))
    ensures Next(c, s, a).lost == s.lost && |Next(c, s, a).toClient| == |s.toClient| + 1
  {
    var s', f := Next(c, s, a), s.toServer[a.i];
    ServedProbe(c, f, s.clock);
    StampsWithout(s.toServer, a.i);
    assert Stamps(s'.toClient) == Stamps(s.toClient) + [TsOf(f)];
  }

  lemma LoseRequestContent(c: Config, s: State, a: Action)
    requires a.LoseRequest? && Enabled(c, s, a) && Content(c, s)
    ensures Content(c, Next(c, s, a))
  {
    StampsWithout(s.toServer, a.i);
  }

  lemma LoseReplyContent(c: Config, s: State, a: Action)
    requires a.LoseReply? && Enabled(c, s, a) && Content(c, s)
    ensures Content(c, Next(c, s, a))
  {
    StampsWithout(s.toClient, a.i);
  }

  /** What a poll does to the count and the samples. */
  lemma ReceiveEffect(c: Config, s: State, a: Action)
    requires a.Receive? && Enabled(c, s, a) && Content(c, s)
    ensures Next(c, s, a).nbTx == if a.n <= s.nbTx then s.nbTx - a.n else s.nbTx + U32 - a.n
    ensures Next(c, s, a).samples == s.samples + SamplesOf(s.toClient[..a.n], a.at)
    ensures forall i | 0 <= i < a.n :: TsOf(s.toClient[i]) <= s.clock
  {
    var taken := s.toClient[..a.n];
    forall i | 0 <= i < |taken| ensures |taken[i]| >= 50 && GoodReply(c, taken[i]) && TsOf(taken[i]) <= s.clock {
      ReceivedEcho(c, taken[i], s.clock);
    }
    HandleReplies(c, Count(s.nbTx, s.samples), taken, a.at);
    assert forall i | 0 <= i < a.n :: s.toClient[i] == taken[i];
  }

  lemma SampleTimesGrow(samples: seq<Sample>, frames: seq<Frame>, at: nat)
    ensures SampleTimes(samples + SamplesOf(frames, at)) == SampleTimes(samples) + Stamps(frames)
  {
  }

  lemma ReceiveContent(c: Config, s: State, a: Action)
    requires a.Receive? && Enabled(c, s, a) && Content(c, s)
    ensures Content(c, Next(c, s, a))
    ensures Next(c, s, a).nbTx == if a.n <= s.nbTx then s.nbTx - a.n else s.nbTx + U32 - a.n
    ensures |Next(c, s, a).samples| == |s.samples| + a.n
  {
    ReceiveEffect(c, s, a);
    var s', taken, rest := Next(c, s, a), s.toClient[..a.n], s.toClient[a.n..];
    StampsSplit(s.toClient, a.n);
    SampleTimesGrow(s.samples, taken, a.at);
    Recorded(s.sent, Stamps(s.toServer), Stamps(s.toClient), Stamps(taken), Stamps(rest), s.lost,
             SampleTimes(s.samples), SampleTimes(s'.samples));
    PacketsLater(c, s, a.at);
  }

  /** Some of the packets at the client become samples. */
  lemma Recorded(sent: seq<nat>, server: seq<nat>, client: seq<nat>, taken: seq<nat>, rest: seq<nat>, lost: seq<nat>,
                 times: seq<nat>, times': seq<nat>)
    requires multiset(sent) == multiset(server) + multiset(client) + multiset(lost) + multiset(times)
    requires multiset(client) == multiset(taken) + multiset(rest) && times' == times + taken
    ensures multiset(sent) == multiset(server) + multiset(rest) + multiset(lost) + multiset(times')
  {
  }

  lemma TimeoutContent(c: Config, s: State, a: Action)
    requires a.Timeout? && Enabled(c, s, a) && Content(c, s)
    ensures Content(c, Next(c, s, a))
  {
    StampsSplit(s.toClient, a.n);
    PacketsLater(c, s, a.at);
  }

  lemma StepContent(c: Config, s: State, a: Action)
    requires Enabled(c, s, a) && Content(c, s)
    ensures Content(c, Next(c, s, a))
  {
    match a
    case Send(_, _) => SendContent(c, s, a);
    case Serve(_) => ServeContent(c, s, a);
    case LoseRequest(_) => LoseRequestContent(c, s, a);
    case LoseReply(_) => LoseReplyContent(c, s, a);
    case Receive(_, _) => ReceiveContent(c, s, a);
    case Timeout(_, _) => TimeoutContent(c, s, a);
  }

  // ----- runs

  /** states[i + 1] follows states[i] by actions[i]. */
  ghost predicate Steps(c: Config, states: seq<State>, actions: seq<Action>) {
    && |states| == |actions| + 1
    && forall i | 0 <= i < |actions| ::
         Enabled(c, states[i], actions[i]) && states[i + 1] == Next(c, states[i], actions[i])
  }

  ghost predicate Run(c: Config, states: seq<State>, actions: seq<Action>) {
    Sane(c) && Steps(c, states, actions) && states[0] == Start
  }

  /** In every run, whatever is delayed, reordered or lost, and however often the client times out: every
      packet in flight is as the client built it or its echo, each packet sent is accounted for exactly once,
      and each sample carries a timestamp that was written, not later than its arrival. */
  lemma {:induction false} RunContent(c: Config, states: seq<State>, actions: seq<Action>, i: nat)
    requires Run(c, states, actions) && i < |states|
    ensures Content(c, states[i])
  {
    if i > 0 {
      RunContent(c, states, actions, i - 1);
      StepContent(c, states[i - 1], actions[i - 1]);
    }
  }

  /** The decrement of nb_tx wraps. */
  ghost predicate Underflows(c: Config, s: State, a: Action)
    requires Enabled(c, s, a)
  {
    a.Receive? && Next(c, s, a).nbTx > s.nbTx
  }

  /** A timeout that gives up on packets which are really gone. */
  ghost predicate CleanStep(s: State, a: Action) {
    a.Timeout? ==> |s.toServer| == 0 && |s.toClient| == a.n
  }

  ghost predicate Clean(states: seq<State>, actions: seq<Action>)
    requires |states| == |actions| + 1
  {
    forall i | 0 <= i < |actions| :: CleanStep(states[i], actions[i])
  }

  /** The count covers what is in flight; outside a receive phase nothing is. */
  ghost predicate Covered(s: State) {
    && (s.waiting ==> InFlight(s) <= s.nbTx && (s.lost == [] ==> InFlight(s) == s.nbTx))
    && (!s.waiting ==> InFlight(s) == 0)
  }

  lemma CoveredStep(c: Config, s: State, a: Action)
    requires Enabled(c, s, a) && Content(c, s) && Covered(s) && CleanStep(s, a)
    ensures Covered(Next(c, s, a)) && !Underflows(c, s, a)
  {
    match a
    case Serve(_) => ServeContent(c, s, a);
    case Receive(_, _) => ReceiveContent(c, s, a);
    case _ =>
  }

  lemma {:induction false} StepsCovered(c: Config, states: seq<State>, actions: seq<Action>, i: nat)
    requires Steps(c, states, actions) && Clean(states, actions) && i < |states|
    requires Content(c, states[0]) && Covered(states[0])
    ensures Content(c, states[i]) && Covered(states[i])
    ensures i < |actions| ==> !Underflows(c, states[i], actions[i])
  {
    if i > 0 {
      StepsCovered(c, states, actions, i - 1);
      StepContent(c, states[i - 1], actions[i - 1]);
      CoveredStep(c, states[i - 1], actions[i - 1]);
    }
    if i < |actions| {
      CoveredStep(c, states[i], actions[i]);
    }
  }

  /** Stop and wait: in a run whose timeouts, if any, give up only on packets that are really gone, nb_tx never
      underflows, it is the number of packets in flight as long as none was lost, and a new batch is sent only
      when every earlier packet has been recorded or lost. */
  lemma StopAndWaitSafety(c: Config, states: seq<State>, actions: seq<Action>, i: nat)
    requires Run(c, states, actions) && Clean(states, actions) && i < |states|
    ensures states[i].waiting && states[i].lost == [] ==> states[i].nbTx == InFlight(states[i])
    ensures i < |actions| ==> !Underflows(c, states[i], actions[i])
    ensures i < |actions| && actions[i].Send? ==>
      multiset(states[i].sent) == multiset(SampleTimes(states[i].samples)) + multiset(states[i].lost)
  {
    StepsCovered(c, states, actions, i);
    if i < |actions| && actions[i].Send? {
      assert Stamps(states[i].toServer) == [] && Stamps(states[i].toClient) == [];
    }
  }

  // ----- what a step costs

  /** The client stops waiting for packets it still counts as outstanding. */
  predicate GivesUp(s: State, a: Action) {
    a.Timeout? && s.nbTx > 0
  }

  /** Buffers the client allocates or receives in a step. */
  function Obtains(c: Config, a: Action): nat {
    match a
    case Send(_, _) => c.burst
    case Receive(n, _) => n
    case Timeout(n, _) => n
    case _ => 0
  }

  /** Buffers the NIC takes from it, and buffers it frees. */
  function Releases(a: Action): nat {
    match a
    case Send(_, taken) => taken
    case Receive(n, _) => n
    case _ => 0
  }

  // ----- putting runs together

  lemma LongEchoes(c: Config, s: State)
    requires Content(c, s)
    ensures forall i | 0 <= i < |s.toClient| :: |s.toClient[i]| >= 50
  {
    forall i | 0 <= i < |s.toClient| ensures |s.toClient[i]| >= 50 {
      ReceivedEcho(c, s.toClient[i], s.clock);
    }
  }

  lemma Prepend(c: Config, s: State, a: Action, more: seq<State>, acts: seq<Action>)
      returns (states: seq<State>, actions: seq<Action>)
    requires Steps(c, more, acts) && Enabled(c, s, a) && more[0] == Next(c, s, a)
    ensures states == [s] + more && actions == [a] + acts && Steps(c, states, actions)
    ensures states[|actions|] == more[|acts|]
  {
    states, actions := [s] + more, [a] + acts;
    forall i | 0 <= i < |actions|
      ensures Enabled(c, states[i], actions[i]) && states[i + 1] == Next(c, states[i], actions[i])
    {
      if i > 0 {
        assert states[i] == more[i - 1] && states[i + 1] == more[i] && actions[i] == acts[i - 1];
      }
    }
  }
}
