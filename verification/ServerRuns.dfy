/** The server's loop as a party of the protocol: handling a burst is serving its packets one by one. And what a burst
    must be like to fit the list of echoes. */
module ServerRuns {
  import opened Wire
  import opened Echo
  import opened Prepare
  import opened Receiver
  import opened Server
  import Polling
  import Latency
  import StopAndWait
  import ClientRuns

  /** The indices below n. */
  function UpTo(n: nat): (r: seq<nat>)
    ensures |r| == n && forall i | 0 <= i < n :: r[i] == i
  {
    seq(n, i => i)
  }

  ghost predicate AllAccepted(cfg: ServerConfig, frames: seq<Frame>) {
    cfg.bidi && forall i | 0 <= i < |frames| :: HasHeaders(frames[i], cfg.vlan) && Accepts(cfg, frames[i])
  }

  /** When all packets are accepted all are echoed. */
  lemma {:induction false} AllEchoed(cfg: ServerConfig, frames: seq<Frame>, n: nat)
    requires AllAccepted(cfg, frames) && n <= |frames|
    ensures AllReadable(cfg, frames)
    ensures EchoedIn(cfg, frames, n) == UpTo(n) && FreedIn(cfg, frames, n) == []
  {
    if n > 0 {
      AllEchoed(cfg, frames, n - 1);
    }
  }

  /** The bytes of a burst after handling. */
  ghost function Echoes(cfg: ServerConfig, frames: seq<Frame>): (r: seq<Frame>)
    requires AllReadable(cfg, frames)
    ensures |r| == |frames|
  {
    seq(|frames|, i requires 0 <= i < |frames| => AfterHandling(cfg, frames[i]))
  }

  lemma ProbesAccepted(c: Latency.Config, s: StopAndWait.State, n: nat)
    requires ClientRuns.Good(c, s) && n <= |s.toServer|
    ensures AllAccepted(c.server, s.toServer[..n])
  {
    assert ClientRuns.At(s);
    forall i | 0 <= i < n ensures HasHeaders(s.toServer[i], false) && Accepts(c.server, s.toServer[i]) {
      StopAndWait.ServedProbe(c, s.toServer[i], s.clock);
    }
  }

  /** Serving the first packet in the queue. */
  lemma ServeFirst(c: Latency.Config, s: StopAndWait.State) returns (t: StopAndWait.State)
    requires ClientRuns.Good(c, s) && s.toServer != []
    ensures StopAndWait.Enabled(c, s, StopAndWait.Serve(0)) && t == StopAndWait.Next(c, s, StopAndWait.Serve(0))
    ensures ClientRuns.Good(c, t) && Readable(c.server, s.toServer[0])
    ensures t == s.(toServer := s.toServer[1..], toClient := s.toClient + [AfterHandling(c.server, s.toServer[0])])
  {
    assert ClientRuns.At(s);
    StopAndWait.ServedProbe(c, s.toServer[0], s.clock);
    t := StopAndWait.Next(c, s, StopAndWait.Serve(0));
    ClientRuns.StepGood(c, s, StopAndWait.Serve(0));
    assert StopAndWait.Without(s.toServer, 0) == s.toServer[1..];
  }

  /** The first n packets at the server have been echoed: the client's queue has grown by the bytes the server leaves
      in their buffers, in order, and nothing else has changed. */
  ghost predicate Served(c: Latency.Config, s: StopAndWait.State, n: nat, t: StopAndWait.State) {
    && n <= |s.toServer| && AllReadable(c.server, s.toServer[..n])
    && t == s.(toServer := s.toServer[n..], toClient := s.toClient + Echoes(c.server, s.toServer[..n]))
  }

  lemma ServedNone(c: Latency.Config, s: StopAndWait.State)
    ensures Served(c, s, 0, s)
  {
    assert Echoes(c.server, s.toServer[..0]) == [];
    assert s.toServer[0..] == s.toServer && s.toClient + [] == s.toClient;
  }

  lemma ServedOneMore(c: Latency.Config, s: StopAndWait.State, t: StopAndWait.State, n: nat, u: StopAndWait.State)
    requires s.toServer != [] && Readable(c.server, s.toServer[0]) && Served(c, t, n, u)
    requires t == s.(toServer := s.toServer[1..], toClient := s.toClient + [AfterHandling(c.server, s.toServer[0])])
    ensures Served(c, s, n + 1, u)
  {
    var frames := s.toServer[..n + 1];
    assert frames == [s.toServer[0]] + t.toServer[..n];
    EchoesStep(c.server, s.toServer[0], t.toServer[..n]);
    assert s.toServer[n + 1..] == t.toServer[n..];
  }

  lemma EchoesStep(cfg: ServerConfig, f: Frame, frames: seq<Frame>)
    requires Readable(cfg, f) && AllReadable(cfg, frames)
    ensures AllReadable(cfg, [f] + frames)
    ensures Echoes(cfg, [f] + frames) == [AfterHandling(cfg, f)] + Echoes(cfg, frames)
  {
  }

  ghost predicate AllServes(actions: seq<StopAndWait.Action>, n: nat) {
    |actions| == n && forall i | 0 <= i < n :: actions[i] == StopAndWait.Serve(0)
  }

  lemma ServesGrow(actions: seq<StopAndWait.Action>, n: nat)
    requires AllServes(actions, n)
    ensures AllServes([StopAndWait.Serve(0)] + actions, n + 1)
  {
  }

  /** Handling a burst of the packets that arrived first at the server is, for the protocol, that many Serve steps. */
  lemma {:induction false} BurstIsServes(c: Latency.Config, s: StopAndWait.State, n: nat)
      returns (t: StopAndWait.State, states: seq<StopAndWait.State>, actions: seq<StopAndWait.Action>)
    requires ClientRuns.Good(c, s) && n <= |s.toServer|
    ensures Served(c, s, n, t) && ClientRuns.Leads(c, s, t, ClientRuns.Clear, states, actions)
    ensures AllServes(actions, n)
    decreases n
  {
    if n == 0 {
      t, states, actions := s, [s], [];
      ServedNone(c, s);
      ClientRuns.NoSteps(c, s);
    } else {
      var next := ServeFirst(c, s);
      t, states, actions := BurstIsServes(c, next, n - 1);
      ServedOneMore(c, s, next, n - 1, t);
      ServesGrow(actions, n - 1);
      states, actions := ClientRuns.ElsewhereFirst(c, s, StopAndWait.Serve(0), next, t, states, actions);
    }
  }

  /** ... and all of them are echoes: none of the burst is freed. */
  lemma BurstIsEchoed(c: Latency.Config, s: StopAndWait.State, n: nat)
    requires ClientRuns.Good(c, s) && n <= |s.toServer|
    ensures AllAccepted(c.server, s.toServer[..n]) && AllReadable(c.server, s.toServer[..n])
    ensures EchoedIn(c.server, s.toServer[..n], n) == UpTo(n) && FreedIn(c.server, s.toServer[..n], n) == []
  {
    ProbesAccepted(c, s, n);
    AllEchoed(c.server, s.toServer[..n], n);
  }

  /** There is always a frame the server accepts: one addressed to it. */
  lemma SomeAccepted(cfg: ServerConfig) returns (f: Frame)
    requires cfg.ip < U32
    ensures HasHeaders(f, cfg.vlan) && Accepts(cfg, f)
  {
    var e := Ends(cfg.mac, cfg.mac, 0, cfg.ip, 0, 0);
    var l2 := if cfg.vlan then Tagged(0) else Plain;
    f := UdpFrame(l2, e, [], 0, 0);
    EchoOfBuilt(l2, e, [], 0, 0);
  }

  /** A burst of n such packets fits the list of echoes exactly if n is at most the number of slots. */
  lemma CopiesFitIff(cfg: ServerConfig, f: Frame, n: nat, size: nat)
    requires cfg.bidi && HasHeaders(f, cfg.vlan) && Accepts(cfg, f)
    ensures AllReadable(cfg, seq(n, _ => f))
    ensures WritesInRange(cfg, seq(n, _ => f), size) <==> n <= size
  {
    var frames: seq<Frame> := seq(n, _ => f);
    AllEchoed(cfg, frames, n);
    WritesInRangeIff(cfg, frames, n, size);
  }

  /** A burst of 65 packets for a bidirectional server, which its list of 64 echoes cannot hold. */
  lemma OverfullBurst(cfg: ServerConfig) returns (frames: seq<Frame>)
    requires cfg.bidi && cfg.ip < U32
    ensures |frames| == 65 && AllReadable(cfg, frames) && !WritesInRange(cfg, frames, Polling.TX_BUF)
  {
    var f := SomeAccepted(cfg);
    frames := seq(65, _ => f);
    CopiesFitIff(cfg, f, 65, Polling.TX_BUF);
  }
}
