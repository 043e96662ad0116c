/** What the latency client's documentation promises (config.c:49-51), that no batch is sent until all packets are
    back, and what an early timeout does to the count of outstanding packets and to the packet buffers. */
module BatchPromise {
  import opened Wire
  import opened Latency
  import opened StopAndWait

  // ----- the promise

  /** Every packet sent so far has been received and recorded. */
  ghost predicate AllRecorded(s: State) {
    multiset(s.sent) == multiset(SampleTimes(s.samples))
  }

  /** It is so whenever a batch is about to be sent, and at the end. */
  ghost predicate PromiseKept(states: seq<State>, actions: seq<Action>)
    requires |states| == |actions| + 1
  {
    forall i | 0 <= i < |states| && (i == |actions| || actions[i].Send?) :: AllRecorded(states[i])
  }

  /** Nothing has been given up: the packets sent are those recorded and, in a receive phase, those counted. */
  ghost predicate Paid(s: State) {
    |s.sent| == |s.samples| + if s.waiting then s.nbTx else 0
  }

  lemma Sizes(c: Config, s: State)
    requires Content(c, s)
    ensures |s.sent| == InFlight(s) + |s.lost| + |s.samples|
    ensures AllRecorded(s) <==> |s.sent| == |s.samples|
  {
    var out := multiset(Stamps(s.toServer)) + multiset(Stamps(s.toClient)) + multiset(s.lost);
    assert multiset(s.sent) == out + multiset(SampleTimes(s.samples));
    assert |multiset(s.sent)| == |out| + |multiset(SampleTimes(s.samples))|;
    if |s.sent| == |s.samples| {
      assert out == multiset{};
    }
  }

  lemma PaidStep(c: Config, s: State, a: Action)
    requires Enabled(c, s, a) && Content(c, s) && Paid(s) && !GivesUp(s, a)
    ensures Paid(Next(c, s, a))
  {
    Sizes(c, s);
    if a.Receive? {
      ReceiveContent(c, s, a);
    }
  }

  lemma {:induction false} PaidSoFar(c: Config, states: seq<State>, actions: seq<Action>, i: nat)
    requires Run(c, states, actions) && i < |states|
    requires forall j | 0 <= j < i :: !GivesUp(states[j], actions[j])
    ensures Paid(states[i])
  {
    if i > 0 {
      PaidSoFar(c, states, actions, i - 1);
      RunContent(c, states, actions, i - 1);
      PaidStep(c, states[i - 1], actions[i - 1]);
    }
  }

  /** As long as nothing has been given up, the count is exactly the packets in flight or lost on the way, it does not
      underflow, and outside a receive phase every packet is recorded. */
  lemma NothingGivenUp(c: Config, states: seq<State>, actions: seq<Action>, i: nat)
    requires Run(c, states, actions) && i < |states|
    requires forall j | 0 <= j < i :: !GivesUp(states[j], actions[j])
    ensures states[i].waiting ==> states[i].nbTx == InFlight(states[i]) + |states[i].lost|
    ensures !states[i].waiting ==> AllRecorded(states[i])
    ensures i < |actions| ==> !Underflows(c, states[i], actions[i])
  {
    PaidSoFar(c, states, actions, i);
    RunContent(c, states, actions, i);
    Sizes(c, states[i]);
    if i < |actions| && actions[i].Receive? {
      ReceiveContent(c, states[i], actions[i]);
    }
  }

  /** Once a packet is unrecorded outside a receive phase, the promise is broken: nothing can be recorded before
      the next batch. */
  lemma {:induction false} StaysUnrecorded(c: Config, states: seq<State>, actions: seq<Action>, i: nat)
    requires Run(c, states, actions) && i < |states| && !states[i].waiting && !AllRecorded(states[i])
    ensures !PromiseKept(states, actions)
    decreases |states| - i
  {
    if i < |actions| && !actions[i].Send? {
      StaysUnrecorded(c, states, actions, i + 1);
    }
  }

  lemma {:induction false} GivingUpBreaks(c: Config, states: seq<State>, actions: seq<Action>, i: nat)
    requires Run(c, states, actions) && i < |actions| && GivesUp(states[i], actions[i])
    ensures !PromiseKept(states, actions)
  {
    if j :| 0 <= j < i && GivesUp(states[j], actions[j]) {
      GivingUpBreaks(c, states, actions, j);
    } else {
      PaidSoFar(c, states, actions, i);
      RunContent(c, states, actions, i + 1);
      Sizes(c, states[i + 1]);
      StaysUnrecorded(c, states, actions, i + 1);
    }
  }

  /** Exactly when the documented promise holds: in every run that is not left in the middle of a receive phase,
      all packets are back whenever a batch is sent, and at the end, if and only if no timeout was taken while
      packets were still counted as outstanding. */
  lemma PromiseIff(c: Config, states: seq<State>, actions: seq<Action>)
    requires Run(c, states, actions) && !states[|actions|].waiting
    ensures PromiseKept(states, actions) <==> forall i | 0 <= i < |actions| :: !GivesUp(states[i], actions[i])
  {
    if i :| 0 <= i < |actions| && GivesUp(states[i], actions[i]) {
      GivingUpBreaks(c, states, actions, i);
    } else {
      forall i | 0 <= i < |states| && (i == |actions| || actions[i].Send?) ensures AllRecorded(states[i]) {
        NothingGivenUp(c, states, actions, i);
      }
    }
  }

  /** The values the client reports are the elapsed nanoseconds of its samples, each exact just when it fits. */
  lemma RunMeasurements(c: Config, states: seq<State>, actions: seq<Action>, i: nat, j: nat)
    requires Run(c, states, actions) && i < |states| && j < |states[i].samples|
    ensures var m := states[i].samples[j];
      && m.ts in states[i].sent && m.ts <= m.at
      && (Latencies(states[i].samples, c.hz)[j] == (m.at - m.ts) * 1000000000 / c.hz
          <==> (m.at - m.ts) * 1000000000 < U64)
  {
    RunContent(c, states, actions, i);
    assert SampleTimes(states[i].samples)[j] in multiset(SampleTimes(states[i].samples));
    assert states[i].samples[j].ts in multiset(states[i].sent);
    LatencyExactNs(states[i].samples[j], c.hz);
  }

  // ----- timeouts

  /** From s on, no run with clean timeouts ever underflows. */
  ghost predicate SafeFrom(c: Config, s: State) {
    forall states: seq<State>, actions: seq<Action>
      | Steps(c, states, actions) && states[0] == s && Clean(states, actions) ::
      forall i | 0 <= i < |actions| :: !Underflows(c, states[i], actions[i])
  }

  /** Whether a client that is about to send (after a timeout, say) is safe is decided by one thing: whether
      anything is still in flight. A packet that a timeout gave up on too early makes the count wrap when it
      arrives together with a packet of the next batch. */
  lemma SafeIffNothingInFlight(c: Config, states: seq<State>, actions: seq<Action>)
    requires Run(c, states, actions) && !states[|actions|].waiting && states[|actions|].clock < U64
    ensures SafeFrom(c, states[|actions|]) <==> InFlight(states[|actions|]) == 0
  {
    var s := states[|actions|];
    RunContent(c, states, actions, |actions|);
    if InFlight(s) == 0 {
      forall more: seq<State>, acts: seq<Action>, i
        | Steps(c, more, acts) && more[0] == s && Clean(more, acts) && 0 <= i < |acts|
        ensures !Underflows(c, more[i], acts[i])
      {
        StepsCovered(c, more, acts, i);
      }
    } else {
      LateArrival(c, s);
    }
  }

  /** It does happen: one packet, and a timeout before its echo is back. */
  lemma EarlyTimeout(c: Config) returns (states: seq<State>, actions: seq<Action>)
    requires Sane(c) && c.hz + 1 < U64
    ensures Run(c, states, actions) && InFlight(states[|actions|]) > 0
    ensures !PromiseKept(states, actions) && !SafeFrom(c, states[|actions|])
    ensures |actions| == 2 && actions[1].Timeout? && actions[1].at - states[1].clock > c.hz
  {
    StartContent(c);
    var send, s1, timeout, s2 := AbandonOne(c, Start);
    states, actions := TwoSteps(c, Start, send, s1, timeout, s2);
    GivingUpBreaks(c, states, actions, 1);
    LateArrival(c, s2);
  }

  lemma AbandonOne(c: Config, s: State) returns (send: Action, s1: State, timeout: Action, s2: State)
    requires Content(c, s) && !s.waiting && s.clock + c.hz + 1 < U64
    ensures Enabled(c, s, send) && s1 == Next(c, s, send)
    ensures Enabled(c, s1, timeout) && s2 == Next(c, s1, timeout) && GivesUp(s1, timeout)
    ensures timeout.at - s1.clock > c.hz
    ensures Content(c, s2) && !s2.waiting && InFlight(s2) > 0 && s2.clock < U64
  {
    send, s1 := SendOne(c, s);
    timeout := Timeout(0, s1.clock + c.hz + 1);
    s2 := TimeOut(c, s1, timeout);
  }

  lemma TwoSteps(c: Config, s: State, a: Action, s1: State, b: Action, s2: State)
      returns (states: seq<State>, actions: seq<Action>)
    requires Enabled(c, s, a) && s1 == Next(c, s, a) && Enabled(c, s1, b) && s2 == Next(c, s1, b)
    ensures Steps(c, states, actions) && states == [s, s1, s2] && actions == [a, b]
  {
    states, actions := Prepend(c, s1, b, [s2], []);
    states, actions := Prepend(c, s, a, states, actions);
  }

  lemma TimeOut(c: Config, s: State, a: Action) returns (s': State)
    requires Content(c, s) && s.waiting && a.Timeout? && a.n == 0 && s.clock <= a.at
    ensures Enabled(c, s, a) && s' == Next(c, s, a) && Content(c, s')
    ensures !s'.waiting && InFlight(s') == InFlight(s) && s'.clock == a.at
  {
    s' := Next(c, s, a);
    StepContent(c, s, a);
  }

  lemma StartContent(c: Config)
    requires Sane(c)
    ensures Content(c, Start)
  {
  }

  /** Send one packet of a batch, let the server handle it and, if need be, an old request, and poll twice as
      many packets as are counted. */
  lemma LateArrival(c: Config, s: State)
    requires Content(c, s) && !s.waiting && InFlight(s) > 0 && s.clock < U64
    ensures !SafeFrom(c, s)
  {
    var send, s1 := SendOne(c, s);
    var s2 := ServeOne(c, s1);
    if |s.toClient| > 0 {
      PollTwo(c, s2);
    } else {
      var s3 := ServeOne(c, s2);
      PollTwo(c, s3);
      UnsafeBefore(c, s2, Serve(0), s3);
    }
    UnsafeBefore(c, s1, Serve(0), s2);
    UnsafeBefore(c, s, send, s1);
  }

  lemma UnsafeBefore(c: Config, s: State, a: Action, s': State)
    requires Enabled(c, s, a) && s' == Next(c, s, a) && CleanStep(s, a) && !SafeFrom(c, s')
    ensures !SafeFrom(c, s)
  {
    var more: seq<State>, acts: seq<Action>, i :|
      Steps(c, more, acts) && more[0] == s' && Clean(more, acts) && 0 <= i < |acts| && Underflows(c, more[i], acts[i]);
    var states, actions := Prepend(c, s, a, more, acts);
    CleanPrepend(s, a, more, acts);
    UnsafeAt(c, states, actions, i + 1);
  }

  lemma UnsafeAt(c: Config, states: seq<State>, actions: seq<Action>, i: nat)
    requires Steps(c, states, actions) && Clean(states, actions) && i < |actions|
    requires Underflows(c, states[i], actions[i])
    ensures !SafeFrom(c, states[0])
  {
  }

  lemma CleanPrepend(s: State, a: Action, more: seq<State>, acts: seq<Action>)
    requires |more| == |acts| + 1 && CleanStep(s, a) && Clean(more, acts)
    ensures Clean([s] + more, [a] + acts)
  {
    var states, actions := [s] + more, [a] + acts;
    forall k | 0 <= k < |actions| ensures CleanStep(states[k], actions[k]) {
      if k > 0 {
        assert states[k] == more[k - 1] && actions[k] == acts[k - 1];
      }
    }
  }

  lemma SendOne(c: Config, s: State) returns (send: Action, s': State)
    requires Content(c, s) && !s.waiting && s.clock < U64
    ensures Enabled(c, s, send) && send.Send? && s' == Next(c, s, send)
    ensures Content(c, s') && s'.waiting && s'.nbTx == 1 && s'.clock == s.clock
    ensures |s'.toServer| == |s.toServer| + 1 && |s'.toClient| == |s.toClient|
  {
    send := Send(seq(c.burst, _ => Stamp(s.clock, 0, 0)), 1);
    s' := Next(c, s, send);
    StepContent(c, s, send);
  }

  lemma ServeOne(c: Config, s: State) returns (s': State)
    requires Content(c, s) && |s.toServer| > 0
    ensures Enabled(c, s, Serve(0)) && s' == Next(c, s, Serve(0))
    ensures Content(c, s') && s'.waiting == s.waiting && s'.nbTx == s.nbTx
    ensures |s'.toServer| == |s.toServer| - 1 && |s'.toClient| == |s.toClient| + 1
  {
    s' := Next(c, s, Serve(0));
    ServeContent(c, s, Serve(0));
  }

  lemma PollTwo(c: Config, s: State)
    requires Content(c, s) && s.waiting && s.nbTx == 1 && |s.toClient| >= 2
    ensures !SafeFrom(c, s)
  {
    var poll := Receive(2, s.clock);
    LongEchoes(c, s);
    ReceiveContent(c, s, poll);
    UnsafeStep(c, s, poll, Next(c, s, poll));
  }

  lemma UnsafeStep(c: Config, s: State, a: Action, s': State)
    requires Enabled(c, s, a) && s' == Next(c, s, a) && a.Receive? && s'.nbTx > s.nbTx
    ensures !SafeFrom(c, s)
  {
    var states, actions := Prepend(c, s, a, [s'], []);
    assert Clean(states, actions) && Underflows(c, states[0], actions[0]);
  }

  // ----- packet buffers

  function Obtained(c: Config, actions: seq<Action>): nat {
    if actions == [] then 0 else Obtains(c, actions[0]) + Obtained(c, actions[1..])
  }

  function Released(actions: seq<Action>): nat {
    if actions == [] then 0 else Releases(actions[0]) + Released(actions[1..])
  }

  /** The NIC takes the whole batch; no packet comes with the poll that finds the time over. */
  predicate Tidy(c: Config, a: Action) {
    (a.Send? ==> a.taken == c.burst) && (a.Timeout? ==> a.n == 0)
  }

  lemma TidyStep(c: Config, s: State, a: Action)
    requires Enabled(c, s, a)
    ensures Releases(a) <= Obtains(c, a) && (Releases(a) == Obtains(c, a) <==> Tidy(c, a))
  {
  }

  ghost predicate AllTidy(c: Config, actions: seq<Action>) {
    forall i | 0 <= i < |actions| :: Tidy(c, actions[i])
  }

  lemma TidyFirst(c: Config, actions: seq<Action>)
    requires actions != []
    ensures AllTidy(c, actions) <==> Tidy(c, actions[0]) && AllTidy(c, actions[1..])
  {
    assert actions == [actions[0]] + actions[1..];
  }

  lemma StepsTail(c: Config, states: seq<State>, actions: seq<Action>)
    requires Steps(c, states, actions) && actions != []
    ensures Steps(c, states[1..], actions[1..])
  {
    forall i | 0 <= i < |actions| - 1
      ensures Enabled(c, states[1..][i], actions[1..][i])
      ensures states[1..][i + 1] == Next(c, states[1..][i], actions[1..][i])
    {
      assert states[1..][i] == states[i + 1] && states[1..][i + 1] == states[i + 2];
      assert actions[1..][i] == actions[i + 1];
    }
  }

  /** Buffers "should either be sent or freed" (latency_client.c:118): that is so, in any run, if and only if the
      NIC takes every batch as a whole and no poll that times out has found packets. */
  lemma {:induction false} BuffersReleasedIff(c: Config, states: seq<State>, actions: seq<Action>)
    requires Steps(c, states, actions)
    ensures Released(actions) <= Obtained(c, actions)
    ensures Released(actions) == Obtained(c, actions) <==> AllTidy(c, actions)
    decreases |actions|
  {
    if actions != [] {
      TidyStep(c, states[0], actions[0]);
      StepsTail(c, states, actions);
      BuffersReleasedIff(c, states[1..], actions[1..]);
      TidyFirst(c, actions);
    }
  }

  /** It does happen: a batch of which the NIC takes nothing. */
  lemma LeakingRun(c: Config) returns (states: seq<State>, actions: seq<Action>)
    requires Sane(c)
    ensures Run(c, states, actions) && Obtained(c, actions) - Released(actions) == c.burst > 0
  {
    var a := Send(seq(c.burst, _ => Stamp(0, 0, 0)), 0);
    assert Enabled(c, Start, a);
    states, actions := Prepend(c, Start, a, [Next(c, Start, a)], []);
    assert actions == [a];
  }
}
