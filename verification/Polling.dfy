/** The server's polling loop (server.c:142-336) seen from outside: which queue it looks at, when it may serve
    it, and when it gives up. How the packets of a burst are handled is in the Server module. */
module Polling {
  import opened Arith
  import opened Wire

  // tx_buf holds this many packets
  const TX_BUF := 64

  datatype Config = Config(
    managed: seq<nat>,  // managed_queues
    delay: nat,         // delay_cycles, a 32-bit number
    bidi: bool,
    hz: nat)

  /** queue_status has one slot per managed queue and is indexed by queue id. */
  ghost predicate Sane(c: Config) {
    c.managed != [] && c.delay < U32 && forall q <- c.managed :: q < |c.managed|
  }

  /** One iteration: the clock at its top, packets received and accepted, and the clock after handling them. */
  datatype Input = Input(now: nat, received: nat, accepted: nat, after: nat)

  datatype Action =
    | Skipped(queue: nat)
    | Empty(queue: nat)
    | Served(queue: nat, at: nat, accepted: nat)
    | Stopped

  datatype State = State(qIndex: nat, status: seq<nat>, firstPkt: bool, lastPkt: nat, begin: nat, run: bool)

  function Initial(c: Config, t0: nat): State {
    State(0, seq(|c.managed|, _ => 0), false, 0, t0, true)
  }

  ghost predicate Shape(c: Config, s: State) {
    Sane(c) && s.qIndex < |c.managed| == |s.status|
  }

  /** nb_pkts_process * delay_cycles, in 32 bits. */
  function Penalty(c: Config, accepted: nat): nat {
    accepted * c.delay % U32
  }

  function Step(c: Config, s: State, i: Input): (r: (State, Action))
    requires Shape(c, s)
    ensures Shape(c, r.0)
  {
    if !s.run then (s, Stopped)
    else
      var q := c.managed[s.qIndex];
      assert q in c.managed;
      var s1 := s.(qIndex := (s.qIndex + 1) % |c.managed|);
      if !s.firstPkt && i.now - s.begin > 60 * c.hz then (s1.(run := false), Stopped)
      else if s.status[q] > i.now then (s1, Skipped(q))
      else if i.received == 0 then
        if s.firstPkt && i.now - s.lastPkt > 2 * c.hz then (s1.(run := false), Stopped)
        else (s1, Empty(q))
      else Serve(c, s1, q, i)
  }

  /** Receive and handle a burst from queue q. */
  function Serve(c: Config, s: State, q: nat, i: Input): (r: (State, Action))
    requires Shape(c, s) && q < |s.status|
    ensures Shape(c, r.0)
  {
    var s2 := if i.accepted > 0 then s.(firstPkt := true, lastPkt := i.now) else s;
    (if c.bidi then s2.(status := s.status[q := i.after + Penalty(c, i.accepted)]) else s2,
     Served(q, i.now, i.accepted))
  }

  // ----- runs

  ghost predicate InputsFrom(t0: nat, inputs: seq<Input>) {
    && (forall k | 0 <= k < |inputs| :: t0 <= inputs[k].now <= inputs[k].after)
    && (forall k | 0 <= k < |inputs| :: inputs[k].accepted <= inputs[k].received && inputs[k].accepted <= TX_BUF)
    && (forall j, k | 0 <= j < k < |inputs| :: inputs[j].after <= inputs[k].now)
  }

  ghost function Run(c: Config, t0: nat, inputs: seq<Input>): (r: (State, seq<Action>))
    requires Sane(c)
    ensures Shape(c, r.0) && |r.1| == |inputs|
  {
    if inputs == [] then (Initial(c, t0), [])
    else
      var (s, actions) := Run(c, t0, inputs[..|inputs| - 1]);
      var (s', a) := Step(c, s, inputs[|inputs| - 1]);
      (s', actions + [a])
  }

  // ----- fairness

  ghost predicate TurnOf(c: Config, a: Action, t: nat)
    requires Sane(c)
  {
    a != Stopped ==> a.queue == c.managed[t % |c.managed|]
  }

  lemma TurnStep(c: Config, s: State, i: Input, t: nat)
    requires Shape(c, s) && (s.run ==> s.qIndex == t % |c.managed|)
    ensures var (s', a) := Step(c, s, i);
      TurnOf(c, a, t) && (s'.run ==> s.run && s'.qIndex == (t + 1) % |c.managed| && a != Stopped)
  {
    ModSuccessor(t, |c.managed|);
    ModSuccessor(s.qIndex, |c.managed|);
    SmallMod(s.qIndex, |c.managed|);
  }

  /** While the server runs, iteration t deals with managed queue t mod Q, whether or not it was ready. */
  lemma {:induction false} RoundRobin(c: Config, t0: nat, inputs: seq<Input>)
    requires Sane(c)
    ensures var (s, actions) := Run(c, t0, inputs);
      && (s.run ==> s.qIndex == |inputs| % |c.managed| && Stopped !in actions)
      && forall t | 0 <= t < |actions| :: TurnOf(c, actions[t], t)
    decreases |inputs|
  {
    if inputs == [] {
      SmallMod(0, |c.managed|);
    } else {
      var n := |inputs| - 1;
      RoundRobin(c, t0, inputs[..n]);
      TurnStep(c, Run(c, t0, inputs[..n]).0, inputs[n], n);
    }
  }

  // ----- giving up

  /** Clock of the last service that accepted a packet, if any. */
  function LastAccepted(actions: seq<Action>): (t: int)
    ensures t >= -1
  {
    if actions == [] then -1
    else
      var a := actions[|actions| - 1];
      if a.Served? && a.accepted > 0 then a.at else LastAccepted(actions[..|actions| - 1])
  }

  /** Iteration k stopped the server, for the reason the program gives. */
  ghost predicate IdleStop(c: Config, t0: nat, inputs: seq<Input>, actions: seq<Action>, k: nat) {
    && k < |inputs| == |actions| && actions[k] == Stopped
    && var last := LastAccepted(actions[..k]);
       if last < 0 then inputs[k].now - t0 > 60 * c.hz
       else inputs[k].received == 0 && inputs[k].now - last > 2 * c.hz
  }

  ghost predicate StopsIdle(c: Config, t0: nat, s: State, inputs: seq<Input>, actions: seq<Action>) {
    && s.begin == t0 && (s.firstPkt <==> LastAccepted(actions) >= 0)
    && (s.firstPkt ==> s.lastPkt == LastAccepted(actions))
    && (s.run || exists k: nat :: IdleStop(c, t0, inputs, actions, k))
  }

  lemma IdleStopStays(c: Config, t0: nat, inputs: seq<Input>, actions: seq<Action>, i: Input, a: Action, k: nat)
    requires IdleStop(c, t0, inputs, actions, k)
    ensures IdleStop(c, t0, inputs + [i], actions + [a], k)
  {
    assert (actions + [a])[..k] == actions[..k];
  }

  lemma StopsIdleStep(c: Config, t0: nat, s: State, inputs: seq<Input>, actions: seq<Action>, i: Input)
    requires Shape(c, s) && |inputs| == |actions| && StopsIdle(c, t0, s, inputs, actions)
    ensures var (s', a) := Step(c, s, i); StopsIdle(c, t0, s', inputs + [i], actions + [a])
  {
    var (s', a) := Step(c, s, i);
    assert (actions + [a])[..|actions|] == actions;
    if !s.run {
      var k: nat :| IdleStop(c, t0, inputs, actions, k);
      IdleStopStays(c, t0, inputs, actions, i, a, k);
    } else if !s'.run {
      assert IdleStop(c, t0, inputs + [i], actions + [a], |actions|);
    }
  }

  /** The server is running until some iteration finds that more than a minute has passed without a first
      packet, or that an empty poll comes more than two seconds after the last one. */
  lemma {:induction false} StopsOnlyWhenIdle(c: Config, t0: nat, inputs: seq<Input>)
    requires Sane(c)
    ensures var (s, actions) := Run(c, t0, inputs); StopsIdle(c, t0, s, inputs, actions)
    decreases |inputs|
  {
    if inputs != [] {
      var n := |inputs| - 1;
      StopsOnlyWhenIdle(c, t0, inputs[..n]);
      var (s, actions) := Run(c, t0, inputs[..n]);
      StopsIdleStep(c, t0, s, inputs[..n], actions, inputs[n]);
      assert inputs == inputs[..n] + [inputs[n]];
    }
  }

  // ----- what every iteration must do

  /** When queue q may be served again, by the record of the run: the clock after its last service plus that service's
      delay, a 32-bit product. A unidirectional server does not wait. */
  function ReadyAt(c: Config, inputs: seq<Input>, actions: seq<Action>, q: nat): nat
    requires |inputs| == |actions|
  {
    if actions == [] || !c.bidi then 0
    else
      var n := |actions| - 1;
      if actions[n].Served? && actions[n].queue == q then inputs[n].after + inputs[n].accepted * c.delay % U32
      else ReadyAt(c, inputs[..n], actions[..n], q)
  }

  /** What iteration a is after the iterations `actions` of a server that was still running: it gives up just when a
      minute has passed without an accepted packet, or at an empty poll more than two seconds after the last; else it
      skips a queue just when that is not ready, finds it empty, or serves it. */
  ghost predicate AsDue(c: Config, t0: nat, inputs: seq<Input>, actions: seq<Action>, i: Input, a: Action)
    requires Sane(c) && |inputs| == |actions|
  {
    var q, last := c.managed[|actions| % |c.managed|], LastAccepted(actions);
    if last < 0 && i.now - t0 > 60 * c.hz then a == Stopped
    else if ReadyAt(c, inputs, actions, q) > i.now then a == Skipped(q)
    else if i.received > 0 then a == Served(q, i.now, i.accepted)
    else if last >= 0 && i.now - last > 2 * c.hz then a == Stopped
    else a == Empty(q)
  }

  /** The state holds what the record says. */
  ghost predicate Recorded(c: Config, t0: nat, s: State, inputs: seq<Input>, actions: seq<Action>) {
    && Sane(c) && |inputs| == |actions| && s.begin == t0
    && (s.firstPkt <==> LastAccepted(actions) >= 0) && (s.firstPkt ==> s.lastPkt == LastAccepted(actions))
    && (s.run ==> s.qIndex == |actions| % |c.managed|)
    && forall q | 0 <= q < |s.status| :: s.status[q] == ReadyAt(c, inputs, actions, q)
  }

  lemma RecordedStep(c: Config, t0: nat, s: State, inputs: seq<Input>, actions: seq<Action>, i: Input)
    requires Shape(c, s) && Recorded(c, t0, s, inputs, actions)
    ensures var (s', a) := Step(c, s, i); Recorded(c, t0, s', inputs + [i], actions + [a])
  {
    var a := Step(c, s, i).1;
    TurnStep(c, s, i, |actions|);
    assert (actions + [a])[..|actions|] == actions && (inputs + [i])[..|inputs|] == inputs;
  }

  lemma DueStep(c: Config, t0: nat, s: State, inputs: seq<Input>, actions: seq<Action>, i: Input)
    requires Shape(c, s) && Recorded(c, t0, s, inputs, actions)
    ensures var (s', a) := Step(c, s, i);
      (s.run ==> AsDue(c, t0, inputs, actions, i, a)) && (s'.run <==> a != Stopped)
  {
    if s.run {
      assert c.managed[s.qIndex] in c.managed;
    }
  }

  lemma {:induction false} RunRecorded(c: Config, t0: nat, inputs: seq<Input>)
    requires Sane(c)
    ensures var (s, actions) := Run(c, t0, inputs); Recorded(c, t0, s, inputs, actions)
    decreases |inputs|
  {
    if inputs == [] {
      SmallMod(0, |c.managed|);
    } else {
      var n := |inputs| - 1;
      RunRecorded(c, t0, inputs[..n]);
      var (s, actions) := Run(c, t0, inputs[..n]);
      RecordedStep(c, t0, s, inputs[..n], actions, inputs[n]);
      assert inputs == inputs[..n] + [inputs[n]];
    }
  }

  lemma {:induction false} RunPrefix(c: Config, t0: nat, inputs: seq<Input>, n: nat)
    requires Sane(c) && n <= |inputs|
    ensures Run(c, t0, inputs[..n]).1 == Run(c, t0, inputs).1[..n]
    decreases |inputs|
  {
    if n == |inputs| {
      assert inputs[..n] == inputs;
    } else {
      var m := |inputs| - 1;
      assert inputs[..m][..n] == inputs[..n];
      RunPrefix(c, t0, inputs[..m], n);
    }
  }

  lemma StepOfRun(c: Config, t0: nat, inputs: seq<Input>, t: nat) returns (s: State, before: seq<Action>)
    requires Sane(c) && t < |inputs|
    ensures (s, before) == Run(c, t0, inputs[..t]) && before == Run(c, t0, inputs).1[..t]
    ensures Run(c, t0, inputs).1[t] == Step(c, s, inputs[t]).1
  {
    RunPrefix(c, t0, inputs, t);
    RunPrefix(c, t0, inputs, t + 1);
    assert inputs[..t + 1][..t] == inputs[..t];
    var r := Run(c, t0, inputs[..t]);
    s, before := r.0, r.1;
  }

  /** While the server runs every iteration does exactly what is due, and once it has stopped it stays so. */
  lemma EveryIterationAsDue(c: Config, t0: nat, inputs: seq<Input>, t: nat)
    requires Sane(c) && t < |inputs|
    ensures var actions := Run(c, t0, inputs).1;
      if Stopped in actions[..t] then actions[t] == Stopped
      else AsDue(c, t0, inputs[..t], actions[..t], inputs[t], actions[t])
  {
    var s, before := StepOfRun(c, t0, inputs, t);
    RunRecorded(c, t0, inputs[..t]);
    DueStep(c, t0, s, inputs[..t], before, inputs[t]);
    RunningUntilStopped(c, t0, inputs[..t]);
  }

  lemma {:induction false} RunningUntilStopped(c: Config, t0: nat, inputs: seq<Input>)
    requires Sane(c)
    ensures var (s, actions) := Run(c, t0, inputs); s.run <==> Stopped !in actions
    decreases |inputs|
  {
    if inputs != [] {
      var n := |inputs| - 1;
      RunningUntilStopped(c, t0, inputs[..n]);
      RunRecorded(c, t0, inputs[..n]);
      var (s, actions) := Run(c, t0, inputs[..n]);
      DueStep(c, t0, s, inputs[..n], actions, inputs[n]);
    }
  }

  /** A unidirectional server never skips a queue. */
  lemma NeverSkips(c: Config, t0: nat, inputs: seq<Input>, t: nat)
    requires Sane(c) && !c.bidi && t < |inputs|
    ensures !Run(c, t0, inputs).1[t].Skipped?
  {
    EveryIterationAsDue(c, t0, inputs, t);
  }

  // ----- capacity

  /** Packets accepted so far in services of queue q. */
  function Accepted(actions: seq<Action>, q: nat): nat {
    if actions == [] then 0
    else
      var a := actions[|actions| - 1];
      Accepted(actions[..|actions| - 1], q) + if a.Served? && a.queue == q then a.accepted else 0
  }

  /** Clock of the first service of queue q, if any. */
  function First(actions: seq<Action>, q: nat): (t: int)
    ensures t >= -1
  {
    if actions == [] then -1
    else
      var a, t := actions[|actions| - 1], First(actions[..|actions| - 1], q);
      if t >= 0 then t else if a.Served? && a.queue == q then a.at else -1
  }

  /** Every service of q comes at least `delay` cycles after the first for each packet accepted in between. */
  ghost predicate WithinCapacity(c: Config, actions: seq<Action>, q: nat) {
    forall k | 0 <= k < |actions| && actions[k].Served? && actions[k].queue == q ::
      First(actions[..k], q) >= 0 ==> c.delay * Accepted(actions[..k], q) <= actions[k].at - First(actions[..k], q)
  }

  /** Before queue q is ready again, all its accepted packets will have had their service time. */
  ghost predicate OnTime(c: Config, s: State, actions: seq<Action>, q: nat) {
    && q < |s.status|
    && (First(actions, q) < 0 ==> Accepted(actions, q) == 0)
    && (First(actions, q) >= 0 ==> First(actions, q) + c.delay * Accepted(actions, q) <= s.status[q])
  }

  ghost predicate Paced(c: Config, s: State, actions: seq<Action>, q: nat) {
    OnTime(c, s, actions, q) && WithinCapacity(c, actions, q)
  }

  /** One iteration, as queue q sees it. */
  lemma QueueStep(c: Config, s: State, i: Input, q: nat)
    requires Shape(c, s) && c.bidi && q < |s.status|
    requires i.now <= i.after && Penalty(c, i.accepted) == i.accepted * c.delay
    ensures var (s', a) := Step(c, s, i);
      if a.Served? && a.queue == q then
        && s.status[q] <= i.now == a.at && a.accepted == i.accepted
        && s'.status[q] == i.after + i.accepted * c.delay
      else s'.status[q] == s.status[q]
  {
  }

  lemma PaceKept(delay: nat, first: int, before: nat, accepted: nat, ready: int, after: int)
    requires first + delay * before <= ready <= after
    ensures first + delay * (before + accepted) <= after + accepted * delay
  {
    MulSplit(delay, before, accepted);
  }

  lemma OnTimeStep(c: Config, s: State, actions: seq<Action>, i: Input, q: nat)
    requires Shape(c, s) && c.bidi && OnTime(c, s, actions, q)
    requires i.now <= i.after && Penalty(c, i.accepted) == i.accepted * c.delay
    ensures var (s', a) := Step(c, s, i); OnTime(c, s', actions + [a], q)
  {
    var a := Step(c, s, i).1;
    QueueStep(c, s, i, q);
    assert (actions + [a])[..|actions|] == actions;
    var first, before := First(actions, q), Accepted(actions, q);
    if a.Served? && a.queue == q {
      PaceKept(c.delay, if first >= 0 then first else i.now, before, i.accepted, i.now, i.after);
    }
  }

  lemma PacedStep(c: Config, s: State, actions: seq<Action>, i: Input, q: nat)
    requires Shape(c, s) && c.bidi && Paced(c, s, actions, q)
    requires i.now <= i.after && Penalty(c, i.accepted) == i.accepted * c.delay
    ensures var (s', a) := Step(c, s, i); Paced(c, s', actions + [a], q)
  {
    QueueStep(c, s, i, q);
    OnTimeStep(c, s, actions, i, q);
    CapacityExtends(c, actions, Step(c, s, i).1, q);
  }

  lemma CapacityExtends(c: Config, actions: seq<Action>, a: Action, q: nat)
    requires WithinCapacity(c, actions, q)
    requires a.Served? && a.queue == q && First(actions, q) >= 0 ==>
      c.delay * Accepted(actions, q) <= a.at - First(actions, q)
    ensures WithinCapacity(c, actions + [a], q)
  {
    var all := actions + [a];
    forall k | 0 <= k < |all| && all[k].Served? && all[k].queue == q
      ensures First(all[..k], q) >= 0 ==> c.delay * Accepted(all[..k], q) <= all[k].at - First(all[..k], q)
    {
      assert all[..k] == actions[..k];
      assert actions[..|actions|] == actions;
    }
  }

  lemma PenaltyExact(c: Config, accepted: nat)
    requires accepted <= TX_BUF && TX_BUF * c.delay < U32
    ensures Penalty(c, accepted) == accepted * c.delay
  {
    MulMonotone(accepted, TX_BUF, c.delay);
    SmallMod(accepted * c.delay, U32);
  }

  lemma {:induction false} RunPaced(c: Config, t0: nat, inputs: seq<Input>, q: nat)
    requires Sane(c) && c.bidi && q < |c.managed| && InputsFrom(t0, inputs) && TX_BUF * c.delay < U32
    ensures var (s, actions) := Run(c, t0, inputs); Paced(c, s, actions, q)
    decreases |inputs|
  {
    if inputs != [] {
      var n := |inputs| - 1;
      RunPaced(c, t0, inputs[..n], q);
      var (s, actions) := Run(c, t0, inputs[..n]);
      PenaltyExact(c, inputs[n].accepted);
      PacedStep(c, s, actions, inputs[n], q);
    }
  }

  /** A run that shows the 32-bit product wrapping: a full buffer on the first queue, then, from the moment
      the wrapped delay is over, packets that are all rejected. */
  function WrapRun(t0: nat, next: nat, n: nat): seq<Input> {
    [Input(t0, TX_BUF, TX_BUF, t0)] + seq(n, _ => Input(next, 1, 0, next))
  }

  ghost predicate AllReady(c: Config, s: State, at: nat)
    requires Shape(c, s)
  {
    s.run && s.firstPkt && forall q | 0 <= q < |s.status| :: s.status[q] <= at
  }

  lemma RejectingStep(c: Config, s: State, next: nat)
    requires Shape(c, s) && c.bidi && AllReady(c, s, next)
    ensures var (s', a) := Step(c, s, Input(next, 1, 0, next));
      AllReady(c, s', next) && a == Served(c.managed[s.qIndex], next, 0)
  {
    assert Penalty(c, 0) == 0 by { SmallMod(0, U32); }
    assert c.managed[s.qIndex] in c.managed;
  }

  lemma FirstFullStep(c: Config, t0: nat)
    requires Sane(c) && c.bidi
    ensures var (s', a) := Step(c, Initial(c, t0), Input(t0, TX_BUF, TX_BUF, t0));
      AllReady(c, s', t0 + Penalty(c, TX_BUF)) && a == Served(c.managed[0], t0, TX_BUF)
  {
    assert c.managed[0] in c.managed;
  }

  ghost predicate Wrapped(c: Config, t0: nat, next: nat, inputs: seq<Input>)
    requires Sane(c)
  {
    var (s, actions) := Run(c, t0, inputs);
    AllReady(c, s, next) && First(actions, c.managed[0]) == t0 && Accepted(actions, c.managed[0]) == TX_BUF
  }

  lemma WrappedStart(c: Config, t0: nat, inputs: seq<Input>)
    requires Sane(c) && c.bidi && inputs == [Input(t0, TX_BUF, TX_BUF, t0)]
    ensures Wrapped(c, t0, t0 + Penalty(c, TX_BUF), inputs)
  {
    FirstFullStep(c, t0);
    assert inputs[..0] == [];
    assert Run(c, t0, inputs).1[..0] == [];
  }

  lemma WrappedExtend(c: Config, t0: nat, next: nat, inputs: seq<Input>, n: nat)
    requires Sane(c) && c.bidi && |inputs| == n + 1 && inputs[n] == Input(next, 1, 0, next)
    requires Wrapped(c, t0, next, inputs[..n])
    ensures Wrapped(c, t0, next, inputs)
  {
    var (s, actions) := Run(c, t0, inputs[..n]);
    RejectingStep(c, s, next);
    assert Run(c, t0, inputs).1[..n] == actions;
  }

  lemma {:induction false} WrapRunState(c: Config, t0: nat, next: nat, inputs: seq<Input>, n: nat)
    requires Sane(c) && c.bidi && next == t0 + Penalty(c, TX_BUF) && inputs == WrapRun(t0, next, n)
    ensures Wrapped(c, t0, next, inputs)
    decreases n
  {
    if n == 0 {
      WrappedStart(c, t0, inputs);
    } else {
      assert inputs[..n] == WrapRun(t0, next, n - 1);
      WrapRunState(c, t0, next, inputs[..n], n - 1);
      WrappedExtend(c, t0, next, inputs, n);
    }
  }

  /** When the delay of a full buffer exceeds 2^32 cycles, the first queue is served again too early. */
  lemma WrappedDelay(c: Config, t0: nat) returns (inputs: seq<Input>)
    requires Sane(c) && c.bidi && TX_BUF * c.delay >= U32
    ensures InputsFrom(t0, inputs) && c.managed[0] < |c.managed|
    ensures !WithinCapacity(c, Run(c, t0, inputs).1, c.managed[0])
  {
    var n, next := |c.managed|, t0 + Penalty(c, TX_BUF);
    inputs := WrapRun(t0, next, n);
    WrapRunInputs(t0, next, n);
    assert inputs[..n] == WrapRun(t0, next, n - 1);
    WrapRunState(c, t0, next, inputs[..n], n - 1);
    LastServiceTooEarly(c, t0, inputs, next);
  }

  lemma WrapRunInputs(t0: nat, next: nat, n: nat)
    requires t0 <= next
    ensures InputsFrom(t0, WrapRun(t0, next, n))
  {
  }

  lemma LastServiceTooEarly(c: Config, t0: nat, inputs: seq<Input>, next: nat)
    requires Sane(c) && c.bidi && |inputs| == |c.managed| + 1 && next < t0 + c.delay * TX_BUF
    requires inputs[|c.managed|] == Input(next, 1, 0, next)
    requires Wrapped(c, t0, next, inputs[..|c.managed|])
    ensures c.managed[0] < |c.managed| && !WithinCapacity(c, Run(c, t0, inputs).1, c.managed[0])
  {
    QueueAfterLap(c, t0, inputs[..|c.managed|]);
    RejectingStep(c, Run(c, t0, inputs[..|c.managed|]).0, next);
    assert c.managed[0] in c.managed;
    TooEarly(c, Run(c, t0, inputs).1, |c.managed|, t0, next);
  }

  /** After one lap the first queue is up again. */
  lemma QueueAfterLap(c: Config, t0: nat, inputs: seq<Input>)
    requires Sane(c) && |inputs| == |c.managed| && Run(c, t0, inputs).0.run
    ensures Run(c, t0, inputs).0.qIndex == 0
  {
    RoundRobin(c, t0, inputs);
    ModShift(0, 1, |c.managed|);
    SmallMod(0, |c.managed|);
  }

  lemma TooEarly(c: Config, actions: seq<Action>, n: nat, t0: nat, next: nat)
    requires Sane(c) && |actions| == n + 1 && next < t0 + c.delay * TX_BUF
    requires actions[n] == Served(c.managed[0], next, 0)
    requires First(actions[..n], c.managed[0]) == t0 && Accepted(actions[..n], c.managed[0]) == TX_BUF
    ensures !WithinCapacity(c, actions, c.managed[0])
  {
    assert actions[n].queue == c.managed[0];
  }

  /** For every server and start time: the service-time bound holds for every queue in every run exactly when
      the delay of a full transmit buffer fits in 32 bits. */
  lemma CapacityIff(c: Config, t0: nat)
    requires Sane(c) && c.bidi
    ensures (forall inputs, q: nat ::
               InputsFrom(t0, inputs) && q < |c.managed| ==> WithinCapacity(c, Run(c, t0, inputs).1, q))
       <==> TX_BUF * c.delay < U32
  {
    if TX_BUF * c.delay < U32 {
      forall inputs, q: nat | InputsFrom(t0, inputs) && q < |c.managed|
        ensures WithinCapacity(c, Run(c, t0, inputs).1, q)
      {
        RunPaced(c, t0, inputs, q);
      }
    } else {
      var inputs := WrappedDelay(c, t0);
    }
  }

  /** The queues main.c hands to worker `findex` (main.c:233-235). */
  function ManagedQueues(findex: nat, count: nat): seq<nat> {
    seq(count, q => findex * count + q)
  }

  /** Queue ids index a per-worker table, which fits exactly for the first worker. */
  lemma QueueIdsFit(findex: nat, count: nat, delay: nat, bidi: bool, hz: nat)
    requires count > 0 && delay < U32
    ensures Sane(Config(ManagedQueues(findex, count), delay, bidi, hz)) <==> findex == 0
  {
    var m := ManagedQueues(findex, count);
    assert m[0] in m && m[0] == findex * count + 0;
    if findex > 0 { MulAtLeast(count, findex); }
  }
}
