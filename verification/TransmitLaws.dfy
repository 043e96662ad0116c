/** What holds over every run of the transmit loop with one destination: the rotation of ports, counters and
    queues, the bound on the packets of one flow, and the fate of every buffer. */
module TransmitLaws {
  import opened Arith
  import opened Wire
  import opened Transmit

  /** A run of the loop from a start at time t0 with a configured duration of `seconds` (0 for no limit). */
  ghost function RunFrom(c: Config, t0: nat, seconds: nat, inputs: seq<Input>): (r: (State, seq<Action>))
    requires Sane(c) && InputsFrom(c, t0, inputs)
    ensures Shape(c, r.0) && |r.1| == |inputs|
  {
    InitialShape(c, t0, seconds);
    Run(c, Initial(c, t0, seconds), inputs)
  }

  lemma InitialShape(c: Config, t0: nat, seconds: nat)
    requires Sane(c)
    ensures Shape(c, Initial(c, t0, seconds))
  {
    assert c.dests * c.flows >= 1 by { MulAtLeast(c.flows, c.dests); }
  }

  /** One more iteration: the run so far, then a step. */
  lemma RunExtends(c: Config, t0: nat, seconds: nat, inputs: seq<Input>)
    requires Sane(c) && InputsFrom(c, t0, inputs) && inputs != []
    ensures var n := |inputs| - 1;
      && InputsFrom(c, t0, inputs[..n])
      && LastClock(t0, inputs[..n]) <= inputs[n].now
      && var before := RunFrom(c, t0, seconds, inputs[..n]);
      var (s, a) := Step(c, before.0, inputs[n]);
      RunFrom(c, t0, seconds, inputs) == (s, before.1 + [a])
  {
  }

  // ----- rotation

  /** Offset of the port of sending iteration k. */
  function PortOffset(c: Config, k: nat): nat
    requires c.flows > 0
  {
    (k + 1) % c.flows
  }

  /** Iteration k uses port (k+1) mod F, charges counter k mod F, and sends on that counter's queue. */
  ghost predicate RotationAt(c: Config, a: Action, k: nat)
    requires Sane(c)
  {
    a.Turn? ==>
      && a.port == c.basePort + PortOffset(c, k)
      && a.counter == k % c.flows
      && a.queue == (c.qid + a.counter % c.queues) % U16
  }

  ghost predicate Rotating(c: Config, s: State, actions: seq<Action>)
    requires Sane(c)
  {
    && s.selectedDst == 0 && !s.aborted && (s.halted ==> !s.canSend)
    && (s.canSend ==> s.dstPort == c.basePort + |actions| % c.flows && forall a <- actions :: a.Turn?)
    && (forall k | 0 <= k < |actions| :: actions[k] != Abort && RotationAt(c, actions[k], k))
    && (forall j, k | 0 <= j < k < |actions| :: actions[k].Turn? ==> actions[j].Turn?)
  }

  lemma RotationStep(c: Config, s: State, actions: seq<Action>, i: Input)
    requires Shape(c, s) && c.dests == 1 && Rotating(c, s, actions) && i.taken <= c.burst
    ensures var (s', a) := Step(c, s, i); Rotating(c, s', actions + [a])
  {
    ModSuccessor(|actions|, c.flows);
  }

  /** With one destination, every sending iteration k of every run is the k-th, and uses port (k+1) mod F,
      counter k mod F and that counter's queue, rate-limited or not; the assertion never fires, and once the
      deadline has passed there are no more sending iterations. */
  lemma {:induction false} Rotation(c: Config, t0: nat, seconds: nat, inputs: seq<Input>)
    requires Sane(c) && c.dests == 1 && InputsFrom(c, t0, inputs)
    ensures var (s, actions) := RunFrom(c, t0, seconds, inputs); Rotating(c, s, actions)
    decreases |inputs|
  {
    if inputs == [] {
      ModSuccessor(0, c.flows);
      SmallMod(0, c.flows);
    } else {
      RunExtends(c, t0, seconds, inputs);
      var n := |inputs| - 1;
      Rotation(c, t0, seconds, inputs[..n]);
      var (s, actions) := RunFrom(c, t0, seconds, inputs[..n]);
      RotationStep(c, s, actions, inputs[n]);
    }
  }

  /** Any F consecutive iterations contain exactly one for each port. */
  lemma EveryPortOnce(c: Config, from: nat, offset: nat) returns (k: nat)
    requires Sane(c) && offset < c.flows
    ensures from <= k < from + c.flows && PortOffset(c, k) == offset
    ensures forall j | from <= j < from + c.flows && PortOffset(c, j) == offset :: j == k
  {
    var F, r := c.flows, (from + 1) % c.flows;
    k := if offset >= r then from + offset - r else from + offset + F - r;
    var q := (from + 1) / F;
    if offset >= r {
      DivModUnique(k + 1, F, q, offset);
    } else {
      assert F * (q + 1) == F * q + F;
      DivModUnique(k + 1, F, q + 1, offset);
    }
    forall j | from <= j < from + F && PortOffset(c, j) == offset ensures j == k {
      CongruentIffDivides(j + 1, k + 1, F);
      CongruentIffDivides(k + 1, j + 1, F);
      SmallMod(if j < k then k - j else j - k, F);
    }
  }

  /** The destination port in the frames of sending iteration k, the one Burst.FillBurst finds in its base ends:
      pkt_info.dst_port is 16 bits wide. */
  function WirePort(c: Config, k: nat): nat
    requires c.flows > 0
  {
    (c.basePort + PortOffset(c, k)) % U16
  }

  lemma WirePortDecides(c: Config, j: nat, k: nat)
    requires 0 < c.flows <= U16
    ensures WirePort(c, j) == WirePort(c, k) <==> PortOffset(c, j) == PortOffset(c, k)
  {
    if WirePort(c, j) == WirePort(c, k) {
      WrapInjective(c.basePort, PortOffset(c, j), PortOffset(c, k), U16);
    }
  }

  ghost predicate WirePortsOnce(c: Config, from: nat)
    requires c.flows > 0
  {
    forall j, k | from <= j < from + c.flows && from <= k < from + c.flows && WirePort(c, j) == WirePort(c, k) :: j == k
  }

  /** On the wire, F consecutive iterations use F different ports if and only if there are at most 2^16 flows. */
  lemma WirePortsOnceIff(c: Config, from: nat)
    requires Sane(c)
    ensures WirePortsOnce(c, from) <==> c.flows <= U16
  {
    if c.flows <= U16 {
      forall j, k | from <= j < from + c.flows && from <= k < from + c.flows && WirePort(c, j) == WirePort(c, k)
        ensures j == k
      {
        WirePortDecides(c, j, k);
        var i := EveryPortOnce(c, from, PortOffset(c, k));
      }
    } else {
      var j := EveryPortOnce(c, from, 0);
      var k := EveryPortOnce(c, from, U16);
      ModShift(c.basePort, 1, U16);
      assert WirePort(c, j) == WirePort(c, k) && PortOffset(c, j) != PortOffset(c, k);
    }
  }

  /** With more destinations the second sending iteration finds selected_dst == 1 and the assertion fires. */
  lemma {:induction false} SecondDestinationAborts(c: Config, t0: nat, seconds: nat, inputs: seq<Input>, k: nat)
    requires Sane(c) && c.dests >= 2 && InputsFrom(c, t0, inputs) && k < |inputs|
    ensures RunFrom(c, t0, seconds, inputs).1[k].Turn? ==> k == 0
    ensures var s := RunFrom(c, t0, seconds, inputs).0;
      s.canSend && !s.halted && !s.aborted ==> |inputs| == 1 && s.selectedDst == 1
    decreases |inputs|
  {
    RunExtends(c, t0, seconds, inputs);
    var n := |inputs| - 1;
    if n > 0 {
      SecondDestinationAborts(c, t0, seconds, inputs[..n], if k < n then k else 0);
    } else {
      SmallMod(1, c.dests);
    }
  }

  // ----- accounting

  function Sent(a: Action): nat {
    if a.Turn? && a.outcome.Sent? then a.outcome.count else 0
  }

  /** Packets charged to counter f. */
  function Charged(actions: seq<Action>, f: nat): nat {
    if actions == [] then 0
    else
      var a := actions[|actions| - 1];
      Charged(actions[..|actions| - 1], f) + if a.Turn? && a.counter == f then Sent(a) else 0
  }

  /** Packets sent to a port. */
  function SentTo(actions: seq<Action>, port: nat): nat {
    if actions == [] then 0
    else
      var a := actions[|actions| - 1];
      SentTo(actions[..|actions| - 1], port) + if a.Turn? && a.port == port then Sent(a) else 0
  }

  /** Packets sent in frames that carry a port. */
  function SentOnWire(actions: seq<Action>, port: nat): nat {
    if actions == [] then 0
    else
      var a := actions[|actions| - 1];
      SentOnWire(actions[..|actions| - 1], port) + if a.Turn? && a.port % U16 == port then Sent(a) else 0
  }

  /** Windows opened after the first. */
  function Resets(actions: seq<Action>): nat {
    if actions == [] then 0
    else
      var a := actions[|actions| - 1];
      Resets(actions[..|actions| - 1]) + if a.Turn? && a.reset then 1 else 0
  }

  /** Clock of the last sending iteration. */
  function LastTurn(actions: seq<Action>, t0: nat): nat {
    if actions == [] then t0
    else
      var a := actions[|actions| - 1];
      if a.Turn? then a.at else LastTurn(actions[..|actions| - 1], t0)
  }

  /** A port is always charged to the counter one behind it, and only to that one. */
  lemma {:induction false} PortIsOneCounter(c: Config, actions: seq<Action>, f: nat)
    requires Sane(c) && f < c.flows
    requires forall k | 0 <= k < |actions| :: RotationAt(c, actions[k], k)
    ensures SentTo(actions, c.basePort + PortOffset(c, f)) == Charged(actions, f)
    ensures c.flows <= U16 ==> SentOnWire(actions, WirePort(c, f)) == Charged(actions, f)
    decreases |actions|
  {
    if actions != [] {
      var n := |actions| - 1;
      if c.flows <= U16 {
        WirePortDecides(c, n, f);
      }
      PortIsOneCounter(c, actions[..n], f);
      ModSuccessor(n, c.flows);
      ModSuccessor(f, c.flows);
      SmallMod(f, c.flows);
    }
  }

  // ----- the rate window

  /** Windows are longer than a second, and what earlier windows sent (charged - tp) and what this one has
      sent (tp) are each within rate times their span plus one burst. */
  predicate Bounded(c: Config, t0: nat, start: nat, last: nat, resets: nat, charged: nat, tp: nat) {
    && tp <= charged
    && t0 + resets * (c.hz + 1) <= start <= last
    && (charged - tp) * c.hz <= c.rate * (start - t0) + resets * (c.burst * c.hz)
    && tp * c.hz <= c.rate * (last - start) + c.burst * c.hz
  }

  ghost predicate WithinRate(c: Config, t0: nat, s: State, actions: seq<Action>, f: nat) {
    f < |s.throughput| && Bounded(c, t0, s.tpStart, LastTurn(actions, t0), Resets(actions), Charged(actions, f),
                                  s.throughput[f])
  }

  /** Everything charged so far, at any later time. */
  lemma BoundedTotal(c: Config, t0: nat, start: nat, last: nat, resets: nat, charged: nat, tp: nat, now: nat)
    requires Bounded(c, t0, start, last, resets, charged, tp) && last <= now
    ensures t0 <= now && charged * c.hz <= c.rate * (now - t0) + (resets + 1) * (c.burst * c.hz)
  {
    MulMonotone(0, resets, c.hz + 1);
    MulSplit(c.hz, charged - tp, tp);
    MulSplit(c.rate, start - t0, last - start);
    MulMonotone(last - t0, now - t0, c.rate);
    MulSplit(c.burst * c.hz, resets, 1);
  }

  /** Opening a new window keeps the bound, whatever part of a burst follows. */
  lemma BoundedReset(c: Config, t0: nat, start: nat, last: nat, resets: nat, charged: nat, tp: nat, now: nat,
                     count: nat)
    requires Bounded(c, t0, start, last, resets, charged, tp)
    requires last <= now && now - start > c.hz && count <= c.burst
    ensures Bounded(c, t0, now, now, resets + 1, charged + count, count)
  {
    BoundedTotal(c, t0, start, last, resets, charged, tp, now);
    assert (resets + 1) * (c.hz + 1) == resets * (c.hz + 1) + c.hz + 1;
    MulMonotone(count, c.burst, c.hz);
  }

  /** So does sending within a window when the count so far was not over the limit, and letting time pass. */
  lemma BoundedStay(c: Config, t0: nat, start: nat, last: nat, resets: nat, charged: nat, tp: nat, now: nat, count: nat)
    requires Bounded(c, t0, start, last, resets, charged, tp)
    requires last <= now && count <= c.burst
    requires count > 0 ==> tp * c.hz <= c.rate * (now - start)
    ensures Bounded(c, t0, start, now, resets, charged + count, tp + count)
  {
    MulSplit(c.hz, tp, count);
    MulMonotone(count, c.burst, c.hz);
    MulMonotone(last - start, now - start, c.rate);
  }

  /** One iteration, as counter f sees it. */
  lemma CounterStep(c: Config, s: State, i: Input, f: nat)
    requires Shape(c, s) && c.rateLimit && i.taken <= c.burst && f < |s.throughput|
    ensures var (s', a) := Step(c, s, i);
      if !a.Turn? then s'.throughput == s.throughput && s'.tpStart == s.tpStart
      else
        var count := if a.counter == f then Sent(a) else 0;
        && a.at == i.now && count <= c.burst && f < |s'.throughput| && a.reset == (i.now - s.tpStart > c.hz)
        && s'.tpStart == (if a.reset then i.now else s.tpStart)
        && s'.throughput[f] == (if a.reset then 0 else s.throughput[f]) + count
        && (!a.reset && count > 0 ==> s.throughput[f] * c.hz <= c.rate * (i.now - s.tpStart))
  {
  }

  lemma RateStep(c: Config, t0: nat, s: State, actions: seq<Action>, i: Input, f: nat)
    requires Shape(c, s) && c.rateLimit && f < c.flows && WithinRate(c, t0, s, actions, f)
    requires LastTurn(actions, t0) <= i.now && i.taken <= c.burst
    ensures var (s', a) := Step(c, s, i); WithinRate(c, t0, s', actions + [a], f)
  {
    CounterStep(c, s, i, f);
    var (s', a) := Step(c, s, i);
    assert (actions + [a])[..|actions|] == actions;
    if a.Turn? {
      var last, resets, charged := LastTurn(actions, t0), Resets(actions), Charged(actions, f);
      var count := if a.counter == f then Sent(a) else 0;
      if a.reset {
        BoundedReset(c, t0, s.tpStart, last, resets, charged, s.throughput[f], i.now, count);
      } else {
        BoundedStay(c, t0, s.tpStart, last, resets, charged, s.throughput[f], i.now, count);
      }
    }
  }

  lemma {:induction false} RunWithinRate(c: Config, t0: nat, seconds: nat, inputs: seq<Input>, f: nat)
    requires Sane(c) && c.dests == 1 && c.rateLimit && InputsFrom(c, t0, inputs) && f < c.flows
    ensures var (s, actions) := RunFrom(c, t0, seconds, inputs);
      WithinRate(c, t0, s, actions, f) && LastTurn(actions, t0) <= LastClock(t0, inputs)
    decreases |inputs|
  {
    if inputs != [] {
      RunExtends(c, t0, seconds, inputs);
      var n := |inputs| - 1;
      RunWithinRate(c, t0, seconds, inputs[..n], f);
      var (s, actions) := RunFrom(c, t0, seconds, inputs[..n]);
      RateStep(c, t0, s, actions, inputs[n], f);
    }
  }

  /** Nothing is sent after the deadline. */
  lemma {:induction false} NoTurnAfterDeadline(c: Config, t0: nat, seconds: nat, inputs: seq<Input>)
    requires Sane(c) && InputsFrom(c, t0, inputs) && seconds > 0
    ensures var (s, actions) := RunFrom(c, t0, seconds, inputs);
      && (s.canSend ==> s.startTime == t0 && s.duration == seconds * c.hz)
      && LastTurn(actions, t0) <= t0 + seconds * c.hz
    decreases |inputs|
  {
    MulAtLeast(c.hz, seconds);
    if inputs != [] {
      RunExtends(c, t0, seconds, inputs);
      var n := |inputs| - 1;
      NoTurnAfterDeadline(c, t0, seconds, inputs[..n]);
      var (s, actions) := RunFrom(c, t0, seconds, inputs[..n]);
      DeadlineStep(c, t0, seconds * c.hz, s, actions, inputs[n]);
    }
  }

  lemma DeadlineStep(c: Config, t0: nat, span: nat, s: State, actions: seq<Action>, i: Input)
    requires Shape(c, s) && i.taken <= c.burst && span > 0
    requires s.canSend ==> s.startTime == t0 && s.duration == span
    requires LastTurn(actions, t0) <= t0 + span
    ensures var (s', a) := Step(c, s, i);
      && (s'.canSend ==> s'.startTime == t0 && s'.duration == span)
      && LastTurn(actions + [a], t0) <= t0 + span
  {
    var (s', a) := Step(c, s, i);
    assert (actions + [a])[..|actions|] == actions;
  }

  /** Over a whole run of D >= 1 seconds no flow sends more than D * (rate + burst) packets; more precisely,
      rate times the sending time plus one burst for each window. */
  lemma WholeRunRateBound(c: Config, t0: nat, seconds: nat, inputs: seq<Input>, f: nat)
    requires Sane(c) && c.dests == 1 && c.rateLimit && InputsFrom(c, t0, inputs) && f < c.flows
    ensures var (s, actions) := RunFrom(c, t0, seconds, inputs);
      var charged, span, windows := Charged(actions, f), LastTurn(actions, t0) - t0, Resets(actions) + 1;
      && charged * c.hz <= c.rate * span + windows * (c.burst * c.hz)
      && (windows - 1) * (c.hz + 1) <= span
      && (seconds > 0 ==> charged <= seconds * (c.rate + c.burst))
  {
    RunWithinRate(c, t0, seconds, inputs, f);
    var (s, actions) := RunFrom(c, t0, seconds, inputs);
    var charged, last, resets := Charged(actions, f), LastTurn(actions, t0), Resets(actions);
    BoundedTotal(c, t0, s.tpStart, last, resets, charged, s.throughput[f], last);
    if seconds > 0 {
      NoTurnAfterDeadline(c, t0, seconds, inputs);
      CloseRun(c.hz, c.rate, c.burst, charged, resets, last - t0, seconds);
    }
  }

  lemma CloseRun(hz: nat, rate: nat, burst: nat, charged: nat, resets: nat, span: nat, seconds: nat)
    requires hz > 0 && seconds > 0 && span <= seconds * hz && resets * (hz + 1) <= span
    requires charged * hz <= rate * span + (resets + 1) * (burst * hz)
    ensures charged <= seconds * (rate + burst)
  {
    FewResets(hz, resets, span, seconds);
    MulMonotone(span, seconds * hz, rate);
    MulMonotone(resets + 1, seconds, burst * hz);
    Regroup(seconds, rate, burst, hz);
    MulCancel(charged, seconds * (rate + burst), hz);
  }

  lemma Regroup(seconds: nat, rate: nat, burst: nat, hz: nat)
    ensures (seconds * hz) * rate + seconds * (burst * hz) == (seconds * (rate + burst)) * hz
  {
  }

  lemma FewResets(hz: nat, resets: nat, span: nat, seconds: nat)
    requires seconds > 0 && span <= seconds * hz && resets * (hz + 1) <= span
    ensures resets < seconds
  {
    if resets >= seconds {
      MulMonotone(seconds, resets, hz + 1);
      MulSplit(seconds, hz, 1);
    }
  }

  /** The same bound for what actually leaves towards one port, also as the 16-bit port in the frames. */
  lemma PortRateBound(c: Config, t0: nat, seconds: nat, inputs: seq<Input>, f: nat)
    requires Sane(c) && c.dests == 1 && c.rateLimit && seconds > 0 && InputsFrom(c, t0, inputs) && f < c.flows
    ensures SentTo(RunFrom(c, t0, seconds, inputs).1, c.basePort + PortOffset(c, f)) <= seconds * (c.rate + c.burst)
    ensures c.flows <= U16 ==>
      SentOnWire(RunFrom(c, t0, seconds, inputs).1, WirePort(c, f)) <= seconds * (c.rate + c.burst)
  {
    Rotation(c, t0, seconds, inputs);
    PortIsOneCounter(c, RunFrom(c, t0, seconds, inputs).1, f);
    WholeRunRateBound(c, t0, seconds, inputs, f);
  }

  // ----- buffers and the reported totals

  /** Packets sent, packets freed, and bursts allocated. */
  function Totals(actions: seq<Action>): (nat, nat, nat) {
    if actions == [] then (0, 0, 0)
    else
      var a, (sent, freed, bursts) := actions[|actions| - 1], Totals(actions[..|actions| - 1]);
      if a.Turn? && a.outcome.Sent? then (sent + a.outcome.count, freed + a.outcome.freed, bursts + 1)
      else (sent, freed, bursts)
  }

  /** Packets sent, and freed, in iterations whose clock read t. */
  function TotalsAt(actions: seq<Action>, t: nat): (nat, nat) {
    if actions == [] then (0, 0)
    else
      var a, (sent, freed) := actions[|actions| - 1], TotalsAt(actions[..|actions| - 1], t);
      if a.Turn? && a.outcome.Sent? && a.at == t then (sent + a.outcome.count, freed + a.outcome.freed)
      else (sent, freed)
  }

  ghost predicate Accounted(c: Config, t0: nat, s: State, actions: seq<Action>) {
    var ((sent, freed, bursts), (sent0, freed0)) := (Totals(actions), TotalsAt(actions, t0));
    && (s.canSend ==> s.startTime == t0)
    && sent + freed == c.burst * bursts
    && s.totalSent + sent0 == sent
    && s.failedToPush + freed0 == freed
  }

  lemma AccountStep(c: Config, t0: nat, s: State, actions: seq<Action>, i: Input)
    requires Shape(c, s) && Accounted(c, t0, s, actions) && t0 <= i.now && i.taken <= c.burst
    ensures var (s', a) := Step(c, s, i); Accounted(c, t0, s', actions + [a])
  {
    assert (actions + [Step(c, s, i).1])[..|actions|] == actions;
    MulSplit(c.burst, Totals(actions).2, 1);
  }

  /** Every buffer of every burst is either sent or freed; and the reported totals are those numbers less what
      happened while the clock still read the start time. */
  lemma {:induction false} BuffersAndTotals(c: Config, t0: nat, seconds: nat, inputs: seq<Input>)
    requires Sane(c) && InputsFrom(c, t0, inputs)
    ensures var (s, actions) := RunFrom(c, t0, seconds, inputs);
      Accounted(c, t0, s, actions)
    decreases |inputs|
  {
    if inputs != [] {
      RunExtends(c, t0, seconds, inputs);
      var n := |inputs| - 1;
      BuffersAndTotals(c, t0, seconds, inputs[..n]);
      var (s, actions) := RunFrom(c, t0, seconds, inputs[..n]);
      AccountStep(c, t0, s, actions, inputs[n]);
    }
  }

  /** So `Tx` reports the packets sent exactly when none was sent at the very start time. */
  lemma TxReportExact(c: Config, t0: nat, seconds: nat, inputs: seq<Input>)
    requires Sane(c) && InputsFrom(c, t0, inputs)
    ensures var (s, actions) := RunFrom(c, t0, seconds, inputs);
      s.totalSent == Totals(actions).0 <==> TotalsAt(actions, t0).0 == 0
  {
    BuffersAndTotals(c, t0, seconds, inputs);
  }

  /** It does happen: a burst sent before the clock moves is in no total. */
  lemma UnreportedPacket(c: Config, t0: nat, seconds: nat) returns (inputs: seq<Input>)
    requires Sane(c) && c.burst > 0
    ensures InputsFrom(c, t0, inputs)
    ensures var (s, actions) := RunFrom(c, t0, seconds, inputs); s.totalSent == 0 && Totals(actions).0 == c.burst
  {
    inputs := [Input(t0, t0, true, c.burst)];
    RunExtends(c, t0, seconds, inputs);
    assert inputs[..|inputs| - 1] == [];
    var before := RunFrom(c, t0, seconds, inputs[..|inputs| - 1]);
    assert before.0 == Initial(c, t0, seconds) && before.1 == [];
    var s, a := FirstBurst(c, t0, seconds, inputs[0]);
    assert before.1 + [a] == [a];
    OneTotal(a);
  }

  lemma FirstBurst(c: Config, t0: nat, seconds: nat, i: Input) returns (s: State, a: Action)
    requires Sane(c) && i == Input(t0, t0, true, c.burst)
    ensures Shape(c, Initial(c, t0, seconds)) && (s, a) == Step(c, Initial(c, t0, seconds), i)
    ensures s.totalSent == 0 && a.Turn? && a.outcome.Sent? && a.outcome.count == c.burst
  {
    InitialShape(c, t0, seconds);
    var r := Step(c, Initial(c, t0, seconds), i);
    s, a := r.0, r.1;
  }

  lemma OneTotal(a: Action)
    requires a.Turn? && a.outcome.Sent?
    ensures Totals([a]).0 == a.outcome.count
  {
    assert [a][..0] == [];
  }

  /** The state is that of a drain begun at clock t1, halted just when the clock is two seconds past it. */
  ghost predicate Draining(c: Config, s: State, t1: nat, now: nat) {
    && !s.canSend && !s.aborted && s.startTime == t1 && s.duration == 2 * c.hz
    && (s.halted <==> now > t1 + 2 * c.hz)
  }

  /** As long as the loop may send, the deadline is the configured one. */
  lemma DeadlinePassed(c: Config, t0: nat, seconds: nat, inputs: seq<Input>)
    requires Sane(c) && c.dests == 1 && InputsFrom(c, t0, inputs) && seconds > 0
    requires RunFrom(c, t0, seconds, inputs).0.canSend
    ensures var s := RunFrom(c, t0, seconds, inputs).0;
      !s.halted && !s.aborted && s.duration > 0 && s.startTime + s.duration == t0 + seconds * c.hz
  {
    Rotation(c, t0, seconds, inputs);
    NoTurnAfterDeadline(c, t0, seconds, inputs);
    MulAtLeast(c.hz, seconds);
  }

  lemma DrainBegins(c: Config, s: State, i: Input)
    requires Shape(c, s) && s.canSend && !s.halted && !s.aborted && i.now <= i.again && i.taken <= c.burst
    requires s.duration > 0 && i.now > s.startTime + s.duration
    ensures Draining(c, Step(c, s, i).0, i.again, i.now)
  {
  }

  lemma DrainStep(c: Config, s: State, t1: nat, before: nat, i: Input)
    requires Shape(c, s) && Draining(c, s, t1, before) && before <= i.now && i.taken <= c.burst
    ensures Draining(c, Step(c, s, i).0, t1, i.now)
  {
  }

  /** Once iteration j reads a clock past the deadline, every later iteration m finds the loop draining, and it
      has ended exactly if the clock is then more than two seconds past the reading that started the drain. */
  lemma {:induction false} DrainEnds(c: Config, t0: nat, seconds: nat, inputs: seq<Input>, j: nat)
    requires Sane(c) && c.dests == 1 && InputsFrom(c, t0, inputs) && seconds > 0 && j < |inputs|
    requires inputs[j].now > t0 + seconds * c.hz && RunFrom(c, t0, seconds, inputs[..j]).0.canSend
    ensures Draining(c, RunFrom(c, t0, seconds, inputs).0, inputs[j].again, LastClock(t0, inputs))
    decreases |inputs|
  {
    var n := |inputs| - 1;
    RunExtends(c, t0, seconds, inputs);
    if n == j {
      DeadlinePassed(c, t0, seconds, inputs[..j]);
      DrainBegins(c, RunFrom(c, t0, seconds, inputs[..j]).0, inputs[j]);
    } else {
      assert inputs[..n][..j] == inputs[..j];
      DrainEnds(c, t0, seconds, inputs[..n], j);
      DrainStep(c, RunFrom(c, t0, seconds, inputs[..n]).0, inputs[j].again, LastClock(t0, inputs[..n]), inputs[n]);
    }
  }

  // ----- what every iteration must do

  /** When the current window was opened, by the record of the run. */
  function WindowStart(actions: seq<Action>, t0: nat): nat {
    if actions == [] then t0
    else
      var a := actions[|actions| - 1];
      if a.Turn? && a.reset then a.at else WindowStart(actions[..|actions| - 1], t0)
  }

  /** Packets of flow f sent in the current window. */
  function WindowCharged(actions: seq<Action>, f: nat): nat {
    if actions == [] then 0
    else
      var a := actions[|actions| - 1];
      var own := if a.Turn? && a.counter == f then Sent(a) else 0;
      if a.Turn? && a.reset then own else WindowCharged(actions[..|actions| - 1], f) + own
  }

  /** Sending iteration a does what is due after the iterations `before`: it opens a new window just when the current
      one is older than a second; it is held back just when there is a limit and its flow has sent more in the window
      than the rate allows; otherwise it sends, unless there are no buffers, what the NIC takes, and frees the rest. */
  ghost predicate AsDue(c: Config, t0: nat, before: seq<Action>, i: Input, a: Action)
    requires a.Turn?
  {
    var start := WindowStart(before, t0);
    var charged := if a.reset then 0 else WindowCharged(before, a.counter);
    && a.at == i.now
    && (a.reset <==> i.now - start > c.hz)
    && (a.outcome.Limited? <==> c.rateLimit && charged * c.hz > c.rate * (i.now - start))
    && (a.outcome.NoBuffers? <==> !a.outcome.Limited? && !i.buffers)
    && (a.outcome.Sent? ==> a.outcome.count == i.taken && a.outcome.count + a.outcome.freed == c.burst)
  }

  /** The state holds what the record says. */
  ghost predicate WindowKnown(t0: nat, s: State, actions: seq<Action>) {
    && s.tpStart == WindowStart(actions, t0)
    && forall f | 0 <= f < |s.throughput| :: s.throughput[f] == WindowCharged(actions, f)
  }

  lemma DueStep(c: Config, t0: nat, s: State, actions: seq<Action>, i: Input)
    requires Shape(c, s) && i.taken <= c.burst && WindowKnown(t0, s, actions) && s.tpStart <= i.now
    ensures var a := Step(c, s, i).1; a.Turn? ==> AsDue(c, t0, actions, i, a)
  {
    var a := Step(c, s, i).1;
    if a.Turn? && a.reset {
      MulMonotone(0, i.now - s.tpStart, c.rate);
    }
  }

  lemma KnownStep(c: Config, t0: nat, s: State, actions: seq<Action>, i: Input)
    requires Shape(c, s) && i.taken <= c.burst && WindowKnown(t0, s, actions)
    ensures var (s', a) := Step(c, s, i); WindowKnown(t0, s', actions + [a])
  {
    var a := Step(c, s, i).1;
    assert (actions + [a])[..|actions|] == actions;
  }

  lemma {:induction false} RunKnown(c: Config, t0: nat, seconds: nat, inputs: seq<Input>)
    requires Sane(c) && InputsFrom(c, t0, inputs)
    ensures var (s, actions) := RunFrom(c, t0, seconds, inputs);
      WindowKnown(t0, s, actions) && s.tpStart <= LastClock(t0, inputs)
    decreases |inputs|
  {
    if inputs != [] {
      RunExtends(c, t0, seconds, inputs);
      var n := |inputs| - 1;
      RunKnown(c, t0, seconds, inputs[..n]);
      var (s, actions) := RunFrom(c, t0, seconds, inputs[..n]);
      KnownStep(c, t0, s, actions, inputs[n]);
      StartNotLater(c, s, inputs[n]);
    }
  }

  lemma StartNotLater(c: Config, s: State, i: Input)
    requires Shape(c, s) && i.taken <= c.burst && s.tpStart <= i.now
    ensures Step(c, s, i).0.tpStart <= i.now
  {
  }

  lemma {:induction false} RunPrefix(c: Config, t0: nat, seconds: nat, inputs: seq<Input>, n: nat)
    requires Sane(c) && InputsFrom(c, t0, inputs) && n <= |inputs|
    ensures RunFrom(c, t0, seconds, inputs[..n]).1 == RunFrom(c, t0, seconds, inputs).1[..n]
    decreases |inputs|
  {
    if n == |inputs| {
      assert inputs[..n] == inputs;
    } else {
      var m := |inputs| - 1;
      RunExtends(c, t0, seconds, inputs);
      assert inputs[..m][..n] == inputs[..n];
      RunPrefix(c, t0, seconds, inputs[..m], n);
    }
  }

  /** Iteration k of a run is a step from where the first k iterations have led. */
  lemma StepOfRun(c: Config, t0: nat, seconds: nat, inputs: seq<Input>, k: nat) returns (s: State, before: seq<Action>)
    requires Sane(c) && InputsFrom(c, t0, inputs) && k < |inputs|
    ensures InputsFrom(c, t0, inputs[..k]) && (s, before) == RunFrom(c, t0, seconds, inputs[..k])
    ensures before == RunFrom(c, t0, seconds, inputs).1[..k]
    ensures RunFrom(c, t0, seconds, inputs).1[k] == Step(c, s, inputs[k]).1
    ensures LastClock(t0, inputs[..k]) <= inputs[k].now && inputs[k].taken <= c.burst
  {
    RunPrefix(c, t0, seconds, inputs, k);
    RunPrefix(c, t0, seconds, inputs, k + 1);
    assert inputs[..k + 1][..k] == inputs[..k];
    RunExtends(c, t0, seconds, inputs[..k + 1]);
    var r := RunFrom(c, t0, seconds, inputs[..k]);
    s, before := r.0, r.1;
  }

  /** In every run, limited or not, every sending iteration does exactly what is due. */
  lemma EveryTurnAsDue(c: Config, t0: nat, seconds: nat, inputs: seq<Input>, k: nat)
    requires Sane(c) && InputsFrom(c, t0, inputs) && k < |inputs|
    ensures var actions := RunFrom(c, t0, seconds, inputs).1;
      actions[k].Turn? ==> AsDue(c, t0, actions[..k], inputs[k], actions[k])
  {
    var s, before := StepOfRun(c, t0, seconds, inputs, k);
    RunKnown(c, t0, seconds, inputs[..k]);
    DueStep(c, t0, s, before, inputs[k]);
  }

  /** Without a limit no iteration is held back. */
  lemma UnlimitedSends(c: Config, t0: nat, seconds: nat, inputs: seq<Input>, k: nat)
    requires Sane(c) && InputsFrom(c, t0, inputs) && k < |inputs| && !c.rateLimit
    ensures var a := RunFrom(c, t0, seconds, inputs).1[k];
      a.Turn? ==>
        if inputs[k].buffers then a.outcome.Sent? && a.outcome.count == inputs[k].taken else a.outcome.NoBuffers?
  {
    EveryTurnAsDue(c, t0, seconds, inputs, k);
  }

  /** The clock has passed the deadline, if there is one. */
  predicate PastDeadline(c: Config, t0: nat, seconds: nat, now: nat) {
    seconds > 0 && now > t0 + seconds * c.hz
  }

  ghost predicate Open(c: Config, t0: nat, seconds: nat, s: State, now: nat) {
    && !s.aborted && s.selectedDst == 0
    && (s.canSend <==> !PastDeadline(c, t0, seconds, now))
    && (s.canSend ==> !s.halted && s.startTime == t0 && s.duration == seconds * c.hz)
  }

  lemma OpenStep(c: Config, t0: nat, seconds: nat, s: State, before: nat, i: Input)
    requires Shape(c, s) && c.dests == 1 && i.taken <= c.burst && Open(c, t0, seconds, s, before) && before <= i.now
    requires seconds > 0 ==> seconds * c.hz > 0
    ensures var (s', a) := Step(c, s, i);
      Open(c, t0, seconds, s', i.now) && (a.Turn? <==> !PastDeadline(c, t0, seconds, i.now))
  {
    assert seconds == 0 ==> seconds * c.hz == 0;
  }

  lemma {:induction false} RunOpen(c: Config, t0: nat, seconds: nat, inputs: seq<Input>)
    requires Sane(c) && c.dests == 1 && InputsFrom(c, t0, inputs)
    ensures Open(c, t0, seconds, RunFrom(c, t0, seconds, inputs).0, LastClock(t0, inputs))
    decreases |inputs|
  {
    if seconds > 0 { MulAtLeast(c.hz, seconds); }
    if inputs != [] {
      RunExtends(c, t0, seconds, inputs);
      var n := |inputs| - 1;
      RunOpen(c, t0, seconds, inputs[..n]);
      OpenStep(c, t0, seconds, RunFrom(c, t0, seconds, inputs[..n]).0, LastClock(t0, inputs[..n]), inputs[n]);
    }
  }

  /** With one destination an iteration is a sending one exactly when the deadline has not passed. */
  lemma TurnsUntilDeadline(c: Config, t0: nat, seconds: nat, inputs: seq<Input>, k: nat)
    requires Sane(c) && c.dests == 1 && InputsFrom(c, t0, inputs) && k < |inputs|
    ensures RunFrom(c, t0, seconds, inputs).1[k].Turn? <==> !PastDeadline(c, t0, seconds, inputs[k].now)
  {
    var s, before := StepOfRun(c, t0, seconds, inputs, k);
    RunOpen(c, t0, seconds, inputs[..k]);
    if seconds > 0 { MulAtLeast(c.hz, seconds); }
    OpenStep(c, t0, seconds, s, LastClock(t0, inputs[..k]), inputs[k]);
  }
}
