/** The transmit loop of the client (client.c:227-371): flow rotation, the resetting rate window, buffer
    accounting and the stop/drain phase. The clock, buffer allocation and the NIC are inputs. */
module Transmit {
  import opened Arith
  import opened Wire

  datatype Config = Config(
    flows: nat,        // count_flow
    queues: nat,       // count_queues
    qid: nat,
    basePort: nat,
    dests: nat,        // count_dst_ip
    burst: nat,
    rateLimit: bool,
    rate: nat,         // packets per second and flow
    hz: nat)

  ghost predicate Sane(c: Config) {
    c.flows > 0 && c.queues > 0 && c.dests > 0 && c.hz > 0
  }

  /** What one iteration reads from outside: the clock at the top, the clock again if the deadline has passed,
      whether buffers could be had, and how many packets the NIC took. */
  datatype Input = Input(now: nat, again: nat, buffers: bool, taken: nat)

  datatype Outcome = Limited | NoBuffers | Sent(count: nat, freed: nat)

  datatype Action =
    | Turn(port: nat, queue: nat, counter: nat, reset: bool, at: nat, outcome: Outcome)
    | Drain
    | Halt
    | Abort  // assert(selected_dst == 0)

  datatype State = State(
    startTime: nat, duration: nat, canSend: bool, halted: bool, aborted: bool,
    dstPort: nat, selectedDst: nat, flow: nat,
    throughput: seq<nat>, tpStart: nat, totalSent: nat, failedToPush: nat)

  function Initial(c: Config, t0: nat, seconds: nat): State {
    State(t0, seconds * c.hz, true, false, false, c.basePort, 0, 0,
          seq(c.dests * c.flows, _ => 0), t0, 0, 0)
  }

  ghost predicate Shape(c: Config, s: State) {
    && Sane(c)
    && |s.throughput| == c.dests * c.flows && s.flow < c.dests * c.flows
    && c.basePort <= s.dstPort < c.basePort + c.flows
    && s.selectedDst < c.dests
    && (s.selectedDst == 0 ==> s.flow == s.dstPort - c.basePort)
  }

  // ----- one iteration

  function NextPort(c: Config, port: nat): nat {
    if port + 1 >= c.basePort + c.flows then c.basePort else port + 1
  }

  /** The slot of a flow in throughput[] and flow_q[]. */
  function FlowIndex(c: Config, dst: nat, port: nat): (f: nat)
    requires dst < c.dests && c.basePort <= port < c.basePort + c.flows
    ensures f < c.dests * c.flows && (dst == 0 ==> f == port - c.basePort)
  {
    SlotInRange(dst, c.dests, c.flows, port - c.basePort);
    dst * c.flows + (port - c.basePort)
  }

  lemma SlotInRange(dst: nat, dests: nat, flows: nat, offset: nat)
    requires dst < dests && offset < flows
    ensures dst * flows + offset < dests * flows
  {
    MulMonotone(dst + 1, dests, flows);
    MulSplit(flows, dst, 1);
  }

  /** throughput > tp_limit * (delta / hz), without the division. */
  predicate OverLimit(c: Config, count: nat, delta: int) {
    c.rateLimit && count * c.hz > c.rate * delta
  }

  function Step(c: Config, s: State, i: Input): (r: (State, Action))
    requires Shape(c, s) && i.taken <= c.burst
    ensures Shape(c, r.0)
  {
    var late := s.duration > 0 && i.now > s.startTime + s.duration;
    if s.halted || s.aborted then (s, Halt)
    else if late && !s.canSend then (s.(halted := true), Halt)
    else if late then (s.(canSend := false, startTime := i.again, duration := 2 * c.hz), Drain)
    else if !s.canSend then (s, Drain)
    else if s.selectedDst != 0 then (s.(aborted := true), Abort)
    else Transmission(c, s, i)
  }

  /** A sending iteration: rotate, maybe open a new window, then send unless over the limit. */
  function Transmission(c: Config, s: State, i: Input): (r: (State, Action))
    requires Shape(c, s) && i.taken <= c.burst
    ensures Shape(c, r.0)
  {
    var queue := (c.qid + s.flow % c.queues) % U16;
    var port, dst, counter := NextPort(c, s.dstPort), (s.selectedDst + 1) % c.dests, s.flow;
    var delta := i.now - s.tpStart;
    var reset := delta > c.hz;
    var tp := if reset then seq(|s.throughput|, _ => 0) else s.throughput;
    var s1 := s.(dstPort := port, selectedDst := dst, flow := FlowIndex(c, dst, port),
                 throughput := tp, tpStart := if reset then i.now else s.tpStart);
    if OverLimit(c, tp[counter], delta) then
      (s1, Turn(port, queue, counter, reset, i.now, Limited))
    else if !i.buffers then
      (s1, Turn(port, queue, counter, reset, i.now, NoBuffers))
    else
      var counts := i.now > s.startTime;
      (s1.(throughput := tp[counter := tp[counter] + i.taken],
           totalSent := s.totalSent + if counts then i.taken else 0,
           failedToPush := s.failedToPush + if counts then c.burst - i.taken else 0),
       Turn(port, queue, counter, reset, i.now, Sent(i.taken, c.burst - i.taken)))
  }

  /** The loop as the source writes it, over fields updated in place. */
  class Transmitter {
    const c: Config
    var startTime: nat
    var duration: nat
    var canSend: bool
    var halted: bool
    var aborted: bool
    var dstPort: nat
    var selectedDst: nat
    var flow: nat
    var flowQueue: array<nat>
    var throughput: array<nat>
    var tpStart: nat
    var totalSent: nat
    var failedToPush: nat

    ghost function View(): State
      reads this, throughput
    {
      State(startTime, duration, canSend, halted, aborted, dstPort, selectedDst, flow,
            throughput[..], tpStart, totalSent, failedToPush)
    }

    ghost predicate Valid()
      reads this, throughput, flowQueue
    {
      && Shape(c, View()) && throughput != flowQueue
      && flowQueue.Length == c.dests * c.flows
      && forall i | 0 <= i < flowQueue.Length :: flowQueue[i] == (c.qid + i % c.queues) % U16
    }

    constructor (c: Config, t0: nat, seconds: nat)
      requires Sane(c)
      ensures Valid() && this.c == c && fresh(throughput) && fresh(flowQueue)
      ensures View() == Initial(c, t0, seconds)
    {
      this.c := c;
      startTime, tpStart, duration := t0, t0, seconds * c.hz;
      canSend, halted, aborted := true, false, false;
      dstPort, selectedDst, flow := c.basePort, 0, 0;
      totalSent, failedToPush := 0, 0;
      var size := c.dests * c.flows;
      assert size >= 1 by { MulAtLeast(c.flows, c.dests); }
      flowQueue := new nat[size](i => (c.qid + i % c.queues) % U16);
      throughput := new nat[size](_ => 0);
      new;
      assert throughput[..] == seq(size, _ => 0);
    }

    /** The loop that clears the counters of a finished window. */
    method ClearCounters()
      modifies throughput
      ensures throughput[..] == seq(throughput.Length, _ => 0)
    {
      for i := 0 to throughput.Length
        invariant forall j | 0 <= j < i :: throughput[j] == 0
      {
        throughput[i] := 0;
      }
    }

    /** Select the next port, destination and flow. */
    method Rotate()
      requires Shape(c, View())
      modifies `dstPort, `selectedDst, `flow
      ensures dstPort == NextPort(c, old(dstPort)) && selectedDst == (old(selectedDst) + 1) % c.dests
      ensures flow == FlowIndex(c, selectedDst, dstPort)
    {
      dstPort := dstPort + 1;
      if dstPort >= c.basePort + c.flows {
        dstPort := c.basePort;
      }
      selectedDst := (selectedDst + 1) % c.dests;
      flow := selectedDst * c.flows + (dstPort - c.basePort);
    }

    method Iterate(i: Input) returns (a: Action)
      requires Valid() && tpStart <= i.now && i.taken <= c.burst
      modifies this, throughput
      ensures Valid() && throughput == old(throughput) && flowQueue == old(flowQueue)
      ensures (View(), a) == Step(c, old(View()), i)
    {
      if halted || aborted {
        return Halt;
      }
      if duration > 0 && i.now > startTime + duration {
        if canSend {
          canSend := false;
          startTime := i.again;
          duration := 2 * c.hz;
        } else {
          halted := true;
          return Halt;
        }
      }
      if !canSend {
        return Drain;
      }
      var selectedQ := flowQueue[flow];
      if selectedDst != 0 {
        aborted := true;
        return Abort;
      }
      a := SendTurn(i, selectedQ);
    }

    /** Start a new window when more than one second has passed since the last start. */
    method OpenWindow(now: nat) returns (reset: bool)
      modifies throughput, `tpStart
      ensures reset == (now - old(tpStart) > c.hz)
      ensures tpStart == if reset then now else old(tpStart)
      ensures throughput[..] == if reset then seq(throughput.Length, _ => 0) else old(throughput[..])
    {
      reset := now - tpStart > c.hz;
      if reset {
        ClearCounters();
        tpStart := now;
      }
    }

    /** Hand the burst to the NIC, count it, and free what the NIC did not take. */
    method Push(i: Input, curFlow: nat) returns (freed: nat)
      requires i.taken <= c.burst && curFlow < throughput.Length
      modifies throughput, `totalSent, `failedToPush
      ensures freed == c.burst - i.taken
      ensures throughput[..] == old(throughput[..])[curFlow := old(throughput[curFlow]) + i.taken]
      ensures totalSent == old(totalSent) + if i.now > startTime then i.taken else 0
      ensures failedToPush == old(failedToPush) + if i.now > startTime then c.burst - i.taken else 0
    {
      if i.now > startTime {
        totalSent := totalSent + i.taken;
        failedToPush := failedToPush + (c.burst - i.taken);
      }
      freed := 0;
      for k := i.taken to c.burst
        invariant freed == k - i.taken
      {
        freed := freed + 1;
      }
      throughput[curFlow] := throughput[curFlow] + i.taken;
    }

    method SendTurn(i: Input, queue: nat) returns (a: Action)
      requires Valid() && tpStart <= i.now && i.taken <= c.burst && selectedDst == 0
      requires queue == flowQueue[flow]
      modifies this, throughput
      ensures Valid() && throughput == old(throughput) && flowQueue == old(flowQueue)
      ensures (View(), a) == Transmission(c, old(View()), i)
    {
      var curFlow := flow;
      Rotate();
      var delta := i.now - tpStart;
      var reset := OpenWindow(i.now);
      if OverLimit(c, throughput[curFlow], delta) {
        return Turn(dstPort, queue, curFlow, reset, i.now, Limited);
      }
      if !i.buffers {
        return Turn(dstPort, queue, curFlow, reset, i.now, NoBuffers);
      }
      var freed := Push(i, curFlow);
      a := Turn(dstPort, queue, curFlow, reset, i.now, Sent(i.taken, freed));
    }

    /** The whole loop, over the inputs of its iterations. */
    method Loop(inputs: seq<Input>) returns (actions: seq<Action>)
      requires Valid() && InputsFrom(c, tpStart, inputs)
      modifies this, throughput
      ensures Valid() && (View(), actions) == Run(c, old(View()), inputs)
    {
      actions := [];
      for k := 0 to |inputs|
        invariant Valid() && throughput == old(throughput) && flowQueue == old(flowQueue)
        invariant (View(), actions) == Run(c, old(View()), inputs[..k])
        invariant tpStart <= LastClock(old(tpStart), inputs[..k])
      {
        assert inputs[..k + 1][..k] == inputs[..k];
        var a := Iterate(inputs[k]);
        actions := actions + [a];
      }
      assert inputs[..|inputs|] == inputs;
    }
  }

  // ----- runs

  /** The clock never goes back and the NIC takes no more than it is given. */
  ghost predicate InputsFrom(c: Config, t0: nat, inputs: seq<Input>) {
    && (forall k | 0 <= k < |inputs| :: t0 <= inputs[k].now <= inputs[k].again && inputs[k].taken <= c.burst)
    && (forall j, k | 0 <= j < k < |inputs| :: inputs[j].again <= inputs[k].now)
  }

  function LastClock(t0: nat, inputs: seq<Input>): nat {
    if inputs == [] then t0 else inputs[|inputs| - 1].now
  }

  ghost function Run(c: Config, s: State, inputs: seq<Input>): (r: (State, seq<Action>))
    requires Shape(c, s) && forall i <- inputs :: i.taken <= c.burst
    ensures Shape(c, r.0) && |r.1| == |inputs|
  {
    if inputs == [] then (s, [])
    else
      var n := |inputs| - 1;
      var (s', actions) := Run(c, s, inputs[..n]);
      var (s'', a) := Step(c, s', inputs[n]);
      (s'', actions + [a])
  }
}
