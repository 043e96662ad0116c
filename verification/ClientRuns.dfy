/** The client's loop in its surroundings: whatever the server and the network do between its steps, the loop of
    Latency.LatencyClient is a run of the transition system, so what is proved of runs is proved of the loop. */
module ClientRuns {
  import opened Latency
  import opened StopAndWait
  import opened BatchPromise

  // ----- states in which the contents are as they should be

  ghost predicate At(s: State) { true }

  /** Content(c, s), unfolded where At(s) is mentioned. */
  ghost predicate Good(c: Config, s: State) {
    forall t: State {:trigger At(t)} :: At(t) && t == s ==> Content(c, t)
  }

  lemma StepGood(c: Config, s: State, a: Action)
    requires Enabled(c, s, a) && Good(c, s)
    ensures Good(c, Next(c, s, a))
  {
    assert At(s);
    StepContent(c, s, a);
  }

  lemma GoodStart(c: Config)
    requires Sane(c)
    ensures Good(c, Start)
  {
    StartContent(c);
  }

  lemma GoodEchoes(c: Config, s: State)
    requires Good(c, s)
    ensures forall i | 0 <= i < |s.toClient| :: |s.toClient[i]| >= 50
    ensures Sane(c)
  {
    assert At(s);
    LongEchoes(c, s);
  }

  // ----- runs and what they cost

  /** Buffers neither sent nor freed, and whether packets were given up while still counted. */
  datatype Ledger = Ledger(kept: nat, gaveUp: bool)

  const Clear := Ledger(0, false)

  function Sum(a: Ledger, b: Ledger): Ledger {
    Ledger(a.kept + b.kept, a.gaveUp || b.gaveUp)
  }

  /** A step releases at most what it obtains. */
  function StepLedger(c: Config, s: State, a: Action): Ledger {
    Ledger(if Releases(a) <= Obtains(c, a) then Obtains(c, a) - Releases(a) else 0, GivesUp(s, a))
  }

  /** These steps lead from s to t and cost `cost`; unfolded where At(s) is mentioned. */
  ghost predicate Leads(c: Config, s: State, t: State, cost: Ledger, states: seq<State>, actions: seq<Action>) {
    forall z: State {:trigger At(z)} :: At(z) && z == s ==> LeadsTo(c, z, t, cost, states, actions)
  }

  ghost predicate LeadsTo(c: Config, s: State, t: State, cost: Ledger, states: seq<State>, actions: seq<Action>) {
    && Steps(c, states, actions) && states[0] == s && states[|actions|] == t
    && Obtained(c, actions) - Released(actions) == cost.kept
    && (cost.gaveUp <==> exists i :: 0 <= i < |actions| && GivesUp(states[i], actions[i]))
  }

  lemma NoSteps(c: Config, s: State)
    ensures Leads(c, s, s, Clear, [s], [])
  {
  }

  lemma Before(c: Config, s: State, a: Action, s': State, t: State, cost: Ledger, more: seq<State>, acts: seq<Action>)
      returns (states: seq<State>, actions: seq<Action>)
    requires Enabled(c, s, a) && s' == Next(c, s, a) && Leads(c, s', t, cost, more, acts)
    ensures Leads(c, s, t, Sum(StepLedger(c, s, a), cost), states, actions) && |actions| == |acts| + 1
    ensures actions == [a] + acts && states == [s] + more
  {
    assert At(s');
    states, actions := Prepend(c, s, a, more, acts);
    TidyStep(c, s, a);
    assert actions[1..] == acts;
    GaveUpBefore(s, a, more, acts);
  }

  lemma OneStep(c: Config, s: State, a: Action, t: State, cost: Ledger)
      returns (states: seq<State>, actions: seq<Action>)
    requires Enabled(c, s, a) && t == Next(c, s, a) && cost == StepLedger(c, s, a)
    ensures Leads(c, s, t, cost, states, actions)
  {
    NoSteps(c, t);
    states, actions := Before(c, s, a, t, t, Clear, [t], []);
  }

  lemma GaveUpBefore(s: State, a: Action, more: seq<State>, acts: seq<Action>)
    requires |more| == |acts| + 1
    ensures (exists i :: 0 <= i < |acts| + 1 && GivesUp(([s] + more)[i], ([a] + acts)[i]))
       <==> GivesUp(s, a) || exists i :: 0 <= i < |acts| && GivesUp(more[i], acts[i])
  {
    var states, actions := [s] + more, [a] + acts;
    if i :| 0 <= i < |acts| && GivesUp(more[i], acts[i]) {
      assert GivesUp(states[i + 1], actions[i + 1]);
    }
    if i :| 0 <= i < |acts| + 1 && GivesUp(states[i], actions[i]) && i > 0 {
      assert GivesUp(more[i - 1], acts[i - 1]);
    }
    if GivesUp(s, a) {
      assert GivesUp(states[0], actions[0]);
    }
  }

  /** One run after the other. */
  lemma {:induction false} Chain(c: Config, s: State, m: State, t: State, cost: Ledger, cost': Ledger,
                                 states: seq<State>, actions: seq<Action>, states': seq<State>, actions': seq<Action>)
      returns (all: seq<State>, acts: seq<Action>)
    requires Leads(c, s, m, cost, states, actions) && Leads(c, m, t, cost', states', actions')
    ensures Leads(c, s, t, Sum(cost, cost'), all, acts)
    decreases |actions|
  {
    assert At(s);
    if actions == [] {
      all, acts := states', actions';
    } else {
      var first := Split(c, s, m, cost, states, actions);
      all, acts := Chain(c, states[1], m, t, first, cost', states[1..], actions[1..], states', actions');
      all, acts := Before(c, s, actions[0], states[1], t, Sum(first, cost'), all, acts);
    }
  }

  lemma Split(c: Config, s: State, m: State, cost: Ledger, states: seq<State>, actions: seq<Action>)
      returns (rest: Ledger)
    requires Leads(c, s, m, cost, states, actions) && actions != []
    ensures |states| == |actions| + 1
    ensures Enabled(c, s, actions[0]) && states[1] == Next(c, s, actions[0])
    ensures Leads(c, states[1], m, rest, states[1..], actions[1..])
    ensures cost == Sum(StepLedger(c, s, actions[0]), rest)
  {
    assert At(s);
    assert Enabled(c, states[0], actions[0]) && states[1] == Next(c, states[0], actions[0]);
    StepsTail(c, states, actions);
    rest := RunLedger(c, states[1..], actions[1..]);
    assert At(states[1]);
    TidyStep(c, s, actions[0]);
    GaveUpFirst(states, actions);
  }

  lemma GaveUpFirst(states: seq<State>, actions: seq<Action>)
    requires |states| == |actions| + 1 && actions != []
    ensures (exists i :: 0 <= i < |actions| && GivesUp(states[i], actions[i]))
       <==> GivesUp(states[0], actions[0])
            || exists i :: 0 <= i < |actions[1..]| && GivesUp(states[1..][i], actions[1..][i])
  {
    GaveUpBefore(states[0], actions[0], states[1..], actions[1..]);
    assert [states[0]] + states[1..] == states && [actions[0]] + actions[1..] == actions;
  }

  lemma RunLedger(c: Config, states: seq<State>, actions: seq<Action>) returns (cost: Ledger)
    requires Steps(c, states, actions)
    ensures Leads(c, states[0], states[|actions|], cost, states, actions)
  {
    BuffersReleasedIff(c, states, actions);
    cost := Ledger(Obtained(c, actions) - Released(actions),
                   exists i :: 0 <= i < |actions| && GivesUp(states[i], actions[i]));
  }

  // ----- what may happen elsewhere

  /** What the server and the network do. */
  predicate Elsewhere(a: Action) {
    a.Serve? || a.LoseRequest? || a.LoseReply?
  }

  ghost predicate Between(c: Config, s: State, acts: seq<Action>)
    decreases |acts|
  {
    acts == []
    || (Elsewhere(acts[0]) && Enabled(c, s, acts[0]) && Between(c, Next(c, s, acts[0]), acts[1..]))
  }

  ghost function Moved(c: Config, s: State, acts: seq<Action>): (t: State)
    requires Good(c, s) && Between(c, s, acts)
    ensures Good(c, t)
    ensures t.waiting == s.waiting && t.nbTx == s.nbTx && t.samples == s.samples && t.clock == s.clock
    decreases |acts|
  {
    if acts == [] then s
    else
      StepGood(c, s, acts[0]);
      Moved(c, Next(c, s, acts[0]), acts[1..])
  }

  lemma {:induction false} MovesLead(c: Config, s: State, acts: seq<Action>)
      returns (states: seq<State>, actions: seq<Action>)
    requires Good(c, s) && Between(c, s, acts)
    ensures Leads(c, s, Moved(c, s, acts), Clear, states, actions)
    decreases |acts|
  {
    if acts == [] {
      states, actions := [s], [];
      NoSteps(c, s);
    } else {
      var s' := Next(c, s, acts[0]);
      StepGood(c, s, acts[0]);
      states, actions := MovesLead(c, s', acts[1..]);
      states, actions := ElsewhereFirst(c, s, acts[0], s', Moved(c, s', acts[1..]), states, actions);
    }
  }

  /** Steps elsewhere cost nothing. */
  lemma ElsewhereFirst(c: Config, s: State, a: Action, s': State, t: State, more: seq<State>, acts: seq<Action>)
      returns (states: seq<State>, actions: seq<Action>)
    requires Elsewhere(a) && Enabled(c, s, a) && s' == Next(c, s, a) && Leads(c, s', t, Clear, more, acts)
    ensures Leads(c, s, t, Clear, states, actions) && actions == [a] + acts
  {
    FreeStep(c, s, a);
    states, actions := Before(c, s, a, s', t, Clear, more, acts);
  }

  lemma FreeStep(c: Config, s: State, a: Action)
    requires Elsewhere(a)
    ensures Sum(StepLedger(c, s, a), Clear) == Clear
  {
  }

  // ----- a receive phase

  /** The poll takes the packets that arrived first, at most a burst of them. */
  ghost predicate Finds(s: State, from: nat, p: Poll) {
    p.frames <= s.toClient && |p.frames| <= RX_BURST && from <= p.checked <= p.at <= p.again
  }

  ghost function Polled(c: Config, s: State, p: Poll): (t: State)
    requires Good(c, s) && s.waiting && Finds(s, s.clock, p) && p.frames != []
    ensures Enabled(c, s, Receive(|p.frames|, p.at)) && t == Next(c, s, Receive(|p.frames|, p.at))
    ensures Good(c, t) && t.clock == p.at && (t.waiting <==> t.nbTx > 0) && LongPolls([p])
    ensures Count(t.nbTx, t.samples) == HandleAll(c, Count(s.nbTx, s.samples), p.frames, p.at)
  {
    GoodEchoes(c, s);
    StepGood(c, s, Receive(|p.frames|, p.at));
    assert s.toClient[..|p.frames|] == p.frames;
    Next(c, s, Receive(|p.frames|, p.at))
  }

  /** A poll that finds the time over. */
  ghost function GivenUp(c: Config, s: State, p: Poll): (t: State)
    requires Good(c, s) && s.waiting && Finds(s, s.clock, p)
    ensures Enabled(c, s, Timeout(|p.frames|, p.checked)) && t == Next(c, s, Timeout(|p.frames|, p.checked))
    ensures Good(c, t) && !t.waiting && t.nbTx == s.nbTx && t.samples == s.samples
  {
    GoodEchoes(c, s);
    StepGood(c, s, Timeout(|p.frames|, p.checked));
    Next(c, s, Timeout(|p.frames|, p.checked))
  }

  /** A receive phase in its surroundings: before[p] is what server and network do before poll p, and each poll
      finds what has arrived by then. */
  ghost predicate Plays(c: Config, s: State, start: nat, from: nat, before: seq<seq<Action>>, polls: seq<Poll>)
    requires Good(c, s) && s.waiting && s.clock <= from
    decreases |polls|
  {
    |before| == |polls|
    && (polls == []
        || (Between(c, s, before[0])
            && var t, p := Moved(c, s, before[0]), polls[0];
               Finds(t, from, p)
               && (p.checked - start > c.hz
                   || if p.frames == [] then Plays(c, t, start, p.again, before[1..], polls[1..])
                      else var t' := Polled(c, t, p);
                           t'.nbTx > 0 ==> Plays(c, t', p.again, p.again, before[1..], polls[1..]))))
  }

  ghost function AfterPhase(c: Config, s: State, start: nat, from: nat, before: seq<seq<Action>>, polls: seq<Poll>)
      : (t: State)
    requires Good(c, s) && s.waiting && s.clock <= from && Plays(c, s, start, from, before, polls)
    ensures Good(c, t)
    decreases |polls|
  {
    if polls == [] then s
    else
      var m, p := Moved(c, s, before[0]), polls[0];
      if p.checked - start > c.hz then GivenUp(c, m, p)
      else if p.frames == [] then AfterPhase(c, m, start, p.again, before[1..], polls[1..])
      else
        var t := Polled(c, m, p);
        if t.nbTx > 0 then AfterPhase(c, t, p.again, p.again, before[1..], polls[1..]) else t
  }

  function OutcomeLedger(o: Outcome): Ledger {
    if o.TimedOut? then Ledger(o.kept, o.missing > 0) else Clear
  }

  /** The protocol's state after a phase has the phase's count and samples, and waits just when the phase does. */
  ghost predicate Agrees(t: State, k: Count, o: Outcome) {
    t.nbTx == k.nbTx && t.samples == k.samples && (t.waiting <==> o == StillWaiting)
  }

  ghost predicate PhaseLeads(c: Config, s: State, start: nat, from: nat, before: seq<seq<Action>>, polls: seq<Poll>,
                             states: seq<State>, actions: seq<Action>)
    requires Good(c, s) && s.waiting && s.clock <= from && Plays(c, s, start, from, before, polls)
    requires LongPolls(polls)
  {
    var (k, o) := Phase(c, Count(s.nbTx, s.samples), start, polls);
    && Agrees(AfterPhase(c, s, start, from, before, polls), k, o)
    && Leads(c, s, AfterPhase(c, s, start, from, before, polls), OutcomeLedger(o), states, actions)
  }

  /** Every receive phase of the client, with anything the server and the network do meanwhile, is a sequence of
      steps of the protocol with the same count, samples and outcome; what it costs is what its timeout drops. */
  lemma {:induction false} PhaseIsSteps(c: Config, s: State, start: nat, from: nat, before: seq<seq<Action>>,
                                        polls: seq<Poll>)
      returns (states: seq<State>, actions: seq<Action>)
    requires Good(c, s) && s.waiting && s.clock <= from && Plays(c, s, start, from, before, polls)
    requires LongPolls(polls)
    ensures PhaseLeads(c, s, start, from, before, polls, states, actions)
    decreases |polls|, 1, 0
  {
    if polls == [] {
      states, actions := [s], [];
      NoSteps(c, s);
    } else {
      var m, still := Moved(c, s, before[0]), before[0 := []];
      assert still[1..] == before[1..];
      var more, acts := PollIsSteps(c, m, start, from, still, polls);
      states, actions := MovesLead(c, s, before[0]);
      var o := Phase(c, Count(s.nbTx, s.samples), start, polls).1;
      states, actions := Chain(c, s, m, AfterPhase(c, m, start, from, still, polls), Clear, OutcomeLedger(o),
                               states, actions, more, acts);
    }
  }

  /** The same from the moment of a poll. */
  lemma PollIsSteps(c: Config, s: State, start: nat, from: nat, before: seq<seq<Action>>, polls: seq<Poll>)
      returns (states: seq<State>, actions: seq<Action>)
    requires Good(c, s) && s.waiting && s.clock <= from && Plays(c, s, start, from, before, polls)
    requires LongPolls(polls) && polls != [] && before[0] == []
    ensures PhaseLeads(c, s, start, from, before, polls, states, actions)
    decreases |polls|, 0, 1
  {
    if polls[0].checked - start > c.hz {
      states, actions := LatePoll(c, s, start, from, before, polls);
    } else if polls[0].frames == [] {
      states, actions := EmptyPoll(c, s, start, from, before, polls);
    } else {
      states, actions := FilledIsSteps(c, s, start, from, before, polls);
    }
  }

  lemma EmptyPoll(c: Config, s: State, start: nat, from: nat, before: seq<seq<Action>>, polls: seq<Poll>)
      returns (states: seq<State>, actions: seq<Action>)
    requires Good(c, s) && s.waiting && s.clock <= from && Plays(c, s, start, from, before, polls)
    requires LongPolls(polls) && polls != [] && before[0] == []
    requires polls[0].checked - start <= c.hz && polls[0].frames == []
    ensures PhaseLeads(c, s, start, from, before, polls, states, actions)
    decreases |polls|, 0, 0
  {
    states, actions := PhaseIsSteps(c, s, start, polls[0].again, before[1..], polls[1..]);
  }

  lemma FilledIsSteps(c: Config, s: State, start: nat, from: nat, before: seq<seq<Action>>, polls: seq<Poll>)
      returns (states: seq<State>, actions: seq<Action>)
    requires Good(c, s) && s.waiting && s.clock <= from && Plays(c, s, start, from, before, polls)
    requires LongPolls(polls) && polls != [] && before[0] == []
    requires polls[0].checked - start <= c.hz && polls[0].frames != []
    ensures PhaseLeads(c, s, start, from, before, polls, states, actions)
    decreases |polls|, 0, 0
  {
    var t, a := FilledPoll(c, s, start, from, before, polls);
    if t.nbTx > 0 {
      states, actions := PhaseIsSteps(c, t, polls[0].again, polls[0].again, before[1..], polls[1..]);
      states, actions := FilledLeads(c, s, start, from, before, polls, t, a, states, actions);
    } else {
      states, actions := FilledEnds(c, s, start, from, before, polls, t, a);
    }
  }

  lemma LatePoll(c: Config, s: State, start: nat, from: nat, before: seq<seq<Action>>, polls: seq<Poll>)
      returns (states: seq<State>, actions: seq<Action>)
    requires Good(c, s) && s.waiting && s.clock <= from && Plays(c, s, start, from, before, polls)
    requires LongPolls(polls) && polls != [] && before[0] == [] && polls[0].checked - start > c.hz
    ensures PhaseLeads(c, s, start, from, before, polls, states, actions)
  {
    var t := GivenUp(c, s, polls[0]);
    states, actions := OneStep(c, s, Timeout(|polls[0].frames|, polls[0].checked), t,
                               OutcomeLedger(TimedOut(s.nbTx, |polls[0].frames|)));
  }

  /** The poll of state s leads to t, where the phase is over. */
  ghost predicate Finishes(c: Config, s: State, start: nat, from: nat, before: seq<seq<Action>>, polls: seq<Poll>,
                           t: State, a: Action)
    requires Good(c, s) && s.waiting && s.clock <= from && Plays(c, s, start, from, before, polls)
    requires LongPolls(polls)
  {
    && Enabled(c, s, a) && t == Next(c, s, a) && StepLedger(c, s, a) == Clear
    && AfterPhase(c, s, start, from, before, polls) == t && !t.waiting
    && Phase(c, Count(s.nbTx, s.samples), start, polls) == (Count(t.nbTx, t.samples), AllBack)
  }

  /** The poll of state s leads to t, where the phase goes on. */
  ghost predicate Resumes(c: Config, s: State, start: nat, from: nat, before: seq<seq<Action>>, polls: seq<Poll>,
                          t: State, a: Action)
    requires Good(c, s) && s.waiting && s.clock <= from && Plays(c, s, start, from, before, polls)
    requires LongPolls(polls) && polls != [] && before != []
  {
    var again := polls[0].again;
    && Enabled(c, s, a) && t == Next(c, s, a) && StepLedger(c, s, a) == Clear && Good(c, t)
    && t.waiting && t.clock <= again && Plays(c, t, again, again, before[1..], polls[1..])
    && AfterPhase(c, s, start, from, before, polls) == AfterPhase(c, t, again, again, before[1..], polls[1..])
    && Phase(c, Count(s.nbTx, s.samples), start, polls) == Phase(c, Count(t.nbTx, t.samples), again, polls[1..])
  }

  lemma FilledPoll(c: Config, s: State, start: nat, from: nat, before: seq<seq<Action>>, polls: seq<Poll>)
      returns (t: State, a: Action)
    requires Good(c, s) && s.waiting && s.clock <= from && Plays(c, s, start, from, before, polls)
    requires LongPolls(polls) && polls != [] && before[0] == []
    requires polls[0].checked - start <= c.hz && polls[0].frames != []
    ensures if t.nbTx > 0 then Resumes(c, s, start, from, before, polls, t, a)
            else Finishes(c, s, start, from, before, polls, t, a)
  {
    t, a := Polled(c, s, polls[0]), Receive(|polls[0].frames|, polls[0].at);
  }

  lemma FilledEnds(c: Config, s: State, start: nat, from: nat, before: seq<seq<Action>>, polls: seq<Poll>, t: State,
                   a: Action)
      returns (states: seq<State>, actions: seq<Action>)
    requires Good(c, s) && s.waiting && s.clock <= from && Plays(c, s, start, from, before, polls)
    requires LongPolls(polls) && Finishes(c, s, start, from, before, polls, t, a)
    ensures PhaseLeads(c, s, start, from, before, polls, states, actions)
  {
    states, actions := OneStep(c, s, a, t, Clear);
  }

  lemma FilledLeads(c: Config, s: State, start: nat, from: nat, before: seq<seq<Action>>, polls: seq<Poll>, t: State,
                    a: Action, more: seq<State>, acts: seq<Action>)
      returns (states: seq<State>, actions: seq<Action>)
    requires Good(c, s) && s.waiting && s.clock <= from && Plays(c, s, start, from, before, polls)
    requires LongPolls(polls) && polls != [] && before != [] && Resumes(c, s, start, from, before, polls, t, a)
    requires PhaseLeads(c, t, polls[0].again, polls[0].again, before[1..], polls[1..], more, acts)
    ensures PhaseLeads(c, s, start, from, before, polls, states, actions)
  {
    var o := Phase(c, Count(s.nbTx, s.samples), start, polls).1;
    states, actions := Before(c, s, a, t, AfterPhase(c, s, start, from, before, polls), OutcomeLedger(o), more, acts);
  }

  // ----- the main loop

  /** What happens elsewhere before a batch is sent, and before each poll. */
  datatype Scene = Scene(idle: seq<Action>, before: seq<seq<Action>>)

  ghost function SentOff(c: Config, s: State, r: Round): (t: State)
    requires Good(c, s) && Enabled(c, s, Send(r.stamps, r.taken))
    ensures t == Next(c, s, Send(r.stamps, r.taken))
    ensures Good(c, t) && t.waiting && t.nbTx == r.taken && t.samples == s.samples
  {
    StepGood(c, s, Send(r.stamps, r.taken));
    Next(c, s, Send(r.stamps, r.taken))
  }

  /** The round can happen from s in this scene: timestamps and clocks do not go back, and polls find what arrived. */
  ghost predicate Fits(c: Config, s: State, r: Round, scene: Scene)
    requires Good(c, s)
  {
    && Between(c, s, scene.idle) && LongPolls(r.polls)
    && var m := Moved(c, s, scene.idle);
       Enabled(c, m, Send(r.stamps, r.taken))
       && var t := SentOff(c, m, r);
          t.clock <= r.start && Plays(c, t, r.start, r.start, scene.before, r.polls)
  }

  ghost function AfterRound(c: Config, s: State, r: Round, scene: Scene): (t: State)
    requires Good(c, s) && Fits(c, s, r, scene)
    ensures Good(c, t)
  {
    AfterPhase(c, SentOff(c, Moved(c, s, scene.idle), r), r.start, r.start, scene.before, r.polls)
  }

  /** What a round costs: the packets the NIC did not take, and what its timeout drops. */
  function RoundLedger(c: Config, r: Round, o: Outcome): Ledger
    requires r.taken <= c.burst
  {
    Ledger(KeptBy(c, r.taken, o), o.TimedOut? && o.missing > 0)
  }

  lemma RoundIsSteps(c: Config, s: State, r: Round, scene: Scene) returns (states: seq<State>, actions: seq<Action>)
    requires Good(c, s) && Fits(c, s, r, scene)
    ensures r.taken <= c.burst && RoundLeads(c, s, r, AfterRound(c, s, r, scene), states, actions)
  {
    var m := Moved(c, s, scene.idle);
    var t := SentOff(c, m, r);
    var end, o := AfterRound(c, s, r, scene), Phase(c, Count(r.taken, s.samples), r.start, r.polls).1;
    var more, acts := PhaseIsSteps(c, t, r.start, r.start, scene.before, r.polls);
    more, acts := Before(c, m, Send(r.stamps, r.taken), t, end, OutcomeLedger(o), more, acts);
    states, actions := MovesLead(c, s, scene.idle);
    states, actions := Chain(c, s, m, end, Clear, RoundLedger(c, r, o), states, actions, more, acts);
  }

  /** The rounds can happen one after the other; only the last one may be left waiting. */
  ghost predicate FitAll(c: Config, s: State, rounds: seq<Round>, scenes: seq<Scene>)
    requires Good(c, s)
    decreases |rounds|
  {
    |rounds| == |scenes|
    && (rounds == []
        || (Fits(c, s, rounds[0], scenes[0])
            && var t := AfterRound(c, s, rounds[0], scenes[0]);
               if t.waiting then |rounds| == 1 else FitAll(c, t, rounds[1..], scenes[1..])))
  }

  function LoopLedger(c: Config, rounds: seq<Round>, outcomes: seq<Outcome>): Ledger
    requires forall i | 0 <= i < |rounds| :: rounds[i].taken <= c.burst
  {
    Ledger(KeptInAll(c, rounds, outcomes), exists i :: 0 <= i < |outcomes| && Missing(outcomes[i]))
  }

  /** A receive phase that ended with packets still counted. */
  predicate Missing(o: Outcome) {
    o.TimedOut? && o.missing > 0
  }

  lemma LedgerSum(c: Config, r: Round, rounds: seq<Round>, o: Outcome, outcomes: seq<Outcome>)
    requires r.taken <= c.burst
    requires forall i | 0 <= i < |rounds| :: rounds[i].taken <= c.burst
    ensures LoopLedger(c, [r] + rounds, [o] + outcomes) == Sum(RoundLedger(c, r, o), LoopLedger(c, rounds, outcomes))
  {
    var rs, os := [r] + rounds, [o] + outcomes;
    assert rs[1..] == rounds && os[1..] == outcomes;
    if i :| 0 <= i < |outcomes| && Missing(outcomes[i]) {
      assert Missing(os[i + 1]);
    }
    if i :| 0 <= i < |os| && Missing(os[i]) && i > 0 {
      assert Missing(outcomes[i - 1]);
    }
    if Missing(o) {
      assert Missing(os[0]);
    }
  }

  ghost predicate LoopLeads(c: Config, s: State, rounds: seq<Round>, t: State, states: seq<State>, actions: seq<Action>)
    requires AllRounds(c, rounds)
  {
    var (k, outcomes) := Rounds(c, Count(s.nbTx, s.samples), rounds);
    && t.nbTx == k.nbTx && t.samples == k.samples
    && (t.waiting <==> outcomes != [] && outcomes[|outcomes| - 1] == StillWaiting)
    && Leads(c, s, t, LoopLedger(c, rounds, outcomes), states, actions)
  }

  /** The main loop of the client, in any surroundings, is a run of the protocol with the same count and samples; what
      the run costs is what the loop reports. */
  lemma {:induction false} LoopIsSteps(c: Config, s: State, rounds: seq<Round>, scenes: seq<Scene>)
      returns (t: State, states: seq<State>, actions: seq<Action>)
    requires Good(c, s) && !s.waiting && AllRounds(c, rounds) && FitAll(c, s, rounds, scenes)
    ensures LoopLeads(c, s, rounds, t, states, actions)
    decreases |rounds|
  {
    if rounds == [] {
      t, states, actions := s, [s], [];
      NoSteps(c, s);
    } else {
      var m := AfterRound(c, s, rounds[0], scenes[0]);
      states, actions := RoundIsSteps(c, s, rounds[0], scenes[0]);
      if m.waiting {
        t := m;
        LastRound(c, s, rounds, m, states, actions);
      } else {
        var more, acts;
        t, more, acts := LoopIsSteps(c, m, rounds[1..], scenes[1..]);
        states, actions := RoundThenLoop(c, s, rounds, m, t, states, actions, more, acts);
      }
    }
  }

  ghost predicate RoundLeads(c: Config, s: State, r: Round, m: State, states: seq<State>, actions: seq<Action>)
    requires LongPolls(r.polls) && r.taken <= c.burst
  {
    var (k, o) := Phase(c, Count(r.taken, s.samples), r.start, r.polls);
    Agrees(m, k, o) && Leads(c, s, m, RoundLedger(c, r, o), states, actions)
  }

  lemma LastRound(c: Config, s: State, rounds: seq<Round>, m: State, states: seq<State>, actions: seq<Action>)
    requires AllRounds(c, rounds) && |rounds| == 1 && m.waiting
    requires RoundLeads(c, s, rounds[0], m, states, actions)
    ensures LoopLeads(c, s, rounds, m, states, actions)
  {
    var o := Phase(c, Count(rounds[0].taken, s.samples), rounds[0].start, rounds[0].polls).1;
    LedgerSum(c, rounds[0], [], o, []);
    assert rounds == [rounds[0]] + [] && [o] + [] == [o];
  }

  lemma RoundThenLoop(c: Config, s: State, rounds: seq<Round>, m: State, t: State, states: seq<State>,
                      actions: seq<Action>, more: seq<State>, acts: seq<Action>)
      returns (all: seq<State>, steps: seq<Action>)
    requires AllRounds(c, rounds) && rounds != [] && !m.waiting
    requires RoundLeads(c, s, rounds[0], m, states, actions) && LoopLeads(c, m, rounds[1..], t, more, acts)
    ensures LoopLeads(c, s, rounds, t, all, steps)
  {
    var r, rest := rounds[0], rounds[1..];
    var (k, o) := Phase(c, Count(r.taken, s.samples), r.start, r.polls);
    var (end, outcomes) := Rounds(c, k, rest);
    RoundsFirst(c, Count(s.nbTx, s.samples), rounds);
    LedgerSum(c, r, rest, o, outcomes);
    assert rounds == [r] + rest;
    SameRest(t, o, outcomes);
    all, steps := Chain(c, s, m, t, RoundLedger(c, r, o), LoopLedger(c, rest, outcomes), states, actions, more, acts);
  }

  lemma RoundsFirst(c: Config, k: Count, rounds: seq<Round>)
    requires AllRounds(c, rounds) && rounds != []
    ensures var (k', o) := Phase(c, Count(rounds[0].taken, k.samples), rounds[0].start, rounds[0].polls);
      o != StillWaiting ==>
        Rounds(c, k, rounds) == (Rounds(c, k', rounds[1..]).0, [o] + Rounds(c, k', rounds[1..]).1)
  {
  }

  lemma SameRest(t: State, o: Outcome, outcomes: seq<Outcome>)
    requires o != StillWaiting
    requires t.waiting <==> outcomes != [] && outcomes[|outcomes| - 1] == StillWaiting
    ensures var all := [o] + outcomes; t.waiting <==> all[|all| - 1] == StillWaiting
  {
  }

  /** From the start, with an empty network. */
  ghost predicate Schedule(c: Config, rounds: seq<Round>, scenes: seq<Scene>) {
    && Sane(c) && AllRounds(c, rounds)
    && (GoodStart(c); FitAll(c, Start, rounds, scenes))
  }

  /** The documented promise, for the loop itself: when the loop is not in the middle of a receive phase, every batch
      was sent, and the loop was left, with all earlier packets recorded, if and only if no receive phase ended by
      timeout with packets missing. And every buffer was sent or freed if and only if the loop kept none. */
  lemma LoopPromiseIff(c: Config, rounds: seq<Round>, scenes: seq<Scene>)
      returns (states: seq<State>, actions: seq<Action>)
    requires Schedule(c, rounds, scenes)
    requires StillWaiting !in Rounds(c, Count(0, []), rounds).1
    ensures var (k, outcomes) := Rounds(c, Count(0, []), rounds);
      && Run(c, states, actions) && states[|actions|].nbTx == k.nbTx && states[|actions|].samples == k.samples
      && (PromiseKept(states, actions) <==> forall i | 0 <= i < |outcomes| :: !Missing(outcomes[i]))
      && (Released(actions) == Obtained(c, actions) <==> KeptInAll(c, rounds, outcomes) == 0)
  {
    GoodStart(c);
    var t;
    t, states, actions := LoopIsSteps(c, Start, rounds, scenes);
    assert At(Start);
    PromiseIff(c, states, actions);
  }
}
