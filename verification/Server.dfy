/** The echo server (server.c:185-336): one polling iteration with its burst of packets, in place. */
module Server {
  import opened Wire
  import opened Echo
  import Polling

  // ----- which packets of a burst go where

  ghost predicate AllReadable(cfg: ServerConfig, frames: seq<Frame>) {
    forall f <- frames :: Readable(cfg, f)
  }

  /** Positions of the accepted packets among the first n, in arrival order. */
  function AcceptedIn(cfg: ServerConfig, frames: seq<Frame>, n: nat): (s: seq<nat>)
    requires AllReadable(cfg, frames) && n <= |frames|
    ensures |s| <= n
  {
    if n == 0 then []
    else AcceptedIn(cfg, frames, n - 1) + if Accepts(cfg, frames[n - 1]) then [n - 1] else []
  }

  /** Positions of the packets that are sent back: the accepted ones, in bidirectional mode. */
  function EchoedIn(cfg: ServerConfig, frames: seq<Frame>, n: nat): seq<nat>
    requires AllReadable(cfg, frames) && n <= |frames|
  {
    if cfg.bidi then AcceptedIn(cfg, frames, n) else []
  }

  /** Positions of the packets that are freed. */
  function FreedIn(cfg: ServerConfig, frames: seq<Frame>, n: nat): seq<nat>
    requires AllReadable(cfg, frames) && n <= |frames|
  {
    if n == 0 then []
    else FreedIn(cfg, frames, n - 1) + if cfg.bidi && Accepts(cfg, frames[n - 1]) then [] else [n - 1]
  }

  /** The bytes a packet ends up with: accepted packets have their ends exchanged, in bidirectional mode. */
  function AfterHandling(cfg: ServerConfig, f: Frame): Frame
    requires Readable(cfg, f)
  {
    if cfg.bidi && Accepts(cfg, f) then Swapped(f, cfg.vlan) else f
  }

  /** g == AfterHandling(cfg, f); unfolded where Look(f) is mentioned. */
  ghost predicate Handled(cfg: ServerConfig, f: Frame, g: Frame) {
    forall h: Frame {:trigger Look(h)} :: Look(h) && h == f ==> Readable(cfg, h) && g == AfterHandling(cfg, h)
  }

  lemma HandledIs(cfg: ServerConfig, f: Frame, g: Frame)
    requires Readable(cfg, f) && Handled(cfg, f, g)
    ensures g == AfterHandling(cfg, f)
  {
    assert Look(f);
  }

  ghost predicate AllHandled(cfg: ServerConfig, rx: seq<Mbuf>, frames: seq<Frame>)
    requires AllReadable(cfg, frames)
    reads set b | b in rx
  {
    |rx| == |frames| && forall i | 0 <= i < |rx| :: rx[i].data == AfterHandling(cfg, frames[i])
  }

  predicate IsEchoOf(cfg: ServerConfig, f: Frame, g: Frame) {
    HasHeaders(f, cfg.vlan) && Accepts(cfg, f) && g == Swapped(f, cfg.vlan)
  }

  /** The buffers sent are the echoes of the accepted packets, in arrival order. */
  ghost predicate AllSwapped(cfg: ServerConfig, frames: seq<Frame>, wire: seq<Mbuf?>)
    requires AllReadable(cfg, frames)
    reads set b: Mbuf | b in wire
  {
    var echoed := EchoedIn(cfg, frames, |frames|);
    |wire| == |echoed| && forall j | 0 <= j < |wire| ::
      echoed[j] < |frames| && wire[j] != null && IsEchoOf(cfg, frames[echoed[j]], wire[j].data)
  }

  lemma EchoOfAccepted(cfg: ServerConfig, f: Frame, g: Frame)
    requires Readable(cfg, f) && cfg.bidi && Accepts(cfg, f) && g == AfterHandling(cfg, f)
    ensures IsEchoOf(cfg, f, g)
  {
  }

  lemma WireIsSwapped(cfg: ServerConfig, t: PollTurn, freed: seq<Mbuf>, wire: seq<Mbuf?>)
    requires AllReadable(cfg, t.frames) && Settled(cfg, t, freed, wire) && AllHandled(cfg, t.rx, t.frames)
    ensures AllSwapped(cfg, t.frames, wire)
  {
    var echoed := EchoedIn(cfg, t.frames, |t.frames|);
    EachPacketOnce(cfg, t.frames, |t.frames|);
    forall j | 0 <= j < |wire|
      ensures echoed[j] < |t.frames| && wire[j] != null && IsEchoOf(cfg, t.frames[echoed[j]], wire[j].data)
    {
      var e := echoed[j];
      assert e in echoed;
      EchoOfAccepted(cfg, t.frames[e], t.rx[e].data);
    }
  }

  /** Every echo of a burst finds a place among the `size` slots of the echo list. */
  ghost predicate WritesInRange(cfg: ServerConfig, frames: seq<Frame>, size: nat)
    requires AllReadable(cfg, frames)
  {
    forall i | 0 <= i < |frames| && cfg.bidi && Accepts(cfg, frames[i]) :: |EchoedIn(cfg, frames, i)| < size
  }

  /** The loop writes inside the echo list exactly if the burst has no more echoes than the list has slots. */
  lemma {:induction false} WritesInRangeIff(cfg: ServerConfig, frames: seq<Frame>, n: nat, size: nat)
    requires AllReadable(cfg, frames) && n <= |frames|
    ensures (forall i | 0 <= i < n && cfg.bidi && Accepts(cfg, frames[i]) :: |EchoedIn(cfg, frames, i)| < size)
       <==> |EchoedIn(cfg, frames, n)| <= size
    ensures n == |frames| ==> (WritesInRange(cfg, frames, size) <==> |EchoedIn(cfg, frames, n)| <= size)
    decreases n
  {
    if n > 0 {
      WritesInRangeIff(cfg, frames, n - 1, size);
    }
  }

  ghost predicate Increasing(s: seq<nat>, bound: nat) {
    && (forall i | 0 <= i < |s| :: s[i] < bound)
    && (forall i, j | 0 <= i < j < |s| :: s[i] < s[j])
  }

  /** The packets counted as processed, in either mode. */
  lemma {:induction false} AcceptedOnce(cfg: ServerConfig, frames: seq<Frame>, n: nat)
    requires AllReadable(cfg, frames) && n <= |frames|
    ensures Increasing(AcceptedIn(cfg, frames, n), n)
    ensures forall i | 0 <= i < n :: i in AcceptedIn(cfg, frames, n) <==> Accepts(cfg, frames[i])
    decreases n
  {
    if n > 0 {
      AcceptedOnce(cfg, frames, n - 1);
    }
  }

  /** Every packet of a burst is echoed or freed, never both and never twice, and each group keeps the arrival
      order. */
  lemma {:induction false} EachPacketOnce(cfg: ServerConfig, frames: seq<Frame>, n: nat)
    requires AllReadable(cfg, frames) && n <= |frames|
    ensures Increasing(EchoedIn(cfg, frames, n), n) && Increasing(FreedIn(cfg, frames, n), n)
    ensures |EchoedIn(cfg, frames, n)| + |FreedIn(cfg, frames, n)| == n
    ensures forall i | 0 <= i < n ::
      && (i in EchoedIn(cfg, frames, n) <==> cfg.bidi && Accepts(cfg, frames[i]))
      && (i in FreedIn(cfg, frames, n) <==> !(cfg.bidi && Accepts(cfg, frames[i])))
    decreases n
  {
    if n > 0 {
      EachPacketOnce(cfg, frames, n - 1);
    }
  }

  // ----- the loop body

  class EchoServer {
    const cfg: ServerConfig
    const polling: Polling.Config
    var qIndex: nat
    var queueStatus: array<nat>
    var firstPkt: bool
    var lastPktTime: nat
    var expBegin: nat
    var run: bool
    var txBuf: array<Mbuf?>

    ghost function View(): Polling.State
      reads this, queueStatus
    {
      Polling.State(qIndex, queueStatus[..], firstPkt, lastPktTime, expBegin, run)
    }

    ghost predicate Valid()
      reads this, queueStatus
    {
      Polling.Shape(polling, View()) && polling.bidi == cfg.bidi && txBuf.Length == Polling.TX_BUF
    }

    constructor (cfg: ServerConfig, polling: Polling.Config, t0: nat)
      requires Polling.Sane(polling) && polling.bidi == cfg.bidi
      ensures Valid() && this.cfg == cfg && this.polling == polling && fresh(queueStatus) && fresh(txBuf)
      ensures View() == Polling.Initial(polling, t0)
    {
      this.cfg, this.polling := cfg, polling;
      qIndex, firstPkt, lastPktTime, expBegin, run := 0, false, 0, t0, true;
      queueStatus := new nat[|polling.managed|](_ => 0);
      txBuf := new Mbuf?[Polling.TX_BUF](_ => null);
      new;
      assert queueStatus[..] == seq(|polling.managed|, _ => 0);
    }

    /** The destination address, behind the link-layer header, is not the server's. */
    predicate OtherAddress(f: Frame) {
      |f| >= L2Len(cfg.vlan) + 20 && Get32(f, L2Len(cfg.vlan) + 16) != cfg.ip
    }

    /** One received packet: swap it and put it on the echo list, or free it. */
    method HandlePacket(buf: Mbuf, k: nat) returns (accepted: bool, echoed: bool)
      requires Valid() && Readable(cfg, buf.data)
      requires cfg.bidi && Accepts(cfg, buf.data) ==> k < txBuf.Length
      modifies buf, txBuf
      ensures accepted == old(Accepts(cfg, buf.data)) && echoed == (accepted && cfg.bidi)
      ensures Handled(cfg, old(buf.data), buf.data)
      ensures txBuf[..] == if echoed then old(txBuf[..])[k := buf] else old(txBuf[..])
      // a packet for another address is neither changed nor put on the list
      ensures old(OtherAddress(buf.data)) ==> !accepted && buf.data == old(buf.data) && txBuf[..] == old(txBuf[..])
    {
      accepted, echoed := Accepts(cfg, buf.data), false;
      if accepted && cfg.bidi {
        SwapHeaders(buf, cfg.vlan);
        txBuf[k] := buf;
        echoed := true;
      }
    }

    /** The loop over a received burst. The echo list has room for 64 packets, which the burst must respect. */
    method EchoBurst(rx: seq<Mbuf>, ghost frames: seq<Frame>) returns (k: nat, processed: nat, freed: seq<Mbuf>)
      requires Valid() && |frames| == |rx| && AllReadable(cfg, frames)
      requires Distinct(rx) && Untouched(rx, frames, 0)
      requires |EchoedIn(cfg, frames, |frames|)| <= txBuf.Length
      modifies rx, txBuf
      ensures Handling(rx, frames, |rx|, k, processed, freed)
    {
      k, processed, freed := 0, 0, [];
      for i := 0 to |rx|
        invariant Handling(rx, frames, i, k, processed, freed)
      {
        EchoedGrow(cfg, frames, i + 1);
        k, processed, freed := HandleNext(rx, frames, i, k, processed, freed);
      }
    }

    lemma DoneMeans(rx: seq<Mbuf>, frames: seq<Frame>)
      requires |rx| == |frames| && AllReadable(cfg, frames) && Done(rx, frames, |rx|)
      ensures AllHandled(cfg, rx, frames)
    {
      forall i | 0 <= i < |rx| ensures rx[i].data == AfterHandling(cfg, frames[i]) {
        HandledIs(cfg, frames[i], rx[i].data);
      }
    }

    lemma BurstDone(rx: seq<Mbuf>, frames: seq<Frame>, k: nat, processed: nat, freed: seq<Mbuf>)
      requires |rx| == |frames| && AllReadable(cfg, frames) && Handling(rx, frames, |rx|, k, processed, freed)
      ensures processed == |AcceptedIn(cfg, frames, |frames|)|
      ensures k == |EchoedIn(cfg, frames, |frames|)| <= |rx| && k <= txBuf.Length
      ensures Chosen(rx, EchoedIn(cfg, frames, |frames|), txBuf[..k])
      ensures Chosen(rx, FreedIn(cfg, frames, |frames|), freed)
      ensures Done(rx, frames, |rx|) && AllHandled(cfg, rx, frames)
    {
      DoneMeans(rx, frames);
    }

    /** The first i packets have been handled. */
    ghost predicate Done(rx: seq<Mbuf>, frames: seq<Frame>, i: nat)
      reads set b | b in rx
    {
      i <= |rx| == |frames| && forall j | 0 <= j < i :: Handled(cfg, frames[j], rx[j].data)
    }

    /** The packets from i on are as they were received. */
    ghost predicate Untouched(rx: seq<Mbuf>, frames: seq<Frame>, i: nat)
      reads set b | b in rx
    {
      |rx| == |frames| && forall j | i <= j < |rx| :: rx[j].data == frames[j]
    }

    /** After the first i packets of a burst. */
    ghost predicate Progress(rx: seq<Mbuf>, frames: seq<Frame>, i: nat, k: nat, processed: nat, freed: seq<Mbuf>)
      requires |rx| == |frames| && AllReadable(cfg, frames)
      reads this, txBuf
    {
      && i <= |rx| && txBuf.Length == Polling.TX_BUF
      && processed == |AcceptedIn(cfg, frames, i)|
      && k == |EchoedIn(cfg, frames, i)| <= i && k <= txBuf.Length
      && Chosen(rx, EchoedIn(cfg, frames, i), txBuf[..k])
      && Chosen(rx, FreedIn(cfg, frames, i), freed)
    }

    /** ... with the bytes of all its packets. At the end, that is the whole of what the loop over a burst does. */
    ghost predicate Handling(rx: seq<Mbuf>, frames: seq<Frame>, i: nat, k: nat, processed: nat, freed: seq<Mbuf>)
      requires |rx| == |frames| && AllReadable(cfg, frames)
      reads this, txBuf, set b | b in rx
    {
      Progress(rx, frames, i, k, processed, freed) && Done(rx, frames, i) && Untouched(rx, frames, i)
    }

    method HandleNext(rx: seq<Mbuf>, ghost frames: seq<Frame>, i: nat, k: nat, processed: nat, freed: seq<Mbuf>)
      returns (k': nat, processed': nat, freed': seq<Mbuf>)
      requires Valid() && |rx| == |frames| && AllReadable(cfg, frames) && i < |rx|
      requires Distinct(rx) && Handling(rx, frames, i, k, processed, freed)
      requires |EchoedIn(cfg, frames, i + 1)| <= txBuf.Length
      modifies rx[i], txBuf
      ensures Handling(rx, frames, i + 1, k', processed', freed')
    {
      k', processed', freed' := ListNext(rx, frames, i, k, processed, freed);
      assert forall j | 0 <= j < |rx| && j != i :: rx[j].data == old(rx[j].data);
    }

    /** One packet: handle it and put it on its list. */
    method ListNext(rx: seq<Mbuf>, ghost frames: seq<Frame>, i: nat, k: nat, processed: nat, freed: seq<Mbuf>)
      returns (k': nat, processed': nat, freed': seq<Mbuf>)
      requires Valid() && |rx| == |frames| && AllReadable(cfg, frames) && i < |rx|
      requires rx[i].data == frames[i] && Progress(rx, frames, i, k, processed, freed)
      requires |EchoedIn(cfg, frames, i + 1)| <= txBuf.Length
      modifies rx[i], txBuf
      ensures Handled(cfg, frames[i], rx[i].data) && Progress(rx, frames, i + 1, k', processed', freed')
    {
      ghost var list := txBuf[..k];
      NextLists(cfg, rx, frames, i, list, freed);
      var accepted, echoed := HandlePacket(rx[i], k);
      processed' := if accepted then processed + 1 else processed;
      if echoed {
        k', freed' := k + 1, freed;
        assert txBuf[..k'] == list + [rx[i]];
      } else {
        k', freed' := k, freed + [rx[i]];
        assert txBuf[..k'] == list;
      }
    }

    /** The retry loop: hand the list to the NIC, move what it did not take to the front, and try again.
        `taken` is what the NIC takes at each call; the loop is followed for as many calls, and is over just when
        they take the whole list. */
    method SendEchoes(k: nat, taken: seq<nat>) returns (wire: seq<Mbuf?>, left: nat)
      requires k <= txBuf.Length
      modifies txBuf
      ensures left <= txBuf.Length && wire + txBuf[..left] == old(txBuf[..k])
      ensures left == 0 <==> Total(taken) >= k
      ensures left == 0 ==> wire == old(txBuf[..k])
    {
      wire, left := [], k;
      var c := 0;
      while left > 0 && c < |taken|
        invariant c <= |taken| && left <= k && wire + txBuf[..left] == old(txBuf[..k])
        invariant left == if Total(taken[..c]) >= k then 0 else k - Total(taken[..c])
        decreases |taken| - c
      {
        assert taken[..c + 1][..c] == taken[..c];
        var sent := SendOnce(left, taken[c]);
        Associative(wire, sent, txBuf[..left - |sent|]);
        wire, left, c := wire + sent, left - |sent|, c + 1;
      }
      TotalPrefix(taken, c);
      assert c == |taken| ==> taken[..c] == taken;
    }

    /** One transmit call and the clean-up after it. */
    method SendOnce(k: nat, taken: nat) returns (sent: seq<Mbuf?>)
      requires k <= txBuf.Length
      modifies txBuf
      ensures |sent| == (if taken <= k then taken else k) && sent + txBuf[..k - |sent|] == old(txBuf[..k])
    {
      var nbTx := if taken <= k then taken else k;
      sent := txBuf[..nbTx];
      MoveToFront(nbTx, k);
    }

    /** Move the packets the NIC did not take to the front of the list. */
    method MoveToFront(nbTx: nat, k: nat)
      requires nbTx <= k <= txBuf.Length
      modifies txBuf
      ensures txBuf[..k - nbTx] == old(txBuf[nbTx..k])
    {
      for i := nbTx to k
        invariant forall j | nbTx <= j < i :: txBuf[j - nbTx] == old(txBuf[j])
        invariant forall j | i <= j < k :: txBuf[j] == old(txBuf[j])
      {
        txBuf[i - nbTx] := txBuf[i];
      }
    }

    /** One iteration of the main loop. Its view of queues and clocks is the polling step; a served burst is
        split into freed packets and echoes, and the echoes leave in arrival order. */
    method Iterate(now: nat, rx: seq<Mbuf>, ghost frames: seq<Frame>, after: nat, taken: seq<nat>)
      returns (a: Polling.Action, freed: seq<Mbuf>, wire: seq<Mbuf?>, left: nat)
      requires Valid() && |frames| == |rx| && AllReadable(cfg, frames)
      requires Distinct(rx) && Untouched(rx, frames, 0)
      requires |EchoedIn(cfg, frames, |frames|)| <= Polling.TX_BUF
      modifies this, queueStatus, txBuf, rx
      ensures Valid() && queueStatus == old(queueStatus) && txBuf == old(txBuf)
      ensures (View(), a) == Polling.Step(polling, old(View()),
                                          Polling.Input(now, |rx|, |AcceptedIn(cfg, frames, |frames|)|, after))
      ensures left <= txBuf.Length
      ensures Total(taken) >= |rx| ==> left == 0
      ensures a.Served? ==> Chosen(rx, FreedIn(cfg, frames, |frames|), freed)
      ensures a.Served? ==> Chosen(rx, EchoedIn(cfg, frames, |frames|), wire + txBuf[..left])
      ensures a.Served? ==> Done(rx, frames, |rx|) && AllHandled(cfg, rx, frames)
      ensures !a.Served? ==> freed == [] && wire == [] && left == 0 && Untouched(rx, frames, 0)
    {
      freed, wire, left := [], [], 0;
      ghost var i := Polling.Input(now, |rx|, |AcceptedIn(cfg, frames, |frames|)|, after);
      var ready, qid;
      ready, qid, a := PollQueue(now, |rx|, i);
      if ready {
        var k, processed;
        k, processed, freed := EchoBurst(rx, frames);
        BurstDone(rx, frames, k, processed, freed);
        RecordService(now, qid, processed, after);
        a := Polling.Served(qid, now, processed);
        if cfg.bidi {
          wire, left := SendEchoes(k, taken);
        }
      }
    }

    method Turn(t: PollTurn) returns (a: Polling.Action, freed: seq<Mbuf>, wire: seq<Mbuf?>)
      requires Valid() && Manageable(cfg, t) && Untouched(t.rx, t.frames, 0)
      modifies this, queueStatus, txBuf, t.rx
      ensures Valid() && queueStatus == old(queueStatus) && txBuf == old(txBuf)
      ensures (View(), a) == Polling.Step(polling, old(View()), PollInput(cfg, t))
      ensures a.Served? ==> Settled(cfg, t, freed, wire)
      ensures Left(t, a)
    {
      var left;
      a, freed, wire, left := Iterate(t.now, t.rx, t.frames, t.after, t.taken);
      assert wire + txBuf[..0] == wire;
    }

    /** The packets of a served burst have been handled, all others are as they came. */
    ghost predicate Left(t: PollTurn, a: Polling.Action)
      reads set b | b in t.rx
    {
      if a.Served? then Done(t.rx, t.frames, |t.rx|) else Untouched(t.rx, t.frames, 0)
    }

    ghost predicate AllLeft(turns: seq<PollTurn>, actions: seq<Polling.Action>)
      reads Buffers(turns)
    {
      |actions| <= |turns| && forall i | 0 <= i < |actions| :: Left(turns[i], actions[i])
    }

    /** The bursts from iteration n on are as they will be received. */
    ghost predicate Coming(turns: seq<PollTurn>, n: nat)
      reads Buffers(turns)
    {
      forall i | n <= i < |turns| :: Untouched(turns[i].rx, turns[i].frames, 0)
    }

    method TurnAt(turns: seq<PollTurn>, n: nat, ghost actions: seq<Polling.Action>)
      returns (a: Polling.Action, freed: seq<Mbuf>, wire: seq<Mbuf?>)
      requires Valid() && AllManageable(cfg, turns) && n < |turns| && Coming(turns, n)
      requires |actions| == n && AllLeft(turns, actions)
      modifies this, queueStatus, txBuf, Buffers(turns)
      ensures Valid() && queueStatus == old(queueStatus) && txBuf == old(txBuf) && Coming(turns, n + 1)
      ensures (View(), a) == Polling.Step(polling, old(View()), PollInput(cfg, turns[n]))
      ensures a.Served? ==> Settled(cfg, turns[n], freed, wire)
      ensures AllLeft(turns, actions + [a])
    {
      assert forall b | b in turns[n].rx :: b in Buffers(turns);
      a, freed, wire := Turn(turns[n]);
      forall i | 0 <= i < |turns| && i != n
        ensures n < i ==> Untouched(turns[i].rx, turns[i].frames, 0)
        ensures i < n ==> Left(turns[i], actions[i])
      {
        OtherBuffers(cfg, turns, n, i);
      }
    }

    /** After n iterations. */
    ghost predicate Ran(turns: seq<PollTurn>, t0: nat, n: nat, actions: seq<Polling.Action>, freed: seq<seq<Mbuf>>,
                        wire: seq<seq<Mbuf?>>)
      requires AllManageable(cfg, turns)
      reads this, queueStatus, Buffers(turns)
    {
      && Valid() && n <= |turns| && Coming(turns, n)
      && (View(), actions) == Polling.Run(polling, t0, PollInputs(cfg, turns[..n]))
      && |actions| == n && AllSettled(cfg, turns, actions, freed, wire) && AllLeft(turns, actions)
    }

    method Advance(turns: seq<PollTurn>, t0: nat, n: nat, ghost actions: seq<Polling.Action>,
                   ghost freed: seq<seq<Mbuf>>, ghost wire: seq<seq<Mbuf?>>)
      returns (a: Polling.Action, f: seq<Mbuf>, w: seq<Mbuf?>)
      requires AllManageable(cfg, turns) && n < |turns| && Ran(turns, t0, n, actions, freed, wire)
      modifies this, queueStatus, txBuf, Buffers(turns)
      ensures queueStatus == old(queueStatus) && txBuf == old(txBuf)
      ensures Ran(turns, t0, n + 1, actions + [a], freed + [f], wire + [w])
    {
      NextInput(cfg, polling, t0, turns, n);
      a, f, w := TurnAt(turns, n, actions);
      SettledGrow(cfg, turns, actions, freed, wire, a, f, w);
    }

    /** The main loop, over the polls of a run whose echoes all leave in the end: it is the polling run, and
        each served burst is freed or sent, in arrival order; what is sent has its ends exchanged. */
    method Loop(turns: seq<PollTurn>, t0: nat)
      returns (actions: seq<Polling.Action>, freed: seq<seq<Mbuf>>, wire: seq<seq<Mbuf?>>)
      requires Valid() && View() == Polling.Initial(polling, t0)
      requires AllManageable(cfg, turns) && Coming(turns, 0)
      modifies this, queueStatus, txBuf, Buffers(turns)
      ensures Valid() && (View(), actions) == Polling.Run(polling, t0, PollInputs(cfg, turns))
      ensures |actions| == |turns| && AllSettled(cfg, turns, actions, freed, wire)
      ensures forall i | 0 <= i < |turns| && actions[i].Served? ::
        AllHandled(cfg, turns[i].rx, turns[i].frames) && AllSwapped(cfg, turns[i].frames, wire[i])
    {
      actions, freed, wire := [], [], [];
      for n := 0 to |turns|
        invariant queueStatus == old(queueStatus) && txBuf == old(txBuf)
        invariant Ran(turns, t0, n, actions, freed, wire)
      {
        var a, f, w := Advance(turns, t0, n, actions, freed, wire);
        actions, freed, wire := actions + [a], freed + [f], wire + [w];
      }
      assert turns[..|turns|] == turns;
      forall i | 0 <= i < |turns| && actions[i].Served?
        ensures AllHandled(cfg, turns[i].rx, turns[i].frames) && AllSwapped(cfg, turns[i].frames, wire[i])
      {
        assert Left(turns[i], actions[i]);
        DoneMeans(turns[i].rx, turns[i].frames);
        WireIsSwapped(cfg, turns[i], freed[i], wire[i]);
      }
    }

    /** Take the next queue and see whether it may and need be served; otherwise this is the whole iteration. */
    method PollQueue(now: nat, received: nat, ghost i: Polling.Input)
      returns (ready: bool, qid: nat, a: Polling.Action)
      requires Valid() && i.now == now && i.received == received
      modifies `qIndex, `run
      ensures Valid()
      ensures !ready ==> (View(), a) == Polling.Step(polling, old(View()), i) && !a.Served?
      ensures ready ==> qid < queueStatus.Length
                        && Polling.Step(polling, old(View()), i) == Polling.Serve(polling, View(), qid, i)
    {
      if !run {
        return false, 0, Polling.Stopped;
      }
      qid := polling.managed[qIndex];
      assert qid in polling.managed;
      qIndex := (qIndex + 1) % |polling.managed|;
      if !firstPkt && now - expBegin > 60 * polling.hz {
        run := false;
        return false, qid, Polling.Stopped;
      }
      if queueStatus[qid] > now {
        return false, qid, Polling.Skipped(qid);
      }
      if received == 0 {
        if firstPkt && now - lastPktTime > 2 * polling.hz {
          run := false;
          return false, qid, Polling.Stopped;
        }
        return false, qid, Polling.Empty(qid);
      }
      return true, qid, Polling.Stopped;
    }

    /** Note the time of a valid packet and close the queue until its packets' service time is over. */
    method RecordService(now: nat, qid: nat, processed: nat, after: nat)
      requires Valid() && qid < queueStatus.Length
      modifies `firstPkt, `lastPktTime, queueStatus
      ensures Valid()
      ensures forall i: Polling.Input | i.now == now && i.accepted == processed && i.after == after ::
        View() == Polling.Serve(polling, old(View()), qid, i).0
    {
      if processed > 0 {
        lastPktTime := now;
        firstPkt := true;
      }
      if cfg.bidi {
        queueStatus[qid] := after + processed * polling.delay % U32;
      }
    }
  }

  /** What one iteration meets: the clock, the packets at the queue it looks at, the clock when they are handled,
      and what the NIC takes at each transmit call. */
  datatype PollTurn = PollTurn(now: nat, rx: seq<Mbuf>, ghost frames: seq<Frame>, after: nat, taken: seq<nat>)

  /** The burst fits the echo list, and the NIC takes it sooner or later. */
  ghost predicate Manageable(cfg: ServerConfig, t: PollTurn) {
    && |t.frames| == |t.rx| && AllReadable(cfg, t.frames) && Distinct(t.rx)
    && |EchoedIn(cfg, t.frames, |t.frames|)| <= Polling.TX_BUF
    && Total(t.taken) >= |t.rx|
  }

  /** The burst of this iteration has been freed and sent, each packet once and in arrival order. */
  ghost predicate Settled(cfg: ServerConfig, t: PollTurn, freed: seq<Mbuf>, wire: seq<Mbuf?>)
    requires AllReadable(cfg, t.frames)
  {
    && Chosen(t.rx, FreedIn(cfg, t.frames, |t.frames|), freed)
    && Chosen(t.rx, EchoedIn(cfg, t.frames, |t.frames|), wire)
  }

  /** ... and bursts share no buffers. */
  ghost predicate AllManageable(cfg: ServerConfig, turns: seq<PollTurn>) {
    && (forall i | 0 <= i < |turns| :: Manageable(cfg, turns[i]))
    && forall i, j | 0 <= i < j < |turns| :: Disjoint(turns[i].rx, turns[j].rx)
  }

  /** Every burst served so far. */
  ghost predicate AllSettled(cfg: ServerConfig, turns: seq<PollTurn>, actions: seq<Polling.Action>,
                             freed: seq<seq<Mbuf>>, wire: seq<seq<Mbuf?>>)
    requires AllManageable(cfg, turns)
  {
    && |freed| == |wire| == |actions| <= |turns|
    && forall i | 0 <= i < |actions| && actions[i].Served? :: Settled(cfg, turns[i], freed[i], wire[i])
  }

  lemma SettledGrow(cfg: ServerConfig, turns: seq<PollTurn>, actions: seq<Polling.Action>, freed: seq<seq<Mbuf>>,
                    wire: seq<seq<Mbuf?>>, a: Polling.Action, f: seq<Mbuf>, w: seq<Mbuf?>)
    requires AllManageable(cfg, turns) && AllSettled(cfg, turns, actions, freed, wire) && |actions| < |turns|
    requires a.Served? ==> Settled(cfg, turns[|actions|], f, w)
    ensures AllSettled(cfg, turns, actions + [a], freed + [f], wire + [w])
  {
  }

  ghost predicate Distinct(rx: seq<Mbuf>) {
    forall i, j | 0 <= i < j < |rx| :: rx[i] != rx[j]
  }

  ghost predicate Disjoint(a: seq<Mbuf>, b: seq<Mbuf>) {
    forall i, j | 0 <= i < |a| && 0 <= j < |b| :: a[i] != b[j]
  }

  ghost function Buffers(turns: seq<PollTurn>): set<Mbuf> {
    set i, b | 0 <= i < |turns| && b in turns[i].rx :: b
  }

  lemma OtherBuffers(cfg: ServerConfig, turns: seq<PollTurn>, n: nat, i: nat)
    requires AllManageable(cfg, turns) && n < |turns| && i < |turns| && i != n
    ensures forall j | 0 <= j < |turns[i].rx| :: turns[i].rx[j] !in turns[n].rx
  {
    if i < n {
      assert Disjoint(turns[i].rx, turns[n].rx);
    } else {
      assert Disjoint(turns[n].rx, turns[i].rx);
    }
  }

  /** The iterations as the polling loop sees them. */
  ghost function PollInput(cfg: ServerConfig, t: PollTurn): Polling.Input
    requires Manageable(cfg, t)
  {
    Polling.Input(t.now, |t.rx|, |AcceptedIn(cfg, t.frames, |t.frames|)|, t.after)
  }

  ghost function PollInputs(cfg: ServerConfig, turns: seq<PollTurn>): (r: seq<Polling.Input>)
    requires AllManageable(cfg, turns)
    ensures |r| == |turns|
  {
    if turns == [] then []
    else PollInputs(cfg, turns[..|turns| - 1]) + [PollInput(cfg, turns[|turns| - 1])]
  }

  lemma NextInput(cfg: ServerConfig, c: Polling.Config, t0: nat, turns: seq<PollTurn>, n: nat)
    requires Polling.Sane(c) && n < |turns| && AllManageable(cfg, turns)
    ensures var (s, actions) := Polling.Run(c, t0, PollInputs(cfg, turns[..n]));
      var (s', a) := Polling.Step(c, s, PollInput(cfg, turns[n]));
      Polling.Run(c, t0, PollInputs(cfg, turns[..n + 1])) == (s', actions + [a])
  {
    assert turns[..n + 1][..n] == turns[..n];
    var before := PollInputs(cfg, turns[..n]);
    assert (before + [PollInput(cfg, turns[n])])[..n] == before;
  }

  /** Packets taken in all. */
  function Total(taken: seq<nat>): nat {
    if taken == [] then 0 else Total(taken[..|taken| - 1]) + taken[|taken| - 1]
  }

  lemma {:induction false} TotalPrefix(taken: seq<nat>, c: nat)
    requires c <= |taken|
    ensures Total(taken[..c]) <= Total(taken)
    decreases |taken|
  {
    if c < |taken| {
      assert taken[..|taken| - 1][..c] == taken[..c];
      TotalPrefix(taken[..|taken| - 1], c);
    } else {
      assert taken[..c] == taken;
    }
  }

  /** A NIC that takes something at every call is done after at most as many calls as there are packets. */
  lemma {:induction false} TotalAtLeast(taken: seq<nat>)
    requires forall i | 0 <= i < |taken| :: taken[i] >= 1
    ensures Total(taken) >= |taken|
  {
    if taken != [] {
      TotalAtLeast(taken[..|taken| - 1]);
    }
  }

  lemma Associative<T>(a: seq<T>, b: seq<T>, c: seq<T>)
    ensures a + (b + c) == (a + b) + c
  {
  }

  /** `bufs` are the buffers of `rx` at the given positions. */
  ghost predicate Chosen(rx: seq<Mbuf>, positions: seq<nat>, bufs: seq<Mbuf?>) {
    |bufs| == |positions| && forall j | 0 <= j < |bufs| :: positions[j] < |rx| && bufs[j] == rx[positions[j]]
  }

  lemma ChosenGrow(rx: seq<Mbuf>, positions: seq<nat>, bufs: seq<Mbuf?>, i: nat)
    requires Chosen(rx, positions, bufs) && i < |rx|
    ensures Chosen(rx, positions + [i], bufs + [rx[i]])
  {
  }

  /** The two lists one packet later. */
  lemma NextLists(cfg: ServerConfig, rx: seq<Mbuf>, frames: seq<Frame>, i: nat, list: seq<Mbuf?>, freed: seq<Mbuf>)
    requires |rx| == |frames| && AllReadable(cfg, frames) && i < |rx|
    requires Chosen(rx, EchoedIn(cfg, frames, i), list) && Chosen(rx, FreedIn(cfg, frames, i), freed)
    ensures |AcceptedIn(cfg, frames, i + 1)|
         == |AcceptedIn(cfg, frames, i)| + if Accepts(cfg, frames[i]) then 1 else 0
    ensures var echoes := cfg.bidi && Accepts(cfg, frames[i]);
      && Chosen(rx, EchoedIn(cfg, frames, i + 1), if echoes then list + [rx[i]] else list)
      && Chosen(rx, FreedIn(cfg, frames, i + 1), if echoes then freed else freed + [rx[i]])
  {
    ChosenGrow(rx, EchoedIn(cfg, frames, i), list, i);
    ChosenGrow(rx, FreedIn(cfg, frames, i), freed, i);
  }

  lemma {:induction false} EchoedGrow(cfg: ServerConfig, frames: seq<Frame>, i: nat)
    requires AllReadable(cfg, frames) && i <= |frames|
    ensures |EchoedIn(cfg, frames, i)| <= |EchoedIn(cfg, frames, |frames|)|
    decreases |frames| - i
  {
    if i < |frames| {
      EchoedGrow(cfg, frames, i + 1);
    }
  }
}
