/** What the reader gets from the writer, over every run on the network, and what
    Close and the FIN do to it. */
module TcpEndToEnd {
  import opened Seq32
  import opened Wrappers
  import opened TcpModel
  import opened TcpSender
  import opened TcpRun
  import opened TcpStream
  import opened TcpAfterClose
  import opened TcpNet

  function End(n: Net, left: bool): Conn {
    if left then n.a else n.b
  }

  // ----- delivery --------------------------------------------------------

  /** The receiver takes a frame exactly when its prefix ends whole laps from the
      frame's position, so a frame it takes is the continuation of the prefix if
      and only if it is less than a lap away. */
  lemma StaleDataIff(iss: u32, rx: Rx, f: Frame)
    requires ReceiveInv(rx) && rx.fins == 0 && rx.irs == iss && f.seg.seqNum == Wrap(iss + 1 + f.pos)
    ensures f.seg.seqNum == rx.rcvNxt <==> (|rx.delivered| - f.pos) % MOD == 0
    ensures f.seg.seqNum == rx.rcvNxt ==> (f.pos == |rx.delivered| <==> -MOD < |rx.delivered| - f.pos < MOD)
  {
    SameNumberIff(iss + 1 + |rx.delivered|, iss + 1 + f.pos);
    if (|rx.delivered| - f.pos) % MOD == 0 {
      LapsApart(|rx.delivered| - f.pos);
    }
  }

  lemma SameNumberIff(a: int, b: int)
    ensures Wrap(a) == Wrap(b) <==> (a - b) % MOD == 0
  {
    WrapSub(a, b);
    var d := Wrap(a) - Wrap(b);
    assert Wrap(d) == (a - b) % MOD;
    assert -MOD < d < MOD;
  }

  lemma LapsApart(d: int)
    requires d % MOD == 0
    ensures d == 0 <==> -MOD < d < MOD
  {
  }

  /** Before Close the sender's buffers hold every byte the receiver has not got. */
  ghost predicate Kept(tx: Tx, rx: Rx) {
    var kept := QueueBytes(tx.queue) + tx.unsent;
    && tx.ackedPos <= |rx.delivered| <= |tx.written|
    && |tx.written| - |rx.delivered| <= |kept|
    && tx.written[|rx.delivered|..] == kept[|kept| - (|tx.written| - |rx.delivered|)..]
  }

  /** What was read is a prefix of what was delivered, that of what was written, and
      nothing is delivered past the FIN. */
  ghost predicate Delivered(tx: Tx, rx: Rx) {
    && rx.returned <= rx.delivered <= tx.written
    && if tx.finPos.None? then Kept(tx, rx) else |rx.delivered| <= tx.finPos.value <= |tx.written|
  }

  lemma EndDelivered(self: Conn, peer: Conn)
    requires Alone(self) && Pair(self, peer)
    ensures Delivered(self.tx, peer.rx)
  {
    hide Wrap, Covers, LateInv, LogOut;
    Prefix(peer.rx);
    var (tx, n) := (self.tx, |peer.rx.delivered|);
    if tx.finPos.None? && !self.state.SynReceived? {
      Conservation(tx);
      var kept := QueueBytes(tx.queue) + tx.unsent;
      assert tx.written[n..] == kept[|kept| - (|tx.written| - n)..];
    }
  }

  lemma Prefix(rx: Rx)
    requires ReceiveInv(rx)
    ensures rx.returned <= rx.delivered
  {
    hide Wrap;
  }

  /** End to end, from the handshake on, in both directions at once: over every
      interleaving of writes, reads, expiries, deliveries and one Close at each
      end, at any time, on a network that drops, duplicates and reorders. */
  lemma EndToEnd(n0: Net, isn: u32, syn: Segment, events: seq<NetEvent>)
    requires Start(n0, isn, syn)
    ensures var n := RunNet(n0, events); Delivered(n.a.tx, n.b.rx) && Delivered(n.b.tx, n.a.rx)
  {
    hide Alone, Direction;
    RunNetKeeps(n0, isn, syn, events);
    var n := RunNet(n0, events);
    Symmetric(n);
    EndDelivered(n.a, n.b);
    EndDelivered(n.b, n.a);
  }

  lemma Symmetric(n: Net)
    requires NetInv(n)
    ensures Pair(n.a, n.b) && Pair(n.b, n.a)
  {
    hide Direction, StateInv, TimerInv, ReceiveInv;
  }

  /** A frame before the FIN: its bytes stand where its number says. */
  ghost predicate InPlace(f: Frame, tx: Tx) {
    && 0 <= f.pos && f.pos + |f.seg.payload| <= Cut(tx) <= |tx.written|
    && f.seg.payload == tx.written[f.pos..f.pos + |f.seg.payload|] && f.seg.seqNum == Wrap(tx.iss + 1 + f.pos)
  }

  /** Until the connection is CLOSED, every payload an end ever sent stands in its own
      place before the FIN, or behind the FIN one position too far. */
  lemma FramesPlaced(n0: Net, isn: u32, syn: Segment, events: seq<NetEvent>, left: bool, f: Frame)
    requires Start(n0, isn, syn)
    requires var c := End(RunNet(n0, events), left); f in c.tx.log && f.seg.payload != [] && !c.state.Closed?
    ensures var tx := End(RunNet(n0, events), left).tx;
      InPlace(f, tx) || (tx.finPos.Some? && f.pos > tx.finPos.value && Misplaced(f, tx.iss, tx.written))
  {
    hide RunNet, Start, NetInv, InPlace, Misplaced;
    RunNetKeeps(n0, isn, syn, events);
    FramePlaced(RunNet(n0, events), left, f);
  }

  lemma FramePlaced(n: Net, left: bool, f: Frame)
    requires NetInv(n) && f in End(n, left).tx.log && f.seg.payload != [] && !End(n, left).state.Closed?
    ensures var tx := End(n, left).tx;
      InPlace(f, tx) || (tx.finPos.Some? && f.pos > tx.finPos.value && Misplaced(f, tx.iss, tx.written))
  {
    hide Wrap, Sending, ReceiveInv, StateInv, TimerInv;
    var c := End(n, left);
    var i :| 0 <= i < |c.tx.log| && c.tx.log[i] == f;
    Logged(c, End(n, !left), i);
  }

  // ----- later states ----------------------------------------------------

  lemma {:induction false} RunSplit(n: Net, before: seq<NetEvent>, after: seq<NetEvent>)
    ensures RunNet(n, before + after) == RunNet(RunNet(n, before), after)
  {
    hide StepNet;
    if after == [] {
      assert before + [] == before;
    } else {
      var init := after[..|after| - 1];
      RunSplit(n, before, init);
      assert (before + after)[..|before + after| - 1] == before + init;
    }
  }

  /** What no later step takes back. */
  ghost predicate Since(c: Conn, d: Conn) {
    && c.tx.written <= d.tx.written && (c.tx.finPos.Some? ==> d.tx.finPos == c.tx.finPos)
    && (c.rx.fins == 1 ==> d.rx.fins == 1 && d.rx.delivered == c.rx.delivered)
  }

  lemma LocalSince(self: Conn, peer: Conn, act: Act)
    requires Alone(self)
    ensures Since(self, Local(self, peer, act))
  {
    hide Wrap, ReceiveInv, TimerInv, Write, OnRto, HandleSegment, Fresh, StampOf;
    match act
    case Send(data) => WriteFin(self.tx, StampOf(self.rx), data);
    case Expire => OnRtoFields(self.tx, StampOf(self.rx));
    case Deliver(i) =>
      if i < |peer.tx.log| && Fresh(peer.tx.log[i], peer, self) {
        SegmentIss(self, peer.tx.log[i].seg);
        if self.rx.fins == 1 { AfterFin(self, peer.tx.log[i].seg); }
      }
    case _ =>
  }

  lemma AfterFin(c: Conn, seg: Segment)
    requires StateInv(c) && c.rx.fins == 1
    ensures HandleSegment(c, seg).rx.delivered == c.rx.delivered && HandleSegment(c, seg).rx.fins == 1
  {
    hide ProcessAck, Wrap;
  }

  lemma {:induction false} RunSince(n: Net, events: seq<NetEvent>, left: bool)
    requires NetInv(n)
    ensures NetInv(RunNet(n, events)) && Since(End(n, left), End(RunNet(n, events), left))
  {
    hide Local, NetInv, Since;
    if events == [] {
      SinceSelf(End(n, left));
    } else {
      var init, e := events[..|events| - 1], events[|events| - 1];
      RunSince(n, init, left);
      var m := RunNet(n, init);
      StepNetKeeps(m, e);
      StepSince(m, e, left);
      SinceTrans(End(n, left), End(m, left), End(StepNet(m, e), left));
    }
  }

  lemma SinceSelf(c: Conn)
    ensures Since(c, c)
  {
  }

  lemma SinceTrans(c: Conn, d: Conn, e: Conn)
    requires Since(c, d) && Since(d, e)
    ensures Since(c, e)
  {
  }

  lemma StepSince(m: Net, e: NetEvent, left: bool)
    requires NetInv(m)
    ensures Since(End(m, left), End(StepNet(m, e), left))
  {
    hide Local, Direction, Since, ReceiveInv, StateInv, TimerInv;
    SinceSelf(End(m, left));
    if e.left == left { LocalSince(End(m, left), End(m, !left), e.act); }
  }

  // ----- Close -----------------------------------------------------------

  /** Close at any time, with any writes before and after it: the FIN stands at
      what was sent by then, nothing behind it is ever delivered, so all that was
      written can be delivered only if nothing was unsent at Close and nothing
      was written later. */
  lemma CloseCuts(n0: Net, isn: u32, syn: Segment, before: seq<NetEvent>, left: bool, after: seq<NetEvent>)
    requires Start(n0, isn, syn)
    requires var c := End(RunNet(n0, before), left); c.accepted > 0 && c.tx.finPos.None?
    ensures var c := End(RunNet(n0, before), left); var m := RunNet(n0, before + [NetEvent(left, Shut)] + after);
      var (tx, rx) := (End(m, left).tx, End(m, !left).rx);
      && tx.finPos == Some(c.tx.sentPos) && c.tx.written <= tx.written
      && rx.delivered <= tx.written && |rx.delivered| <= c.tx.sentPos
      && (rx.delivered == tx.written ==> c.tx.unsent == [] && tx.written == c.tx.written)
  {
    hide Start, RunNet, StepNet, NetInv, Delivered;
    var n, e := RunNet(n0, before), NetEvent(left, Shut);
    RunNetKeeps(n0, isn, syn, before);
    RunSplit(n0, before + [e], after);
    RunOne(n0, before, e);
    StepNetKeeps(n, e);
    ShutAt(n, left);
    RunSince(StepNet(n, e), after, left);
    BothDelivered(RunNet(StepNet(n, e), after), left);
    hide Since;
    CutDelivered(End(n, left), End(RunNet(StepNet(n, e), after), left).tx, End(RunNet(StepNet(n, e), after), !left).rx);
  }

  lemma RunOne(n: Net, before: seq<NetEvent>, e: NetEvent)
    ensures RunNet(n, before + [e]) == StepNet(RunNet(n, before), e)
  {
    assert (before + [e])[..|before + [e]| - 1] == before;
  }

  lemma ShutAt(n: Net, left: bool)
    requires NetInv(n) && End(n, left).accepted > 0 && End(n, left).tx.finPos.None?
    ensures var (c, d) := (End(n, left), End(StepNet(n, NetEvent(left, Shut)), left));
      && d.tx.finPos == Some(c.tx.sentPos) && d.tx.written == c.tx.written
      && 0 <= c.tx.sentPos <= |c.tx.written| && c.tx.unsent == c.tx.written[c.tx.sentPos..]
  {
    hide Wrap, QueueInv, Received, LogOut, ReceiveInv, TimerInv;
  }

  lemma BothDelivered(n: Net, left: bool)
    requires NetInv(n)
    ensures Delivered(End(n, left).tx, End(n, !left).rx)
  {
    hide Delivered, Direction, ReceiveInv, StateInv, TimerInv;
    EndDelivered(End(n, left), End(n, !left));
  }

  lemma CutDelivered(c: Conn, tx: Tx, rx: Rx)
    requires 0 <= c.tx.sentPos <= |c.tx.written| && c.tx.unsent == c.tx.written[c.tx.sentPos..]
    requires tx.finPos == Some(c.tx.sentPos) && c.tx.written <= tx.written && Delivered(tx, rx)
    ensures rx.delivered <= tx.written && |rx.delivered| <= c.tx.sentPos
    ensures rx.delivered == tx.written ==> c.tx.unsent == [] && tx.written == c.tx.written
  {
  }

  // ----- the end of the stream -------------------------------------------

  /** Whoever may read next is told of an end only after everything delivered was read. */
  ghost predicate EndSeen(rx: Rx) {
    forall n: nat :: Read(rx, n).1 == Eof ==> rx.readChClosed && rx.returned == rx.delivered
  }

  /** In state n the FIN's frame i was about to be taken; in the later state m the
      receiver has all that stands before the FIN exactly if the FIN had the number
      that RCV.NXT had then, and all that was written exactly if, moreover, nothing
      was left out of what the FIN ends. */
  ghost predicate FinDecides(n: Net, i: nat, m: Net, left: bool) {
    var (log, rx, done, tx) := (End(n, !left).tx.log, End(n, left).rx, End(m, left).rx, End(m, !left).tx);
    && i < |log| && Has(log[i].seg.flags, FIN) && rx.fins == 0 && tx.finPos == Some(log[i].pos)
    && 0 <= log[i].pos <= |tx.written|
    && (done.delivered == tx.written[..log[i].pos] <==> log[i].seg.seqNum == rx.rcvNxt)
    && (done.delivered == tx.written <==> log[i].seg.seqNum == rx.rcvNxt && log[i].pos == |tx.written|)
  }

  /** Over every run at whose end the reader is told the end of the stream: the peer
      called Close, everything delivered has been read by then, and the step at which
      the FIN was taken decides whether that is the whole stream. */
  lemma EndOfStreamIff(n0: Net, isn: u32, syn: Segment, events: seq<NetEvent>, left: bool) returns (k: nat)
    requires Start(n0, isn, syn) && End(RunNet(n0, events), left).rx.readChClosed
    ensures k < |events| && events[k].left == left && events[k].act.Deliver?
    ensures FinDecides(RunNet(n0, events[..k]), events[k].act.i, RunNet(n0, events), left)
    ensures EndSeen(End(RunNet(n0, events), left).rx)
  {
    hide RunNet, FinDecides, Direction, EndSeen, ReceiveInv, StateInv, TimerInv;
    RunNetKeeps(n0, isn, syn, events);
    k := FinTaken(n0, isn, syn, events, left);
    EndRead(End(RunNet(n0, events), left).rx);
  }

  lemma EndRead(rx: Rx)
    requires ReceiveInv(rx)
    ensures EndSeen(rx)
  {
    forall n: nat | Read(rx, n).1 == Eof ensures rx.readChClosed && rx.returned == rx.delivered {
      ReadKeeps(rx, n);
    }
  }

  lemma {:induction false} FinTaken(n0: Net, isn: u32, syn: Segment, events: seq<NetEvent>, left: bool) returns (k: nat)
    requires Start(n0, isn, syn) && End(RunNet(n0, events), left).rx.fins == 1
    ensures k < |events| && events[k].left == left && events[k].act.Deliver?
    ensures FinDecides(RunNet(n0, events[..k]), events[k].act.i, RunNet(n0, events), left)
  {
    hide StepNet, FinDecides, NetInv;
    if events == [] {
      NoFinAtStart(n0, isn, syn, left);
      assert false;
    } else {
      var init, e := events[..|events| - 1], events[|events| - 1];
      var m := RunNet(n0, init);
      RunNetKeeps(n0, isn, syn, init);
      if End(m, left).rx.fins == 1 {
        k := FinTaken(n0, isn, syn, init, left);
        assert init[..k] == events[..k];
        DecidedLater(RunNet(n0, init[..k]), init[k].act.i, m, e, left);
      } else {
        k := |events| - 1;
        FinTakes(m, e, left);
      }
    }
  }

  lemma NoFinAtStart(n0: Net, isn: u32, syn: Segment, left: bool)
    requires Start(n0, isn, syn)
    ensures End(n0, left).rx.fins == 0
  {
  }

  /** Once decided, it stays so. */
  lemma DecidedLater(n: Net, i: nat, m: Net, e: NetEvent, left: bool)
    requires FinDecides(n, i, m, left) && NetInv(m) && End(m, left).rx.fins == 1
    ensures FinDecides(n, i, StepNet(m, e), left)
  {
    StepSince(m, e, left);
    StepSince(m, e, !left);
    hide Wrap, NetInv, StepNet;
    var (tx, tx') := (End(m, !left).tx, End(StepNet(m, e), !left).tx);
    assert tx'.written[..tx.finPos.value] == tx.written[..tx.finPos.value];
    assert tx'.written[..|tx'.written|] == tx'.written;
  }

  /** The step that takes the FIN. */
  lemma FinTakes(n: Net, e: NetEvent, left: bool)
    requires NetInv(n) && End(n, left).rx.fins != 1 && End(StepNet(n, e), left).rx.fins == 1
    ensures e.left == left && e.act.Deliver? && FinDecides(n, e.act.i, StepNet(n, e), left)
  {
    hide Wrap, Local, Sending, LogOut, ReceiveInv, StateInv, TimerInv, FrameOut, AckGood;
    var (self, peer) := (End(n, left), End(n, !left));
    OneFin(self.rx) by { BothReceive(n, left); }
    FinRaised(self, peer, e.act);
    var f := peer.tx.log[e.act.i];
    Logged(peer, self, e.act.i);
    FinFrame(f, peer, self.tx.iss);
    SendingBounds(peer);
    FinNumberIff(self.rx, peer.tx, f);
  }

  lemma BothReceive(n: Net, left: bool)
    requires NetInv(n)
    ensures ReceiveInv(End(n, left).rx)
  {
    hide ReceiveInv, Direction;
  }

  /** Only the delivery of a FIN raises the count; it delivers no byte. */
  lemma FinRaised(self: Conn, peer: Conn, act: Act)
    requires Local(self, peer, act).rx.fins > self.rx.fins
    ensures act.Deliver? && act.i < |peer.tx.log| && Has(peer.tx.log[act.i].seg.flags, FIN)
    ensures peer.tx.log[act.i].seg.payload == [] ==> Local(self, peer, act).rx.delivered == self.rx.delivered
  {
    hide Wrap, ProcessAck, Write, OnRto, Emit;
  }

  lemma FinNumberIff(rx: Rx, tx: Tx, f: Frame)
    requires ReceiveInv(rx) && rx.fins == 0 && Received(tx, rx) && tx.finPos == Some(f.pos)
    requires f.seg.seqNum == Wrap(tx.iss + 1 + f.pos) && f.pos <= tx.sentPos <= tx.ackedPos + 65536
    ensures f.seg.seqNum == rx.rcvNxt <==> |rx.delivered| == f.pos
    ensures rx.delivered == tx.written[..f.pos] <==> |rx.delivered| == f.pos
    ensures rx.delivered == tx.written <==> |rx.delivered| == f.pos == |tx.written|
  {
    if f.seg.seqNum == rx.rcvNxt {
      WrapInjective(tx.iss + 1 + f.pos, tx.iss + 1 + |rx.delivered|);
    }
    hide Wrap;
    assert rx.delivered == tx.written[..|rx.delivered|];
  }

  // ----- a FIN that overtakes data ---------------------------------------

  /** One byte written into an idle open connection with room in the window. */
  lemma WriteOne(c: Conn)
    requires c.state.Established? && c.accepted > 0 && c.tx.nxt == c.tx.una && c.tx.wnd > 0
    requires c.tx.unsent == [] && c.tx.written == []
    ensures var d := Step(c, AppWrite([65]));
      && d.state.Established? && d.accepted == c.accepted && d.rx == c.rx && d.tx.written == [65] && d.tx.unsent == []
      && d.tx.nxt == Wrap(c.tx.nxt + 1) && d.tx.sentPos == c.tx.sentPos + 1 && d.tx.iss == c.tx.iss
      && d.tx.finPos == c.tx.finPos && |d.tx.log| == |c.tx.log| + 1
  {
    var (st, tx) := (StampOf(c.rx), c.tx.(unsent := [65], written := [65]));
    assert [] + [65] == [65] && [65][1..] == [];
    WrapDistance(0);
    hide Wrap;
    assert InFlight(tx) == 0 && ChunkSize(tx) == 1;
    ChunkFields(tx, st);
    hide SendChunk;
    PumpOnce(tx, st);
    hide Pump;
  }

  /** The server ESTABLISHED by the client's acknowledgment. */
  lemma Accepted(n: Net, isn: u32, syn: Segment)
    requires Start(n, isn, syn)
    ensures var c := Local(n.a, n.b, Deliver(1));
      && c.state.Established? && c.accepted == 1 && c.rx == n.a.rx && c.tx.iss == isn
        && c.tx.nxt == c.tx.una == Wrap(isn + 1)
      && c.tx.wnd == n.b.rx.rcvWnd && c.tx.unsent == [] && c.tx.written == [] && c.tx.sentPos == 0
      && c.tx.finPos.None? && |c.tx.log| == 1
  {
    NotBeyondSelf(Wrap(isn + 1));
    hide Wrap, GT, TimerInv;
    ServerStart(n, isn, syn);
    hide Direction;
  }

  /** What a client that has received nothing does with the FIN. */
  lemma EarlyFin(n: Net, isn: u32, syn: Segment, f: Frame)
    requires Start(n, isn, syn) && f.seg.flags == FIN_ACK && f.seg.payload == [] && f.seg.ackNum == n.b.tx.nxt
    ensures var d := HandleSegment(n.b, f.seg);
      d.rx.readChClosed && d.rx.delivered == [] && forall k: nat :: Read(d.rx, k).1 == Eof
  {
    NotBeyondSelf(n.b.tx.nxt);
    hide Wrap, GT, TimerInv;
  }

  /** The server writes a byte and closes with nothing unsent; the client gets the FIN
      first. Its reader is told the end, with nothing read of what was written. */
  lemma OvertakenRun(n0: Net, isn: u32, syn: Segment)
    requires Start(n0, isn, syn) && n0.b.rx.rcvWnd > 0
    ensures var n := RunNet(n0, [NetEvent(true, Deliver(1)), NetEvent(true, Send([65])), NetEvent(true, Shut),
                                 NetEvent(false, Deliver(2))]);
      && n.a.tx.written == [65] && n.a.tx.unsent == [] && n.a.tx.finPos == Some(1)
      && n.b.rx.delivered == [] && forall k: nat :: Read(n.b.rx, k).1 == Eof
  {
    hide Start, Wrap, HandleSegment, Write, RunNet, Read;
    var (e1, e2, e3, e4) := (NetEvent(true, Deliver(1)), NetEvent(true, Send([65])), NetEvent(true, Shut),
                             NetEvent(false, Deliver(2)));
    RunNetFour(n0, e1, e2, e3, e4);
    Accepted(n0, isn, syn);
    Acknowledges(n0, isn, syn);
    var n1 := StepNet(n0, e1);
    WriteOne(n1.a);
    var n2 := StepNet(n1, e2);
    FinalFin(n2.a);
    var n3 := StepNet(n2, e3);
    var f := n3.a.tx.log[2];
    EarlyFin(n0, isn, syn, f);
  }

  lemma Acknowledges(n: Net, isn: u32, syn: Segment)
    requires Start(n, isn, syn)
    ensures n.a.rx.rcvNxt == n.b.tx.nxt && n.a.rx.delivered == [] && n.a.rx.fins == 0 && n.b.tx.sentPos == 0
  {
    hide Wrap;
  }

  lemma FinalFin(c: Conn)
    requires c.accepted > 0 && c.tx.finPos.None? && |c.tx.log| == 2 && c.tx.sentPos == 1 && c.rx.delivered == []
      && c.rx.fins == 0
    ensures var d := Step(c, AppClose); var f := d.tx.log[2];
      && d.tx == c.tx.(nxt := d.tx.nxt, sentPos := 2, finPos := Some(1), log := d.tx.log) && |d.tx.log| == 3
      && f.pos == 1 && f.ackPos == 0 && f.seg.flags == FIN_ACK && f.seg.payload == [] && f.seg.ackNum == c.rx.rcvNxt
  {
    WrapDistance(0);
    hide Wrap;
  }

  lemma RunNetFour(n: Net, e1: NetEvent, e2: NetEvent, e3: NetEvent, e4: NetEvent)
    ensures RunNet(n, [e1, e2, e3, e4]) == StepNet(StepNet(StepNet(StepNet(n, e1), e2), e3), e4)
  {
    hide StepNet;
    assert [e1, e2, e3, e4][..3] == [e1, e2, e3] && [e1, e2, e3][..2] == [e1, e2] && [e1, e2][..1] == [e1]
      && [e1][..0] == [];
    assert RunNet(n, [e1]) == StepNet(n, e1);
    assert RunNet(n, [e1, e2]) == StepNet(RunNet(n, [e1]), e2);
    assert RunNet(n, [e1, e2, e3]) == StepNet(RunNet(n, [e1, e2]), e3);
  }
}
