/** The stream invariant of the send half over whole runs, and the exact
    conditions under which the handshake, Close and a FIN respect it. */
module TcpStream {
  import opened Seq32
  import opened TcpModel
  import opened TcpSender
  import opened TcpRun
  import opened TcpAfterClose

  /** Nothing written, only the SYN on its way. */
  ghost predicate AwaitingHandshake(tx: Tx) {
    && tx.una == tx.iss && tx.nxt == Wrap(tx.iss + 1)
    && tx.unsent == [] && tx.queue == [] && tx.written == []
    && tx.sentPos == 0 && tx.ackedPos == -1
  }

  /** Nothing waits that could be sent. */
  predicate Pumped(tx: Tx) {
    tx.unsent == [] || tx.sentPos - tx.ackedPos >= tx.wnd
  }

  /** The stream is open until Close or an abort. */
  ghost predicate OpenInv(c: Conn) {
    && (c.state.SynReceived? ==> AwaitingHandshake(c.tx))
    && (c.state.Established? || c.state.CloseWait? ==> SendInv(c.tx) && Pumped(c.tx))
  }

  predicate CompletesHandshake(c: Conn, seg: Segment) {
    c.state.SynReceived? && Has(seg.flags, ACK) && !Has(seg.flags, RST)
  }

  /** SYN_RECEIVED takes SND.UNA from whatever ACK arrives: the send half then
      satisfies its invariant exactly when that ACK acknowledged the SYN. */
  lemma HandshakeIff(c: Conn, seg: Segment)
    requires CompletesHandshake(c, seg) && AwaitingHandshake(c.tx)
    ensures SendInv(HandleSegment(c, seg).tx) <==> seg.ackNum == Wrap(c.tx.iss + 1)
  {
    var tx := Establish(c, seg).tx;
    EstablishedNumbers(tx, seg.ackNum);
    HandleEstablishedTx(Establish(c, seg), seg);
  }

  lemma AckOne(iss: u32, ack: u32)
    ensures Wrap(iss + 1 + (-1 + Wrap(ack - iss))) == ack && (Wrap(ack - iss) == 1 <==> ack == Wrap(iss + 1))
  {
    WrapSub(ack - iss, iss);
    WrapSub(iss + 1, iss);
    hide Wrap;
    WrapSelf(ack);
    WrapSelf(1);
    if ack == Wrap(iss + 1) {
      WrapSub(iss + 1, 0 - iss);
    }
  }

  lemma WrapSelf(a: u32)
    ensures Wrap(a) == a
  {
  }

  lemma NotBeyondSelf(a: u32)
    ensures !GT(a, a)
  {
  }

  lemma EstablishedNumbers(tx: Tx, ack: u32)
    requires tx.una == ack && tx.nxt == Wrap(tx.iss + 1) && tx.sentPos == 0 && tx.ackedPos == -1 + Wrap(ack - tx.iss)
    requires tx.unsent == [] && tx.queue == [] && tx.written == []
    ensures SendInv(tx) <==> ack == Wrap(tx.iss + 1)
    ensures !GT(ack, tx.una)
  {
    NotBeyondSelf(ack);
    AckOne(tx.iss, ack);
    hide LT, LE, GT, Wrap;
  }

  /** Beyond what ProcessAck does, the receive path only appends to the log. */
  lemma HandleEstablishedTx(c: Conn, seg: Segment)
    ensures var (d, tx) := (HandleEstablished(c, seg), ProcessAck(c.tx, StampOf(c.rx), seg).0);
      d.tx == tx.(log := d.tx.log)
  {
  }

  lemma SendInvLog(tx: Tx, log: seq<Frame>)
    ensures SendInv(tx.(log := log)) <==> SendInv(tx)
  {
  }

  lemma {:induction false} PumpEnds(tx: Tx, st: Stamp)
    ensures !CanSend(PumpLoop(tx, st)) && !CanSend(Pump(tx, st))
    decreases |tx.unsent|
  {
    if CanSend(tx) {
      PumpEnds(SendChunk(tx, st), st);
    }
  }

  lemma PumpedIff(tx: Tx)
    requires SendInv(tx)
    ensures Pumped(tx) <==> !CanSend(tx)
  {
    hide InFlight;
    FlightSize(tx);
  }

  lemma NothingUnsent(c: Conn, seg: Segment)
    requires CompletesHandshake(c, seg) && c.tx.unsent == []
    ensures HandleSegment(c, seg).tx.unsent == []
  {
    hide Wrap, GT, Has, TakeAck, PumpLoop;
    NotBeyondSelf(seg.ackNum);
    HandleEstablishedTx(Establish(c, seg), seg);
  }

  lemma AckPumps(tx: Tx, st: Stamp, seg: Segment)
    requires !CanSend(tx)
    ensures !CanSend(ProcessAck(tx, st, seg).0)
  {
    hide PumpLoop, Wrap, GT, TakeAck;
    PumpEnds(TakeAck(tx, seg), st);
  }

  lemma SegmentOpen(c: Conn, seg: Segment)
    requires OpenInv(c)
    requires CompletesHandshake(c, seg) ==> seg.ackNum == Wrap(c.tx.iss + 1)
    ensures OpenInv(HandleSegment(c, seg))
  {
    hide Wrap, SendInv, ProcessAck;
    if CompletesHandshake(c, seg) {
      HandshakeIff(c, seg);
      NothingUnsent(c, seg);
    } else if c.state.Established? {
      ProcessAckKeeps(c.tx, StampOf(c.rx), seg);
      PumpedIff(c.tx);
      AckPumps(c.tx, StampOf(c.rx), seg);
      HandleEstablishedTx(c, seg);
      SendInvLog(ProcessAck(c.tx, StampOf(c.rx), seg).0, HandleEstablished(c, seg).tx.log);
      PumpedIff(ProcessAck(c.tx, StampOf(c.rx), seg).0);
    }
  }

  lemma StepOpen(c: Conn, e: Event)
    requires c.state.SynReceived? ==> c.accepted == 0
    requires OpenInv(c)
    requires e.Arrival? && CompletesHandshake(c, e.seg) ==> e.seg.ackNum == Wrap(c.tx.iss + 1)
    ensures OpenInv(Step(c, e))
  {
    hide Wrap, SendInv;
    var open := c.state.Established? || c.state.CloseWait?;
    match e
    case AppWrite(data) =>
      if open {
        WriteKeeps(c.tx, StampOf(c.rx), data);
        PumpEnds(c.tx.(unsent := c.tx.unsent + data, written := c.tx.written + data), StampOf(c.rx));
        PumpedIff(Write(c.tx, StampOf(c.rx), data));
      }
    case Arrival(seg) => SegmentOpen(c, seg);
    case RtoFired => if open { OnRtoKeeps(c.tx, StampOf(c.rx)); }
    case _ =>
  }

  /** Whenever the handshake completes along the run, its ACK acknowledges the SYN. */
  ghost predicate GoodHandshake(c: Conn, events: seq<Event>) {
    forall k :: 0 <= k < |events| && events[k].Arrival? && CompletesHandshake(Run(c, events[..k]), events[k].seg)
      ==> events[k].seg.ackNum == Wrap(c.tx.iss + 1)
  }

  lemma {:induction false} RunIss(c: Conn, events: seq<Event>)
    ensures Run(c, events).tx.iss == c.tx.iss
  {
    if events != [] {
      RunIss(c, events[..|events| - 1]);
      StepIss(Run(c, events[..|events| - 1]), events[|events| - 1]);
    }
  }

  lemma {:induction false} PumpIss(tx: Tx, st: Stamp)
    ensures var t := PumpLoop(tx, st); t.iss == tx.iss && t.finPos == tx.finPos && t.written == tx.written
    decreases |tx.unsent|
  {
    if CanSend(tx) {
      PumpIss(SendChunk(tx, st), st);
    }
  }

  lemma StepIss(c: Conn, e: Event)
    ensures Step(c, e).tx.iss == c.tx.iss
  {
    hide Wrap;
    var st := StampOf(c.rx);
    match e
    case AppWrite(data) => PumpIss(c.tx.(unsent := c.tx.unsent + data, written := c.tx.written + data), st);
    case Arrival(seg) =>
      hide HandleSegment;
      SegmentIss(c, seg);
    case _ =>
  }

  lemma SegmentIss(c: Conn, seg: Segment)
    ensures var t := HandleSegment(c, seg).tx; t.iss == c.tx.iss && t.finPos == c.tx.finPos && t.written == c.tx.written
  {
    hide Wrap, ProcessAck, Has, StampOf, HandleEstablished;
    var e := Establish(c, seg);
    HandleEstablishedTx(c, seg);
    HandleEstablishedTx(e, seg);
    ProcessAckIss(c.tx, StampOf(c.rx), seg);
    ProcessAckIss(e.tx, StampOf(e.rx), seg);
  }

  lemma ProcessAckIss(tx: Tx, st: Stamp, seg: Segment)
    ensures var t := ProcessAck(tx, st, seg).0; t.iss == tx.iss && t.finPos == tx.finPos && t.written == tx.written
  {
    hide Wrap, LT, LE, GT, Drain, PumpLoop, CanSend, Has;
    PumpIss(TakeAck(tx, seg), st);
  }

  /** Conservation over every run: as long as the stream is open, the send half
      satisfies its invariant, so at most 65535 bytes are in flight, and nothing
      waits unsent but for the window. */
  lemma {:induction false} RunOpen(isn: u32, syn: Segment, events: seq<Event>)
    requires GoodHandshake(HandleSyn(isn, syn), events)
    ensures OpenInv(Run(HandleSyn(isn, syn), events))
  {
    hide SendInv, Step, StateInv, ReceiveInv, TimerInv;
    var c0 := HandleSyn(isn, syn);
    if events != [] {
      var prefix := events[..|events| - 1];
      forall k | 0 <= k < |prefix| ensures prefix[..k] == events[..k] {
      }
      RunOpen(isn, syn, prefix);
      RunKeeps(isn, syn, prefix);
      RunIss(c0, prefix);
      NotYetAccepted(Run(c0, prefix));
      StepOpen(Run(c0, prefix), events[|events| - 1]);
    }
  }

  lemma NotYetAccepted(c: Conn)
    requires StateInv(c)
    ensures c.state.SynReceived? ==> c.accepted == 0
  {
  }

  /** Close: the FIN stands at the end of the written stream exactly when
      nothing is unsent. */
  lemma CloseIff(c: Conn)
    requires SendInv(c.tx)
    ensures var log := Close(c).tx.log;
      && |log| == |c.tx.log| + 1 && Has(log[|log| - 1].seg.flags, FIN)
      && (log[|log| - 1].pos == |c.tx.written| <==> c.tx.unsent == [])
  {
  }

  /** A frame behind the FIN: its number is that of the position after its bytes'. */
  ghost predicate Misplaced(f: Frame, iss: u32, written: seq<byte>) {
    && 1 <= f.pos && f.pos - 1 + |f.seg.payload| <= |written|
    && f.seg.payload == written[f.pos - 1..f.pos - 1 + |f.seg.payload|]
    && f.seg.seqNum == Wrap(iss + 1 + f.pos)
  }

  ghost predicate AllMisplaced(log0: seq<Frame>, tx: Tx, cut: int) {
    && log0 <= tx.log
    && forall i :: |log0| <= i < |tx.log| ==> tx.log[i].pos > cut && Misplaced(tx.log[i], tx.iss, tx.written)
  }

  /** After Close every chunk of the rest of the stream goes out one position
      after the bytes it carries: those that an ACK lets go, whatever the segment,
      and those of a later Write. */
  lemma CloseMisplaces(c: Conn, st: Stamp, seg: Segment, data: seq<byte>)
    requires SendInv(c.tx) && c.tx.finPos.None?
    ensures var d := Close(c).tx;
      && AllMisplaced(d.log, ProcessAck(d, st, seg).0, c.tx.sentPos)
      && AllMisplaced(d.log, Write(d, st, data), c.tx.sentPos)
  {
    hide SendInv, LateInv, ProcessAck, Write, SendFin, LateFrames, Behind, AllMisplaced;
    CloseLate(c.tx, StampOf(c.rx));
    var d := Close(c).tx;
    AckLate(d, st, seg, false);
    WriteLate(d, st, data, false);
    FinKnown(d, false);
    BehindMisplaced(d.log, ProcessAck(d, st, seg).0);
    BehindMisplaced(d.log, Write(d, st, data));
  }

  lemma BehindMisplaced(log0: seq<Frame>, tx: Tx)
    requires tx.finPos.Some? && tx.finPos.value >= 0 && LateFrames(log0, tx, false) && Behind(log0, tx)
    ensures AllMisplaced(log0, tx, tx.finPos.value)
  {
    hide Wrap;
  }

  lemma RunFour(c: Conn, e1: Event, e2: Event, e3: Event, e4: Event)
    ensures Run(c, [e1]) == Step(c, e1) && Run(c, [e1, e2]) == Step(Step(c, e1), e2)
    ensures Run(c, [e1, e2, e3]) == Step(Step(Step(c, e1), e2), e3)
    ensures Run(c, [e1, e2, e3, e4]) == Step(Step(Step(Step(c, e1), e2), e3), e4)
  {
    hide Step;
    assert [e1, e2, e3, e4][..3] == [e1, e2, e3] && [e1, e2, e3][..2] == [e1, e2] && [e1, e2][..1] == [e1]
      && [e1][..0] == [];
  }

  const NARROW_SYN := Segment(0, 0, SYN, 1, [], [])
  const NARROW_ACK := Segment(1, 1, ACK, 1, [], [])
  const WIDE_ACK := Segment(1, 2, ACK, 10, [], [])

  /** It happens: a window of one byte, two bytes written, Close, and the ACK that
      opens the window. The second byte then goes out at position 2. */
  lemma MisplacedRun()
    ensures var tx := Run(HandleSyn(0, NARROW_SYN), [Arrival(NARROW_ACK), AppWrite([65, 66]), AppClose,
      Arrival(WIDE_ACK)]).tx;
      && tx.written == [65, 66] && |tx.log| == 4 && Has(tx.log[2].seg.flags, FIN)
      && tx.log[2].pos == 1 && tx.log[3].pos == 2 && tx.log[3].seg.payload == [66]
  {
    hide Run, HandleSyn, HandleSegment, Write, Wrap;
    var c0 := HandleSyn(0, NARROW_SYN);
    RunFour(c0, Arrival(NARROW_ACK), AppWrite([65, 66]), AppClose, Arrival(WIDE_ACK));
    NarrowHandshake();
    var c1 := Step(c0, Arrival(NARROW_ACK));
    NarrowWrite(c1);
    var c2 := Step(c1, AppWrite([65, 66]));
    NarrowClose(c2);
    WideAck(Step(c2, AppClose));
  }

  lemma NarrowHandshake()
    ensures var c := Step(HandleSyn(0, NARROW_SYN), Arrival(NARROW_ACK)); var tx := c.tx;
      && c.state.Established? && c.accepted == 1 && tx.nxt == 1 && tx.una == 1 && tx.wnd == 1 && tx.wl1 == 0
        && tx.mss == 536
      && tx.unsent == [] && tx.queue == [] && tx.written == [] && |tx.log| == 1 && tx.sentPos == 0 && tx.finPos.None?
  {
  }

  lemma NarrowWrite(c: Conn)
    requires c.accepted == 1 && c.tx.nxt == 1 && c.tx.una == 1 && c.tx.wnd == 1 && c.tx.mss == 536
    requires c.tx.unsent == [] && c.tx.queue == [] && c.tx.written == [] && c.tx.sentPos == 0
    ensures var t := Step(c, AppWrite([65, 66])).tx;
      && t == c.tx.(nxt := 2, sentPos := 1, written := [65, 66], unsent := [66], queue := [Sent(1, [65], ACK)],
        log := t.log, rto := t.rto, timer := t.timer)
      && |t.log| == |c.tx.log| + 1
  {
    var (st, tx) := (StampOf(c.rx), c.tx.(unsent := [65, 66], written := [65, 66]));
    assert [] + [65, 66] == [65, 66] && [65, 66][..1] == [65] && [65, 66][1..] == [66];
    assert InFlight(tx) == 0 && ChunkSize(tx) == 1;
    ChunkFields(tx, st);
    hide SendChunk;
    assert InFlight(SendChunk(tx, st)) == 1;
    PumpOnce(tx, st);
    hide Pump;
  }

  /** A pump that sends one chunk. */
  lemma PumpOnce(tx: Tx, st: Stamp)
    requires CanSend(tx) && !CanSend(SendChunk(tx, st))
    ensures Pump(tx, st) == StartRtoIfIdle(SendChunk(tx, st))
  {
    hide CanSend, SendChunk, StartRtoIfIdle;
    PumpLoopStep(tx, st);
    PumpLoopStep(SendChunk(tx, st), st);
  }

  lemma NarrowClose(c: Conn)
    requires c.accepted == 1 && c.state.Established? && c.tx.nxt == 2 && c.tx.sentPos == 1
    ensures var d := Step(c, AppClose);
      && d.state.FinWait1? && d.tx == c.tx.(nxt := 3, sentPos := 2, log := d.tx.log, finPos := d.tx.finPos)
      && |d.tx.log| == |c.tx.log| + 1 && c.tx.log <= d.tx.log
      && Has(d.tx.log[|c.tx.log|].seg.flags, FIN) && d.tx.log[|c.tx.log|].pos == 1
  {
  }

  lemma WideAck(c: Conn)
    requires c.state.FinWait1? && c.tx.una == 1 && c.tx.nxt == 3 && c.tx.sentPos == 2 && c.tx.wl1 == 0
      && c.tx.mss == 536
    requires c.tx.unsent == [66] && c.tx.queue == [Sent(1, [65], ACK)]
    ensures var t := HandleSegment(c, WIDE_ACK).tx;
      && t.written == c.tx.written && |t.log| == |c.tx.log| + 1 && c.tx.log <= t.log
      && t.log[|c.tx.log|].pos == 2 && t.log[|c.tx.log|].seg.payload == [66]
  {
    var (st, tx) := (StampOf(c.rx), TakeAck(c.tx, WIDE_ACK));
    WideTake(c.tx);
    hide TakeAck;
    assert [66][..1] == [66] && [66][1..] == [];
    assert InFlight(tx) == 1 && ChunkSize(tx) == 1;
    ChunkFields(tx, st);
    hide SendChunk;
    PumpOnce(tx, st);
    hide Pump;
  }

  lemma WideTake(tx: Tx)
    requires tx.una == 1 && tx.wl1 == 0 && tx.queue == [Sent(1, [65], ACK)]
    ensures var t := TakeAck(tx, WIDE_ACK);
      t == tx.(una := 2, wnd := 10, queue := [], wl1 := t.wl1, wl2 := t.wl2, rto := t.rto, timer := t.timer,
               expiries := t.expiries, ackedPos := t.ackedPos)
  {
    assert HeadAcked(tx.queue, 2) && tx.queue[1..] == [] && Drain(tx.queue, 2) == Drain([], 2);
  }

  /** The failing family of HandshakeIff: an ACK number ahead of SND.NXT leaves SND.UNA
      ahead of it, so more than any window seems in flight and Write sends nothing. */
  lemma WrongAckStalls(c: Conn, seg: Segment, k: int, st: Stamp, data: seq<byte>)
    requires CompletesHandshake(c, seg) && AwaitingHandshake(c.tx)
    requires 0 < k <= MOD - 65536 && seg.ackNum == Wrap(c.tx.iss + 1 + k)
    ensures var tx := HandleSegment(c, seg).tx;
      !SendInv(tx) && Write(tx, st, data) == tx.(unsent := data, written := data)
  {
    var tx := Establish(c, seg).tx;
    HandshakeIff(c, seg);
    HandleEstablishedTx(Establish(c, seg), seg);
    NotBeyondSelf(seg.ackNum);
    AheadBy(c.tx.iss + 1, k);
    hide Wrap, GT, SendInv;
    assert InFlight(HandleSegment(c, seg).tx) == MOD - k;
  }

  lemma AheadBy(a: int, k: int)
    requires 0 < k < MOD
    ensures Wrap(Wrap(a) - Wrap(a + k)) == MOD - k
  {
    WrapSub(a, a + k);
    WrapPeriod(-k, 1);
    WrapDistance(MOD - k);
    hide Wrap;
    assert a - (a + k) == -k;
  }

  /** A FIN is not checked against RCV.NXT: taking it leaves RCV.NXT right
      after the FIN exactly when the segment or its end was the one expected. */
  lemma FinIff(c: Conn, seg: Segment)
    requires c.state.Established? && Has(seg.flags, FIN) && !Has(seg.flags, RST) && |seg.payload| < MOD
    requires ProcessAck(c.tx, StampOf(c.rx), seg).1
    ensures HandleSegment(c, seg).rx.rcvNxt == Wrap(seg.seqNum + |seg.payload| + 1)
       <==> seg.seqNum == c.rx.rcvNxt || Wrap(seg.seqNum + |seg.payload|) == c.rx.rcvNxt
  {
    hide Wrap, ProcessAck;
    var len := |seg.payload|;
    WrapSub(seg.seqNum + len, 1);
    if Wrap(c.rx.rcvNxt + 1) == Wrap(Wrap(seg.seqNum + len) + 1) {
      WrapInjective(c.rx.rcvNxt + 1, Wrap(seg.seqNum + len) + 1);
    }
  }
}
