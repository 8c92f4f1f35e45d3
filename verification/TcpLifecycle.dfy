/** A connection from ESTABLISHED to its end: what every segment is answered with,
    the orderly close from either side, and the reset. */
module TcpLifecycle {
  import opened Bits
  import opened Seq32
  import opened TcpModel
  import opened TcpRun

  /** A flag is tested by its bit. */
  lemma HasIff(flags: byte, flag: byte, i: nat)
    requires flag == Pow2(i)
    ensures Has(flags, flag) <==> And(flags, flag) != 0
  {
    BitTest(flags, i);
  }

  lemma {:induction false} BitTest(a: nat, i: nat)
    ensures And(a, Pow2(i)) != 0 <==> a / Pow2(i) % 2 == 1
    decreases i
  {
    if i == 0 {
      BitZero(a);
    } else {
      BitTest(a / 2, i - 1);
      AndOddMask(a, Pow2(i - 1));
      DivDiv(a, 2, Pow2(i - 1));
    }
  }

  lemma BitZero(a: nat)
    ensures And(a, 1) == a % 2 && Pow2(0) == 1
  {
    assert And(a / 2, 0) == 0;
  }

  // ----- answers ---------------------------------------------------------

  /** A bare ACK at SND.NXT for everything received. */
  function BareAck(tx: Tx, rx: Rx): Frame {
    Frame(Segment(tx.nxt, rx.rcvNxt, ACK, rx.rcvWnd, [], []), tx.sentPos, |rx.delivered| + rx.fins)
  }

  predicate Expected(rx: Rx, seg: Segment) {
    seg.payload != [] && seg.seqNum == rx.rcvNxt
  }

  lemma AckIsBare(c: Conn)
    ensures EmitAck(c) == c.(tx := c.tx.(log := c.tx.log + [BareAck(c.tx, c.rx)]))
  {
  }

  /** A payload is taken exactly when the segment starts at RCV.NXT: it is delivered
      as one chunk and one ACK answers it, for the number behind it; any other
      segment changes nothing and draws no answer. */
  lemma PayloadAnswered(c: Conn, seg: Segment)
    requires ReceiveInv(c.rx) && !c.rx.readChClosed
    ensures var d := ReceivePayload(c, seg);
      if Expected(c.rx, seg) then
        && d == c.(rx := d.rx, tx := c.tx.(log := c.tx.log + [BareAck(c.tx, d.rx)]))
        && d.rx.rcvNxt == Wrap(seg.seqNum + |seg.payload|)
        && d.rx.delivered == c.rx.delivered + seg.payload && d.rx.readCh == c.rx.readCh + [seg.payload]
      else d == c
  {
    hide Wrap, EmitAck;
    AckIsBare(c.(rx := TakeData(c.rx, seg.payload)));
    assert [] + seg.payload == seg.payload;
  }

  /** ESTABLISHED: what an accepted segment is answered with, behind what its ACK lets
      go: one ACK for a payload taken, one for a FIN, which also ends the
      channel and the state. */
  lemma SegmentAnswered(c: Conn, seg: Segment)
    requires c.state.Established? && ReceiveInv(c.rx) && !c.rx.readChClosed && !Has(seg.flags, RST)
    requires ProcessAck(c.tx, StampOf(c.rx), seg).1
    ensures var (d, tx) := (HandleSegment(c, seg), ProcessAck(c.tx, StampOf(c.rx), seg).0);
      var rx1 := if Expected(c.rx, seg) then TakeData(c.rx, seg.payload) else c.rx;
      var acks := if Expected(c.rx, seg) then [BareAck(tx, rx1)] else [];
      if Has(seg.flags, FIN) then
        && d.state.CloseWait? && d.rx.readChClosed && d.rx.rcvNxt == Wrap(rx1.rcvNxt + 1)
        && d.rx.readCh == rx1.readCh && d.rx.delivered == rx1.delivered
        && d.tx == tx.(log := tx.log + acks + [BareAck(tx, d.rx)])
      else d.state.Established? && d.rx == rx1 && d.tx == tx.(log := tx.log + acks)
  {
    hide Wrap, ProcessAck, EmitAck, Has, TakeData;
    var c1 := c.(tx := ProcessAck(c.tx, StampOf(c.rx), seg).0);
    PayloadStays(c1, seg);
    AckIsBare(c1.(rx := TakeData(c.rx, seg.payload)));
    var c2 := ReceivePayload(c1, seg);
    AckIsBare(c2.(rx := TakeFin(c2.rx), state := CloseWait));
    assert c1.tx.log + [] == c1.tx.log;
  }

  lemma PayloadStays(c: Conn, seg: Segment)
    requires !c.rx.readChClosed
    ensures !TakeData(c.rx, seg.payload).readChClosed
  {
  }

  // ----- reset -----------------------------------------------------------

  /** The connection is over: nothing kept, no timer, out of the map. */
  predicate Over(c: Conn) {
    c.state.Closed? && c.tx.queue == [] && c.tx.unsent == [] && c.tx.timer.None? && !c.registered
  }

  /** A reset is taken exactly at RCV.NXT. It ends the connection and the channel, sends nothing
      and leaves what was received to be read; anywhere else it changes nothing. */
  lemma ResetIff(c: Conn, seg: Segment)
    requires Has(seg.flags, RST) && !c.state.Closed?
    ensures var d := HandleSegment(c, seg);
      if seg.seqNum == c.rx.rcvNxt then
        && Over(d) && d.rx.readChClosed && d.rx.readCh == c.rx.readCh && d.rx.overflow == c.rx.overflow
        && d.rx.delivered == c.rx.delivered && d.tx.log == c.tx.log
      else d == c
  {
  }

  // ----- orderly close ---------------------------------------------------

  /** A segment that acknowledges nothing unsent, and is no reset. */
  predicate PlainAck(tx: Tx, seg: Segment) {
    Has(seg.flags, ACK) && !Has(seg.flags, RST) && !GT(seg.ackNum, tx.nxt)
  }

  lemma CloseStates(c: Conn)
    requires c.accepted > 0
    ensures var d := Step(c, AppClose);
      && (c.state.Established? ==> d.state.FinWait1?) && (c.state.CloseWait? ==> d.state.LastAck?)
      && d.cleanups == c.cleanups && d.rx == c.rx && d.accepted == c.accepted
      && d.tx.nxt == Wrap(c.tx.nxt + 1) && |d.tx.log| == |c.tx.log| + 1
      && d.tx.log[|c.tx.log|].seg == Segment(c.tx.nxt, c.rx.rcvNxt, FIN_ACK, c.rx.rcvWnd, [], [])
  {
    hide Wrap;
  }

  /** The states of a close from this side: FIN_WAIT_1, and with an ACK and then a FIN, or a
      FIN with its ACK, TIME_WAIT with one cleanup pending, which ends it. */
  lemma ActiveClose(c: Conn, ack: Segment, fin: Segment)
    requires c.state.FinWait1? && PlainAck(c.tx, ack) && Has(fin.flags, FIN) && !Has(fin.flags, RST)
    ensures !Has(ack.flags, FIN) ==>
      var c1 := HandleSegment(c, ack);
      && c1.state.FinWait2? && c1.rx == c.rx
      && EndsIn(c1, HandleSegment(c1, fin))
    ensures Has(ack.flags, FIN) ==> EndsIn(c, HandleSegment(c, ack))
  {
    hide Wrap, GT, Has, ProcessAck, EmitAck;
    AckAccepted(c.tx, StampOf(c.rx), ack);
    var c1 := c.(tx := ProcessAck(c.tx, StampOf(c.rx), ack).0);
    FinAcked(c1);
    FinAcked(HandleSegment(c, ack));
  }

  /** d follows c in TIME_WAIT, the FIN taken and acknowledged, and is over once its
      cleanup has run. */
  ghost predicate EndsIn(c: Conn, d: Conn) {
    && d.state.TimeWait? && d.cleanups == c.cleanups + 1
    && d.rx == TakeFin(c.rx) && d.tx.log != [] && d.tx.log[|d.tx.log| - 1] == BareAck(d.tx, d.rx)
    && Over(Step(d, TimeWaitFired))
  }

  lemma AckAccepted(tx: Tx, st: Stamp, seg: Segment)
    requires PlainAck(tx, seg)
    ensures ProcessAck(tx, st, seg).1
  {
    hide Wrap, GT, Has, TakeAck, Pump;
  }

  lemma FinAcked(c: Conn)
    ensures EndsIn(c, EnterTimeWait(EmitAck(c.(rx := TakeFin(c.rx)))))
  {
    hide Wrap;
    AckIsBare(c.(rx := TakeFin(c.rx)));
  }

  /** A close from the other side: the FIN brings CLOSE_WAIT and the end of the
      channel, Close LAST_ACK, and an ACK the end. */
  lemma PassiveClose(c: Conn, fin: Segment, ack: Segment)
    requires c.state.Established? && c.accepted > 0 && PlainAck(c.tx, fin) && Has(fin.flags, FIN)
    requires Has(ack.flags, ACK) && !Has(ack.flags, RST)
    ensures var c1 := HandleSegment(c, fin);
      var c2 := Step(c1, AppClose);
      && c1.state.CloseWait? && c1.rx.readChClosed && c2.state.LastAck? && Over(HandleSegment(c2, ack))
  {
    hide Wrap, GT, Has, ProcessAck, EmitAck, TakeData;
    AckAccepted(c.tx, StampOf(c.rx), fin);
    var c1 := c.(tx := ProcessAck(c.tx, StampOf(c.rx), fin).0);
    AckIsBare(c1.(rx := TakeData(c.rx, fin.payload)));
    var c2 := ReceivePayload(c1, fin);
    AckIsBare(c2.(rx := TakeFin(c2.rx), state := CloseWait));
    CloseStates(HandleSegment(c, fin));
  }
}
