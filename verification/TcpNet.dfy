/** Two connections and the network between them. The network is what both ends
    ever sent: any logged frame may arrive, any number of times, in any order,
    or never. One bound is assumed, that a frame is not delivered after the
    stream it belongs to, or the stream it acknowledges, moved 2^32 bytes on.
    Each end may call Close once, at any time, and may write after it. */
module TcpNet {
  import opened Seq32
  import opened Wrappers
  import opened TcpModel
  import opened TcpSender
  import opened TcpRun
  import opened TcpStream
  import opened TcpAfterClose

  datatype Net = Net(a: Conn, b: Conn)

  datatype Act = Send(data: seq<byte>) | Receive(n: nat) | Expire | Deliver(i: nat) | Shut | Wait

  datatype NetEvent = NetEvent(left: bool, act: Act)

  ghost predicate Fresh(f: Frame, sender: Conn, receiver: Conn) {
    sender.tx.sentPos < f.pos + MOD && receiver.tx.sentPos < f.ackPos + MOD
  }

  ghost function Local(self: Conn, peer: Conn, act: Act): Conn {
    match act
    case Send(data) => Step(self, AppWrite(data))
    case Receive(n) => Step(self, AppRead(n))
    case Expire => Step(self, RtoFired)
    case Wait => Step(self, TimeWaitFired)
    case Shut => if self.tx.finPos.None? then Step(self, AppClose) else self
    case Deliver(i) =>
      if i < |peer.tx.log| && Fresh(peer.tx.log[i], peer, self)
      then Step(self, Arrival(peer.tx.log[i].seg))
      else self
  }

  ghost function StepNet(n: Net, e: NetEvent): Net {
    if e.left then Net(Local(n.a, n.b, e.act), n.b) else Net(n.a, Local(n.b, n.a, e.act))
  }

  ghost function RunNet(n: Net, events: seq<NetEvent>): Net {
    if events == [] then n else StepNet(RunNet(n, events[..|events| - 1]), events[|events| - 1])
  }

  /** A server that answered the client's SYN, and the client that took the
      answer: its acknowledgment is on the way. */
  ghost predicate Start(n: Net, isn: u32, syn: Segment) {
    var (tx, rx) := (n.b.tx, n.b.rx);
    && syn.flags == SYN && syn.payload == [] && n.a == HandleSyn(isn, syn)
    && n.b.state.Established? && n.b.accepted == 1 && n.b.registered && n.b.cleanups == 0
    && syn.seqNum == tx.iss && tx.una == tx.nxt == Wrap(tx.iss + 1) && tx.sentPos == tx.ackedPos == 0
    && tx.unsent == [] && tx.queue == [] && tx.written == [] && tx.finPos.None? && TimerInv(tx)
    && tx.log == [Frame(syn, -1, 0), Frame(Segment(tx.nxt, Wrap(isn + 1), ACK, rx.rcvWnd, [], []), 0, 0)]
    && rx == Rx(Wrap(isn + 1), rx.rcvWnd, [], [], false, [], false, isn, [], [], 0)
  }

  // ----- the invariant ---------------------------------------------------

  /** How far the stream reaches undisturbed: to the FIN, or to all that was sent. */
  function Cut(tx: Tx): int {
    if tx.finPos.Some? then tx.finPos.value else tx.sentPos
  }

  /** What an end sends once the handshake is done: a FIN, data or a bare ACK. */
  ghost predicate Good(f: Frame, tx: Tx, dropped: bool) {
    && f.seg.seqNum == Wrap(tx.iss + 1 + f.pos) && f.pos <= tx.sentPos
    && if f.seg.flags == FIN_ACK then f.seg.payload == [] && tx.finPos == Some(f.pos)
       else (f.seg.flags == ACK || f.seg.flags == PSH_ACK) && Placed(f.pos, f.seg.payload, tx.written, Cut(tx), dropped)
  }

  predicate Opening(f: Frame, tx: Tx) {
    && f.pos == -1 && f.seg.payload == [] && (f.seg.flags == SYN || f.seg.flags == SYN_ACK)
    && f.seg.seqNum == Wrap(tx.iss + 1 + f.pos) && f.pos <= tx.sentPos
  }

  predicate AckGood(f: Frame, rx: Rx, peerIss: u32) {
    Has(f.seg.flags, ACK) ==> 0 <= f.ackPos <= |rx.delivered| + rx.fins && f.seg.ackNum == Wrap(peerIss + 1 + f.ackPos)
  }

  ghost predicate FrameOut(f: Frame, c: Conn, peerIss: u32) {
    AckGood(f, c.rx, peerIss) && (Opening(f, c.tx) || Good(f, c.tx, c.state.Closed?))
  }

  ghost predicate LogOut(c: Conn, peerIss: u32) {
    forall i :: 0 <= i < |c.tx.log| ==> FrameOut(c.tx.log[i], c, peerIss)
  }

  ghost predicate Sending(c: Conn) {
    if c.tx.finPos.Some? then LateInv(c.tx, c.state.Closed?)
    else if c.state.SynReceived? then AwaitingHandshake(c.tx)
    else SendInv(c.tx)
  }

  /** What the receiver got is a prefix of what was written, within the cut; UNA is
      not past it, and a FIN was taken only if one was sent. */
  ghost predicate Received(tx: Tx, rx: Rx) {
    && rx.irs == tx.iss && rx.delivered <= tx.written && |rx.delivered| <= Cut(tx) <= |tx.written|
    && tx.ackedPos <= |rx.delivered| + rx.fins && (rx.fins > 0 ==> tx.finPos.Some?)
  }

  ghost predicate Direction(self: Conn, peer: Conn) {
    Sending(self) && Received(self.tx, peer.rx) && LogOut(self, peer.tx.iss)
  }

  /** What flows between two ends, both ways. */
  ghost predicate Pair(self: Conn, peer: Conn) {
    Direction(self, peer) && Direction(peer, self) && ReceiveInv(self.rx) && ReceiveInv(peer.rx)
  }

  predicate IsOpen(s: State) {
    s.SynReceived? || s.Established? || s.CloseWait?
  }

  ghost predicate Alone(c: Conn) {
    && ReceiveInv(c.rx) && StateInv(c) && TimerInv(c.tx)
    && (c.rx.readChClosed ==> c.rx.fins == 1) && (c.tx.finPos.None? <==> IsOpen(c.state))
  }

  ghost predicate NetInv(n: Net) {
    Alone(n.a) && Alone(n.b) && Direction(n.a, n.b) && Direction(n.b, n.a)
  }

  // ----- what a step may do ----------------------------------------------

  ghost predicate Grows(c: Conn, d: Conn) {
    && d.tx.iss == c.tx.iss && c.tx.written <= d.tx.written && c.tx.sentPos <= d.tx.sentPos && c.tx.log <= d.tx.log
    && (c.tx.finPos.Some? ==> d.tx.finPos == c.tx.finPos) && Cut(c.tx) <= Cut(d.tx) <= |d.tx.written|
    && (c.state.Closed? ==> d.state.Closed?)
    && |c.rx.delivered| <= |d.rx.delivered| && c.rx.fins <= d.rx.fins
  }

  ghost predicate AllGood(log0: seq<Frame>, tx: Tx, dropped: bool) {
    log0 <= tx.log && forall i :: |log0| <= i < |tx.log| ==> Good(tx.log[i], tx, dropped)
  }

  lemma FrameGrows(f: Frame, c: Conn, d: Conn, peerIss: u32)
    requires FrameOut(f, c, peerIss) && Grows(c, d)
    ensures FrameOut(f, d, peerIss)
  {
    hide Wrap, Placed;
    if Good(f, c.tx, c.state.Closed?) && f.seg.flags != FIN_ACK {
      PlacedGrows(f.pos, f.seg.payload, c, d);
    }
  }

  lemma PlacedGrows(pos: int, bytes: seq<byte>, c: Conn, d: Conn)
    requires Placed(pos, bytes, c.tx.written, Cut(c.tx), c.state.Closed?) && pos <= c.tx.sentPos && Grows(c, d)
    ensures Placed(pos, bytes, d.tx.written, Cut(d.tx), d.state.Closed?)
  {
    PlacedMono(pos, bytes, c.tx.written, Cut(c.tx), c.state.Closed?, d.tx.written, d.state.Closed?);
  }

  /** What an end stamps is where its receive half stands. */
  lemma StampGood(rx: Rx, tx: Tx)
    requires ReceiveInv(rx) && Received(tx, rx)
    ensures var st := StampOf(rx); st.ackPos == |rx.delivered| + rx.fins && st.ackNum == Wrap(tx.iss + 1 + st.ackPos)
  {
    hide Wrap;
  }

  /** A step of self from c to d, put together. */
  lemma Assemble(c: Conn, d: Conn, peer: Conn, st: Stamp)
    requires Pair(c, peer) && Grows(c, d) && Sending(d)
    requires ReceiveInv(d.rx) && Received(peer.tx, d.rx) && d.tx.ackedPos <= |peer.rx.delivered| + peer.rx.fins
    requires st == StampOf(d.rx) && Stamped(c.tx.log, d.tx.log, st) && AllGood(c.tx.log, d.tx, d.state.Closed?)
    ensures Pair(d, peer)
  {
    hide Wrap, Sending, Good, Opening, StampOf;
    StampGood(d.rx, peer.tx);
    forall i | 0 <= i < |d.tx.log| ensures FrameOut(d.tx.log[i], d, peer.tx.iss) {
      if i < |c.tx.log| {
        assert d.tx.log[i] == c.tx.log[i];
        FrameGrows(d.tx.log[i], c, d, peer.tx.iss);
      }
    }
  }

  lemma FromOpen(log0: seq<Frame>, tx: Tx)
    requires NewFramesOk(log0, tx) && tx.finPos.None?
    ensures AllGood(log0, tx, false)
  {
    hide Wrap;
  }

  lemma FromLate(log0: seq<Frame>, tx: Tx, dropped: bool)
    requires tx.finPos.Some? && LateFrames(log0, tx, dropped)
    ensures AllGood(log0, tx, dropped)
  {
    hide Wrap, Placed;
  }

  lemma OpenBounds(tx: Tx)
    requires SendInv(tx)
    ensures tx.sentPos <= |tx.written| && Near(tx)
  {
    hide Wrap, QueueInv;
  }

  lemma LateBounds(tx: Tx, dropped: bool)
    requires LateInv(tx, dropped)
    ensures tx.finPos.Some? && tx.finPos.value < tx.sentPos && tx.finPos.value <= |tx.written| && Near(tx)
  {
    hide Wrap, Ordered;
  }

  /** A step of the send half alone. */
  lemma TxOpen(c: Conn, t: Tx, peer: Conn)
    requires Pair(c, peer) && IsOpen(c.state) && !c.state.SynReceived?
    requires c.tx.finPos.None? && t.finPos.None? && SendInv(t) && t.iss == c.tx.iss && c.tx.written <= t.written
    requires c.tx.sentPos <= t.sentPos && t.ackedPos <= |peer.rx.delivered| + peer.rx.fins
    requires Stamped(c.tx.log, t.log, StampOf(c.rx)) && NewFramesOk(c.tx.log, t)
    ensures Pair(c.(tx := t), peer)
  {
    hide Wrap, SendInv, LogOut, LateInv, NewFramesOk, StampOf, ReceiveInv;
    OpenBounds(t);
    FromOpen(c.tx.log, t);
    Assemble(c, c.(tx := t), peer, StampOf(c.rx));
  }

  lemma TxLate(c: Conn, t: Tx, peer: Conn)
    requires Pair(c, peer) && c.tx.finPos.Some?
    requires Keeps(c.tx, t, StampOf(c.rx), c.state.Closed?) && c.tx.written <= t.written
    requires t.ackedPos <= |peer.rx.delivered| + peer.rx.fins
    ensures Pair(c.(tx := t), peer)
  {
    hide Wrap, SendInv, LogOut, LateInv, LateFrame, StampOf, ReceiveInv;
    LateBounds(t, c.state.Closed?);
    FromLate(c.tx.log, t, c.state.Closed?);
    Assemble(c, c.(tx := t), peer, StampOf(c.rx));
  }

  // ----- the steps -------------------------------------------------------

  lemma OpenPart(c: Conn)
    requires Sending(c) && c.tx.finPos.None? && !c.state.SynReceived?
    ensures SendInv(c.tx) && Near(c.tx)
  {
    hide Wrap, QueueInv;
  }

  lemma LatePart(c: Conn)
    requires Sending(c) && c.tx.finPos.Some?
    ensures LateInv(c.tx, c.state.Closed?) && Near(c.tx) && c.tx.finPos.value < c.tx.sentPos
  {
    hide Wrap, Ordered, Placed;
  }

  lemma WriteStep(self: Conn, peer: Conn, data: seq<byte>)
    requires Pair(self, peer) && Alone(self) && !self.state.SynReceived?
    ensures var d := self.(tx := Write(self.tx, StampOf(self.rx), data)); Pair(d, peer)
  {
    hide Wrap, SendInv, LogOut, LateInv, NewFramesOk, StampOf, ReceiveInv, StateInv, TimerInv, Write, Sending,
      LateFrames, Stamped;
    var (tx, st) := (self.tx, StampOf(self.rx));
    if tx.finPos.None? {
      OpenPart(self);
      WriteKeeps(tx, st, data);
      WriteFin(tx, st, data);
      TxOpen(self, Write(tx, st, data), peer);
    } else {
      LatePart(self);
      WriteLate(tx, st, data, self.state.Closed?);
      TxLate(self, Write(tx, st, data), peer);
    }
  }

  lemma WriteFin(tx: Tx, st: Stamp, data: seq<byte>)
    ensures Write(tx, st, data).finPos == tx.finPos && Write(tx, st, data).written == tx.written + data
  {
    PumpIss(tx.(unsent := tx.unsent + data, written := tx.written + data), st);
    hide PumpLoop, CanSend;
  }

  lemma ExpireStep(self: Conn, peer: Conn)
    requires Pair(self, peer) && Alone(self)
    ensures var d := self.(tx := OnRto(self.tx, StampOf(self.rx))); Pair(d, peer)
  {
    hide Wrap, SendInv, LogOut, LateInv, NewFramesOk, StampOf, ReceiveInv, StateInv, TimerInv, OnRto, LateFrames,
      Stamped;
    var (tx, st) := (self.tx, StampOf(self.rx));
    if tx.finPos.Some? {
      LatePart(self);
      OnRtoLate(tx, st, self.state.Closed?);
      TxLate(self, OnRto(tx, st), peer);
    } else {
      OnRtoFields(tx, st);
      if tx.queue != [] {
        OnRtoKeeps(tx, st);
        OnRtoFrame(tx, st);
        TxOpen(self, OnRto(tx, st), peer);
      } else {
        NoExpiry(tx, st);
      }
    }
  }

  lemma NoExpiry(tx: Tx, st: Stamp)
    requires tx.queue == []
    ensures OnRto(tx, st) == tx
  {
  }

  /** A frame's acknowledgment. */
  lemma AckStep(self: Conn, peer: Conn, f: Frame)
    requires Pair(self, peer) && Alone(self) && !self.state.SynReceived?
    requires FrameOut(f, peer, self.tx.iss) && Fresh(f, peer, self)
    ensures var d := self.(tx := ProcessAck(self.tx, StampOf(self.rx), f.seg).0); Pair(d, peer)
  {
    hide Wrap, SendInv, LogOut, LateInv, NewFramesOk, StampOf, ReceiveInv, StateInv, TimerInv, ProcessAck, Sending,
      Opening, Good, LateFrames, Stamped;
    var (tx, st) := (self.tx, StampOf(self.rx));
    var t := ProcessAck(tx, st, f.seg).0;
    ProcessAckIss(tx, st, f.seg);
    OneFin(peer.rx);
    if tx.finPos.None? {
      OpenPart(self);
      ProcessAckKeeps(tx, st, f.seg);
      Acknowledged(self, peer, f);
      TxOpen(self, t, peer);
    } else {
      LatePart(self);
      AckLate(tx, st, f.seg, self.state.Closed?);
      Acknowledged(self, peer, f);
      TxLate(self, t, peer);
    }
  }

  lemma OneFin(rx: Rx)
    requires ReceiveInv(rx)
    ensures rx.fins <= 1
  {
    hide Wrap;
  }

  /** A fresh acknowledgment moves UNA no further than the receiver is. */
  lemma Acknowledged(self: Conn, peer: Conn, f: Frame)
    requires Near(self.tx) && Received(self.tx, peer.rx) && AckGood(f, peer.rx, self.tx.iss) && Fresh(f, peer, self)
    requires self.tx.finPos.Some? ==> self.tx.finPos.value < self.tx.sentPos
    requires peer.rx.fins <= 1
    ensures ProcessAck(self.tx, StampOf(self.rx), f.seg).0.ackedPos <= |peer.rx.delivered| + peer.rx.fins
  {
    hide Wrap, StampOf;
    if Has(f.seg.flags, ACK) {
      hide ProcessAck;
      FreshAck(self.tx, StampOf(self.rx), f.seg, f.ackPos);
    }
  }

  /** A bare ACK with the receive half's new numbers. */
  lemma EmitStep(c: Conn, rx: Rx, state: State, peer: Conn)
    requires Pair(c, peer) && !c.state.SynReceived? && !state.SynReceived? && (c.tx.finPos.None? <==> IsOpen(c.state))
    requires (IsOpen(state) <==> IsOpen(c.state)) && (state.Closed? <==> c.state.Closed?)
    requires ReceiveInv(rx) && Received(peer.tx, rx) && |c.rx.delivered| <= |rx.delivered| && c.rx.fins <= rx.fins
    ensures Pair(EmitAck(c.(rx := rx, state := state)), peer)
  {
    hide Wrap, SendInv, LogOut, LateInv, NewFramesOk, StampOf, ReceiveInv, Sending, LateFrames, Stamped, Emit;
    var (d, st) := (EmitAck(c.(rx := rx, state := state)), StampOf(rx));
    if c.tx.finPos.None? {
      OpenPart(c);
      BareAckOk(c.tx, st);
      BareFields(c.tx, st);
      FromOpen(c.tx.log, d.tx);
      OpenSends(d);
    } else {
      LatePart(c);
      LateBounds(c.tx, c.state.Closed?);
      BareLate(c.tx, st, c.state.Closed?);
      BareFields(c.tx, st);
      FromLate(c.tx.log, d.tx, c.state.Closed?);
      LateSends(d);
    }
    Assemble(c, d, peer, st);
  }

  lemma BareFields(tx: Tx, st: Stamp)
    ensures var t := Emit(tx, st, ACK, [], tx.nxt, []); t == tx.(log := t.log) && tx.log <= t.log
  {
  }

  lemma OpenSends(c: Conn)
    requires SendInv(c.tx) && c.tx.finPos.None? && !c.state.SynReceived?
    ensures Sending(c) && c.tx.sentPos <= |c.tx.written|
  {
    hide Wrap, QueueInv;
  }

  lemma LateSends(c: Conn)
    requires c.tx.finPos.Some? && LateInv(c.tx, c.state.Closed?)
    ensures Sending(c)
  {
    hide LateInv;
  }

  lemma PayloadStep(self: Conn, peer: Conn, f: Frame)
    requires Pair(self, peer) && self.rx.fins == 0 && !self.rx.readChClosed && self.state.Established?
      && self.tx.finPos.None?
    requires FrameOut(f, peer, self.tx.iss) && peer.tx.sentPos < f.pos + MOD
    ensures Pair(ReceivePayload(self, f.seg), peer)
  {
    hide Wrap, SendInv, LogOut, LateInv, StampOf, ReceiveInv, Sending, Placed, Emit;
    if |f.seg.payload| > 0 && f.seg.seqNum == self.rx.rcvNxt {
      TakeDataKeeps(self.rx, f.seg.payload);
      TakePayload(self, peer, f);
      EmitStep(self, TakeData(self.rx, f.seg.payload), self.state, peer);
    }
  }

  /** The frame that RCV.NXT admits continues the prefix, up to the cut and not past it. */
  lemma TakePayload(self: Conn, peer: Conn, f: Frame)
    requires ReceiveInv(self.rx) && self.rx.fins == 0 && Received(peer.tx, self.rx) && Sending(peer)
    requires Good(f, peer.tx, peer.state.Closed?) && peer.tx.sentPos < f.pos + MOD
    requires f.seg.payload != [] && f.seg.seqNum == self.rx.rcvNxt
    ensures Received(peer.tx, TakeData(self.rx, f.seg.payload))
  {
    hide Wrap, SendInv, LateInv;
    var n := |self.rx.delivered|;
    SendingBounds(peer);
    WrapInjective(peer.tx.iss + 1 + f.pos, peer.tx.iss + 1 + n);
    hide Sending;
    assert self.rx.delivered + f.seg.payload == peer.tx.written[..n + |f.seg.payload|];
  }

  lemma SendingBounds(c: Conn)
    requires Sending(c)
    ensures c.tx.sentPos <= c.tx.ackedPos + 65536 && Cut(c.tx) <= c.tx.sentPos
  {
    hide Wrap, QueueInv, Ordered, Placed;
  }

  /** A FIN comes only from an end that called Close, without payload, from the end of its stream. */
  lemma FinFrame(f: Frame, peer: Conn, iss: u32)
    requires FrameOut(f, peer, iss) && Has(f.seg.flags, FIN)
    ensures f.seg.flags == FIN_ACK && peer.tx.finPos == Some(f.pos) && f.seg.payload == []
    ensures f.seg.seqNum == Wrap(peer.tx.iss + 1 + f.pos)
  {
    hide Wrap, Placed;
  }

  lemma NoReset(f: Frame, c: Conn, iss: u32)
    requires FrameOut(f, c, iss)
    ensures !Has(f.seg.flags, RST)
  {
    hide Wrap, Placed;
  }

  /** Taking a FIN, whatever its number. */
  lemma FinStep(self: Conn, state: State, peer: Conn, f: Frame)
    requires Pair(self, peer) && self.rx.fins == 0 && (self.tx.finPos.None? <==> IsOpen(self.state))
    requires !self.state.SynReceived? && !state.SynReceived? && (IsOpen(state) <==> IsOpen(self.state))
    requires state.Closed? <==> self.state.Closed?
    requires FrameOut(f, peer, self.tx.iss) && Has(f.seg.flags, FIN)
    ensures Pair(EmitAck(self.(rx := TakeFin(self.rx), state := state)), peer)
  {
    hide Wrap, LogOut, ReceiveInv, Sending, FrameOut, EmitAck;
    FinFrame(f, peer, self.tx.iss);
    TakeFinKeeps(self.rx);
    EmitStep(self, TakeFin(self.rx), state, peer);
  }

  /** A step that sends nothing and changes neither stream. */
  lemma QuietStep(c: Conn, d: Conn, peer: Conn)
    requires Pair(c, peer) && Sending(d) && d.tx.log == c.tx.log && d.tx.iss == c.tx.iss && d.tx.written == c.tx.written
    requires d.tx.sentPos == c.tx.sentPos && d.tx.ackedPos <= |peer.rx.delivered| + peer.rx.fins
      && d.tx.finPos == c.tx.finPos
    requires ReceiveInv(d.rx) && d.rx.irs == c.rx.irs && d.rx.delivered == c.rx.delivered && d.rx.fins == c.rx.fins
    requires c.state.Closed? ==> d.state.Closed?
    ensures Pair(d, peer)
  {
    hide Wrap, LogOut, ReceiveInv, Sending, StampOf, Good;
    Assemble(c, d, peer, StampOf(d.rx));
  }

  lemma ReadStep(self: Conn, peer: Conn, n: nat)
    requires Pair(self, peer)
    ensures Pair(self.(rx := Read(self.rx, n).0), peer)
  {
    ReadKeeps(self.rx, n);
    hide Wrap, LogOut, ReceiveInv, LateInv, SendInv;
    QuietStep(self, self.(rx := Read(self.rx, n).0), peer);
  }

  /** The end of a connection: its send state is dropped. */
  lemma RemoveStep(self: Conn, d: Conn, peer: Conn)
    requires Pair(self, peer) && self.tx.finPos.Some? && d.tx == DropSendState(self.tx) && d.rx == self.rx
      && d.state.Closed?
    ensures Pair(d, peer)
  {
    hide Wrap, LogOut, ReceiveInv, LateInv, SendInv;
    LatePart(self);
    DropLate(self.tx, self.state.Closed?);
    QuietStep(self, d, peer);
  }

  /** Close, with bytes unsent or without: the FIN stands where the stream is cut. */
  lemma CloseStep(self: Conn, peer: Conn)
    requires Pair(self, peer) && Alone(self) && !self.state.SynReceived? && self.tx.finPos.None?
    ensures Pair(Close(self), peer)
  {
    hide Wrap, LogOut, ReceiveInv, SendInv, StampOf, StateInv, TimerInv, Sending, Ordered;
    var (d, st) := (Close(self), StampOf(self.rx));
    OpenPart(self);
    OpenBounds(self.tx);
    CloseLate(self.tx, st);
    FinGood(self.tx, st);
    hide SendFin, LateInv;
    LateSends(d);
    Assemble(self, d, peer, st);
  }

  lemma FinGood(tx: Tx, st: Stamp)
    requires Near(tx) && tx.finPos.None?
    ensures var t := SendFin(tx, st);
      && AllGood(tx.log, t, false) && Stamped(tx.log, t.log, st)
      && t == tx.(log := t.log, nxt := t.nxt, sentPos := tx.sentPos + 1, finPos := Some(tx.sentPos))
  {
    WrapDistance(0);
    hide Wrap;
  }

  lemma HandshakeStep(self: Conn, peer: Conn, f: Frame)
    requires Pair(self, peer) && self.state.SynReceived? && self.tx.finPos.None?
    requires FrameOut(f, peer, self.tx.iss) && Has(f.seg.flags, ACK)
    ensures Pair(Establish(self, f.seg), peer)
  {
    hide Wrap, LogOut, ReceiveInv, Opening, Good;
    var d := Establish(self, f.seg);
    assert f.ackPos == 0;
    WrapSub(self.tx.iss + 1, self.tx.iss);
    OneApart(self.tx.iss);
    EstablishedNumbers(d.tx, f.seg.ackNum);
    hide SendInv;
    QuietStep(self, d, peer);
  }

  lemma OneApart(iss: u32)
    ensures Wrap(Wrap(iss + 1) - iss) == 1
  {
    WrapSub(iss + 1, iss);
    WrapSelf(iss);
    WrapSelf(1);
    hide Wrap;
    assert iss + 1 - iss == 1;
  }

  // ----- a segment -------------------------------------------------------

  /** ESTABLISHED: the ACK, the payload, the FIN. */
  lemma EstablishedStep(self: Conn, peer: Conn, f: Frame)
    requires Pair(self, peer) && Alone(self) && self.state.Established? && self.rx.fins == 0
    requires FrameOut(f, peer, self.tx.iss) && Fresh(f, peer, self)
    ensures Pair(HandleEstablished(self, f.seg), peer)
  {
    hide Wrap, LogOut, ReceiveInv, StateInv, TimerInv, FrameOut, ProcessAck, ReceivePayload, EmitAck, Direction,
      StampOf;
    var (tx, ok) := ProcessAck(self.tx, StampOf(self.rx), f.seg);
    var c1 := self.(tx := tx);
    AckStep(self, peer, f);
    ProcessAckIss(self.tx, StampOf(self.rx), f.seg);
    if ok {
      ClearChannel(self);
      PayloadStep(c1, peer, f);
      PayloadKept(c1, f.seg);
      var c2 := ReceivePayload(c1, f.seg);
      if Has(f.seg.flags, FIN) {
        FinStep(c2, CloseWait, peer, f);
        ChannelStep(EmitAck(c2.(rx := TakeFin(c2.rx), state := CloseWait)), peer);
      }
    }
  }

  lemma ClearChannel(c: Conn)
    requires StateInv(c) && c.state.Established?
    ensures !c.rx.readChClosed && (c.rx.fins != 1)
  {
  }

  lemma PayloadKept(c: Conn, seg: Segment)
    ensures var d := ReceivePayload(c, seg);
      d.state == c.state && d.rx.fins == c.rx.fins && d.tx.iss == c.tx.iss && d.tx.finPos == c.tx.finPos
  {
    hide Wrap;
  }

  /** Closing the channel is not seen from outside. */
  lemma ChannelStep(c: Conn, peer: Conn)
    requires Pair(c, peer)
    ensures Pair(c.(rx := CloseReadCh(c.rx)), peer)
  {
    hide Wrap, LogOut, LateInv, SendInv;
    QuietStep(c, c.(rx := CloseReadCh(c.rx)), peer);
  }

  lemma StateStep(c: Conn, d: Conn, peer: Conn)
    requires Pair(c, peer) && d.tx == c.tx && d.rx == c.rx && !c.state.SynReceived? && !d.state.SynReceived?
    requires c.state.Closed? <==> d.state.Closed?
    ensures Pair(d, peer)
  {
    hide Wrap, LogOut, LateInv, SendInv, ReceiveInv;
    QuietStep(c, d, peer);
  }

  lemma FinWait1Step(self: Conn, peer: Conn, f: Frame)
    requires Pair(self, peer) && Alone(self) && self.state.FinWait1? && self.rx.fins == 0
    requires FrameOut(f, peer, self.tx.iss) && Fresh(f, peer, self)
    ensures Pair(HandleFinWait1(self, f.seg), peer)
  {
    hide Wrap, LogOut, ReceiveInv, StateInv, TimerInv, FrameOut, ProcessAck, EmitAck, Direction, StampOf;
    var (tx, ok) := ProcessAck(self.tx, StampOf(self.rx), f.seg);
    var c1 := self.(tx := tx);
    AckStep(self, peer, f);
    ProcessAckIss(self.tx, StampOf(self.rx), f.seg);
    if ok {
      if Has(f.seg.flags, FIN) {
        FinStep(c1, FinWait1, peer, f);
        var c2 := EmitAck(c1.(rx := TakeFin(c1.rx)));
        EmitState(c1.(rx := TakeFin(c1.rx)));
        StateStep(c2, HandleFinWait1(self, f.seg), peer);
      } else if Has(f.seg.flags, ACK) {
        StateStep(c1, c1.(state := FinWait2), peer);
      }
    }
  }

  lemma EmitState(c: Conn)
    ensures EmitAck(c).state == c.state
  {
  }

  lemma SegmentStep(self: Conn, peer: Conn, f: Frame)
    requires Pair(self, peer) && Alone(self) && FrameOut(f, peer, self.tx.iss) && Fresh(f, peer, self)
    ensures Pair(HandleSegment(self, f.seg), peer)
  {
    NoReset(f, peer, self.tx.iss);
    NoFinYet(self);
    hide Wrap, LogOut, ReceiveInv, TimerInv, StateInv, FrameOut, HandleEstablished, HandleFinWait1, EmitAck, Direction,
      Pair;
    match self.state
    case SynReceived =>
      if Has(f.seg.flags, ACK) {
        HandshakeStep(self, peer, f);
        EstablishAlone(self, f.seg);
        EstablishedStep(Establish(self, f.seg), peer, f);
      }
    case Established => EstablishedStep(self, peer, f);
    case FinWait1 => FinWait1Step(self, peer, f);
    case FinWait2 =>
      if Has(f.seg.flags, FIN) {
        FinStep(self, FinWait2, peer, f);
        EmitState(self.(rx := TakeFin(self.rx)));
        StateStep(EmitAck(self.(rx := TakeFin(self.rx))), HandleSegment(self, f.seg), peer);
      }
    case Closing =>
    case LastAck =>
      if Has(f.seg.flags, ACK) { RemoveStep(self, HandleSegment(self, f.seg), peer); }
    case _ =>
  }

  lemma NoFinYet(c: Conn)
    requires StateInv(c) && ReceiveInv(c.rx)
    ensures c.state.SynReceived? || c.state.Established? || c.state.FinWait1? || c.state.FinWait2? ==> c.rx.fins == 0
    ensures !c.state.Closing?
  {
    hide Wrap;
  }

  lemma EstablishAlone(c: Conn, seg: Segment)
    requires Alone(c) && c.state.SynReceived?
    ensures var d := Establish(c, seg);
      Alone(d) && d.rx == c.rx && d.tx.iss == c.tx.iss && d.tx.sentPos == c.tx.sentPos && d.state.Established?
  {
    hide Wrap, ReceiveInv;
  }

  lemma AloneSegment(c: Conn, seg: Segment)
    requires Alone(c) && !Has(seg.flags, RST)
    ensures Alone(HandleSegment(c, seg))
  {
    HandleSegmentKeeps(c, seg);
    SegmentIss(c, seg);
    SegmentOpenness(c, seg);
    hide HandleSegment, ReceiveInv, StateInv, TimerInv;
  }

  lemma SegmentOpenness(c: Conn, seg: Segment)
    requires StateInv(c) && ReceiveInv(c.rx) && (c.rx.readChClosed ==> c.rx.fins == 1) && !Has(seg.flags, RST)
    ensures var d := HandleSegment(c, seg);
      (IsOpen(d.state) <==> IsOpen(c.state)) && (d.rx.readChClosed ==> d.rx.fins >= 1)
  {
    hide Wrap, ProcessAck, Emit;
  }

  // ----- one step of the network -----------------------------------------

  lemma AloneLocal(c: Conn, e: Event)
    requires Alone(c) && !e.Arrival? && (e.AppClose? ==> c.tx.finPos.None?)
    ensures Alone(Step(c, e))
  {
    StepKeeps(c, e);
    match e
    case AppWrite(data) => WriteFin(c.tx, StampOf(c.rx), data);
    case _ =>
    hide Wrap, Write, ReceiveInv, TimerInv;
  }

  lemma Logged(c: Conn, peer: Conn, i: nat)
    requires Direction(c, peer) && i < |c.tx.log|
    ensures FrameOut(c.tx.log[i], c, peer.tx.iss)
  {
    hide FrameOut, Sending, Received;
  }

  lemma NotAccepted(c: Conn)
    requires StateInv(c)
    ensures c.accepted > 0 ==> !c.state.SynReceived?
  {
  }

  lemma WaitStep(self: Conn, peer: Conn)
    requires Pair(self, peer) && Alone(self) && self.cleanups > 0
    ensures Pair(TimeWaitExpired(self), peer)
  {
    hide Wrap, ReceiveInv, TimerInv, Direction;
    RemoveStep(self, TimeWaitExpired(self), peer);
  }

  lemma LocalKeeps(self: Conn, peer: Conn, act: Act)
    requires Alone(self) && Pair(self, peer)
    ensures var d := Local(self, peer, act); Alone(d) && Pair(d, peer)
  {
    NotAccepted(self);
    hide Wrap, Pair, ReceiveInv, StateInv, TimerInv, HandleSegment, Write, OnRto, Fresh, Alone, TimeWaitExpired, Close,
      Read;
    match act
    case Send(data) =>
      AloneLocal(self, AppWrite(data));
      if self.accepted > 0 { WriteStep(self, peer, data); }
    case Receive(n) =>
      AloneLocal(self, AppRead(n));
      if self.accepted > 0 { ReadStep(self, peer, n); }
    case Expire =>
      AloneLocal(self, RtoFired);
      ExpireStep(self, peer);
    case Wait =>
      AloneLocal(self, TimeWaitFired);
      if self.cleanups > 0 { WaitStep(self, peer); }
    case Shut =>
      if self.tx.finPos.None? {
        AloneLocal(self, AppClose);
        if self.accepted > 0 { CloseStep(self, peer); }
      }
    case Deliver(i) =>
      if i < |peer.tx.log| && Fresh(peer.tx.log[i], peer, self) {
        var f := peer.tx.log[i];
        Logged(peer, self, i) by { Flows(self, peer); }
        NoReset(f, peer, self.tx.iss);
        AloneSegment(self, f.seg);
        SegmentStep(self, peer, f);
      }
  }

  lemma Flows(self: Conn, peer: Conn)
    requires Pair(self, peer)
    ensures Direction(peer, self)
  {
    hide Direction;
  }

  // ----- every run -------------------------------------------------------

  lemma {:induction false} RunNetKeeps(n0: Net, isn: u32, syn: Segment, events: seq<NetEvent>)
    requires Start(n0, isn, syn)
    ensures NetInv(RunNet(n0, events))
  {
    if events == [] {
      StartHolds(n0, isn, syn);
    } else {
      var prefix, e := events[..|events| - 1], events[|events| - 1];
      RunNetKeeps(n0, isn, syn, prefix);
      StepNetKeeps(RunNet(n0, prefix), e);
    }
  }

  lemma StepNetKeeps(n: Net, e: NetEvent)
    requires NetInv(n)
    ensures NetInv(StepNet(n, e))
  {
    hide Local, Direction, ReceiveInv, StateInv, TimerInv;
    if e.left { LocalKeeps(n.a, n.b, e.act); } else { LocalKeeps(n.b, n.a, e.act); }
  }

  lemma StartHolds(n: Net, isn: u32, syn: Segment)
    requires Start(n, isn, syn)
    ensures NetInv(n)
  {
    ServerStart(n, isn, syn);
    ClientStart(n, isn, syn);
  }

  lemma ServerStart(n: Net, isn: u32, syn: Segment)
    requires Start(n, isn, syn)
    ensures Alone(n.a) && Direction(n.a, n.b)
  {
    WrapSelf(isn);
    WrapSelf(0);
    hide Wrap;
    assert isn + 1 + -1 == isn && isn - isn == 0;
  }

  lemma ClientStart(n: Net, isn: u32, syn: Segment)
    requires Start(n, isn, syn)
    ensures Alone(n.b) && Direction(n.b, n.a)
  {
    WrapSelf(syn.seqNum);
    hide Wrap;
    assert syn.seqNum + 1 + -1 == syn.seqNum;
  }
}
