/** The send half after Close. The FIN takes the number of the next byte, so what
    was sent before stands at its own position and what the pump sends later
    stands one position too far. Once the send state is dropped, nothing ties
    later chunks to the stream but that they stand behind the FIN. */
module TcpAfterClose {
  import opened Seq32
  import opened Wrappers
  import opened TcpModel
  import opened TcpSender

  /** Bytes at pos: before the FIN at cut in their own place, behind it one too far. */
  ghost predicate Placed(pos: int, bytes: seq<byte>, written: seq<byte>, cut: int, dropped: bool) {
    if pos <= cut then
      0 <= pos && pos + |bytes| <= cut <= |written| && bytes == written[pos..pos + |bytes|]
    else
      dropped || (1 <= pos && pos - 1 + |bytes| <= |written| && bytes == written[pos - 1..pos - 1 + |bytes|])
  }

  ghost predicate SentAt(s: Sent, pos: int, first: int, written: seq<byte>, cut: int, dropped: bool) {
    && s.seqNum == Wrap(first + pos) && |s.data| <= 65535 && (s.flags == ACK || s.flags == PSH_ACK)
    && Placed(pos, s.data, written, cut, dropped)
  }

  /** The queued segments stand in order between lo and hi. */
  ghost predicate Ordered(queue: seq<Sent>, first: int, written: seq<byte>, cut: int, dropped: bool, lo: int, hi: int) {
    if queue == [] then lo <= hi else
    exists pos :: lo <= pos && SentAt(queue[0], pos, first, written, cut, dropped)
      && Ordered(queue[1..], first, written, cut, dropped, pos + |queue[0].data|, hi)
  }

  /** The invariant of the send half from Close on. */
  ghost predicate LateInv(tx: Tx, dropped: bool) {
    && Near(tx) && tx.finPos.Some? && 0 <= tx.finPos.value < tx.sentPos && tx.finPos.value <= |tx.written|
    && Ordered(tx.queue, tx.iss + 1, tx.written, tx.finPos.value, dropped, tx.ackedPos - 65535, tx.sentPos)
    && (dropped || (tx.sentPos <= |tx.written| + 1 && tx.unsent == tx.written[tx.sentPos - 1..]))
  }

  /** A frame of an end that has sent its FIN, the FIN itself apart. */
  ghost predicate LateFrame(f: Frame, tx: Tx, dropped: bool)
    requires tx.finPos.Some?
  {
    && f.seg.seqNum == Wrap(tx.iss + 1 + f.pos) && f.pos <= tx.sentPos && (f.seg.flags == ACK || f.seg.flags == PSH_ACK)
    && Placed(f.pos, f.seg.payload, tx.written, tx.finPos.value, dropped)
  }

  ghost predicate LateFrames(log0: seq<Frame>, tx: Tx, dropped: bool)
    requires tx.finPos.Some?
  {
    log0 <= tx.log && forall i :: |log0| <= i < |tx.log| ==> LateFrame(tx.log[i], tx, dropped)
  }

  /** Of a step that appends nothing but new chunks and bare ACKs. */
  ghost predicate Behind(log0: seq<Frame>, tx: Tx)
    requires tx.finPos.Some?
  {
    log0 <= tx.log && forall i :: |log0| <= i < |tx.log| ==> tx.log[i].pos > tx.finPos.value
  }

  /** What every step of the send half keeps after Close. */
  ghost predicate Keeps(tx: Tx, t: Tx, st: Stamp, dropped: bool) {
    && LateInv(t, dropped) && t.iss == tx.iss && t.finPos == tx.finPos && t.finPos.Some? && tx.sentPos <= t.sentPos
    && Stamped(tx.log, t.log, st) && LateFrames(tx.log, t, dropped)
  }

  // ----- places and queues -----------------------------------------------

  lemma PlacedMono(pos: int, bytes: seq<byte>, written: seq<byte>, cut: int, dropped: bool, written': seq<byte>,
                   dropped': bool)
    requires Placed(pos, bytes, written, cut, dropped) && written <= written' && (dropped ==> dropped')
    ensures Placed(pos, bytes, written', cut, dropped')
  {
    assert forall i, j :: 0 <= i <= j <= |written| ==> written'[i..j] == written[i..j];
  }

  lemma {:induction false} OrderedMono(queue: seq<Sent>, first: int, written: seq<byte>, cut: int, dropped: bool,
                                       lo: int, hi: int, written': seq<byte>, dropped': bool, lo': int, hi': int)
    requires Ordered(queue, first, written, cut, dropped, lo, hi) && lo' <= lo && hi <= hi'
    requires written <= written' && (dropped ==> dropped')
    ensures Ordered(queue, first, written', cut, dropped', lo', hi')
  {
    hide Wrap;
    if queue != [] {
      var pos :| lo <= pos && SentAt(queue[0], pos, first, written, cut, dropped)
        && Ordered(queue[1..], first, written, cut, dropped, pos + |queue[0].data|, hi);
      var end := pos + |queue[0].data|;
      PlacedMono(pos, queue[0].data, written, cut, dropped, written', dropped');
      OrderedMono(queue[1..], first, written, cut, dropped, end, hi, written', dropped', end, hi');
      hide Placed;
      assert SentAt(queue[0], pos, first, written', cut, dropped');
    }
  }

  lemma {:induction false} OrderedBounds(queue: seq<Sent>, first: int, written: seq<byte>, cut: int, dropped: bool,
                                         lo: int, hi: int)
    requires Ordered(queue, first, written, cut, dropped, lo, hi)
    ensures lo <= hi
  {
    hide SentAt;
    if queue != [] {
      var pos :| lo <= pos && SentAt(queue[0], pos, first, written, cut, dropped)
        && Ordered(queue[1..], first, written, cut, dropped, pos + |queue[0].data|, hi);
      OrderedBounds(queue[1..], first, written, cut, dropped, pos + |queue[0].data|, hi);
    }
  }

  lemma {:induction false} OrderedAppend(queue: seq<Sent>, first: int, written: seq<byte>, cut: int, dropped: bool,
                                         lo: int, hi: int, s: Sent)
    requires Ordered(queue, first, written, cut, dropped, lo, hi) && SentAt(s, hi, first, written, cut, dropped)
    ensures Ordered(queue + [s], first, written, cut, dropped, lo, hi + |s.data|)
  {
    hide SentAt;
    if queue == [] {
      assert (queue + [s])[1..] == [] && (queue + [s])[0] == s;
      assert Ordered([], first, written, cut, dropped, hi + |s.data|, hi + |s.data|);
    } else {
      var pos :| lo <= pos && SentAt(queue[0], pos, first, written, cut, dropped)
        && Ordered(queue[1..], first, written, cut, dropped, pos + |queue[0].data|, hi);
      OrderedAppend(queue[1..], first, written, cut, dropped, pos + |queue[0].data|, hi, s);
      assert (queue + [s])[1..] == queue[1..] + [s] && (queue + [s])[0] == queue[0];
    }
  }

  /** Whatever ends at or before the acknowledged position leaves the front. */
  lemma {:induction false} OrderedDrain(queue: seq<Sent>, first: int, written: seq<byte>, cut: int, dropped: bool,
                                        lo: int, hi: int, a: int)
    requires Ordered(queue, first, written, cut, dropped, lo, hi) && a <= hi && hi - lo < HALF && a - lo < HALF
      && hi - a < HALF
    ensures Ordered(Drain(queue, Wrap(first + a)), first, written, cut, dropped, a - 65535, hi)
  {
    hide Wrap, LE, Placed;
    if queue != [] {
      var pos :| lo <= pos && SentAt(queue[0], pos, first, written, cut, dropped)
        && Ordered(queue[1..], first, written, cut, dropped, pos + |queue[0].data|, hi);
      var end := pos + |queue[0].data|;
      OrderedBounds(queue[1..], first, written, cut, dropped, end, hi);
      WrapSub(first + pos, |queue[0].data|);
      OrderAgrees(first + end, first + a);
      if end <= a {
        OrderedDrain(queue[1..], first, written, cut, dropped, end, hi, a);
      }
    }
  }

  /** The position the head's number stands for. */
  lemma HeadPlace(tx: Tx, dropped: bool)
    requires LateInv(tx, dropped) && tx.queue != []
    ensures SentAt(tx.queue[0], tx.sentPos - Wrap(tx.nxt - tx.queue[0].seqNum), tx.iss + 1, tx.written,
      tx.finPos.value, dropped)
    ensures tx.sentPos - Wrap(tx.nxt - tx.queue[0].seqNum) <= tx.sentPos
  {
    hide Wrap, Placed;
    var (first, cut, lo) := (tx.iss + 1, tx.finPos.value, tx.ackedPos - 65535);
    var pos :| lo <= pos && SentAt(tx.queue[0], pos, first, tx.written, cut, dropped)
      && Ordered(tx.queue[1..], first, tx.written, cut, dropped, pos + |tx.queue[0].data|, tx.sentPos);
    OrderedBounds(tx.queue[1..], first, tx.written, cut, dropped, pos + |tx.queue[0].data|, tx.sentPos);
    PositionOf(first, pos, tx.sentPos);
  }

  // ----- Close -----------------------------------------------------------

  lemma {:induction false} CoversOrdered(queue: seq<Sent>, first: int, written: seq<byte>, lo: int, hi: int)
    requires Covers(queue, first, written, lo, hi) && hi <= |written|
    ensures Ordered(queue, first, written, hi, false, lo, hi)
  {
    hide Wrap;
    if queue != [] {
      CoversOrdered(queue[1..], first, written, lo + |queue[0].data|, hi);
      assert SentAt(queue[0], lo, first, written, hi, false);
    }
  }

  /** Close turns the invariant of the open stream into this one. */
  lemma CloseLate(tx: Tx, st: Stamp)
    requires SendInv(tx) && tx.finPos.None?
    ensures var t := SendFin(tx, st); LateInv(t, false) && t.finPos == Some(tx.sentPos) && t.sentPos == tx.sentPos + 1
  {
    hide Wrap, Ordered, QueueInv, Covers;
    WrapSub(tx.iss + 1 + tx.sentPos, 1);
    QueueOrdered(tx);
  }

  lemma QueueOrdered(tx: Tx)
    requires SendInv(tx)
    ensures Ordered(tx.queue, tx.iss + 1, tx.written, tx.sentPos, false, tx.ackedPos - 65535, tx.sentPos + 1)
  {
    hide Wrap, Ordered;
    var lo := tx.sentPos - QueueLen(tx.queue);
    CoversOrdered(tx.queue, tx.iss + 1, tx.written, lo, tx.sentPos);
    OrderedMono(tx.queue, tx.iss + 1, tx.written, tx.sentPos, false, lo, tx.sentPos, tx.written, false,
                tx.ackedPos - 65535, tx.sentPos + 1);
  }

  // ----- the steps -------------------------------------------------------

  lemma ChunkLate(tx: Tx, st: Stamp, dropped: bool)
    requires LateInv(tx, dropped) && CanSend(tx)
    ensures Keeps(tx, SendChunk(tx, st), st, dropped) && Behind(tx.log, SendChunk(tx, st))
    ensures SendChunk(tx, st).written == tx.written && SendChunk(tx, st).ackedPos == tx.ackedPos
  {
    hide Wrap, Ordered, SendChunk, CanSend, InFlight, EffectiveMss, ChunkSize, Placed, LateFrames, Stamped;
    var (n, p) := (ChunkSize(tx), tx.sentPos);
    NearFlight(tx);
    WrapSub(tx.iss + 1 + p, n);
    ChunkFields(tx, st);
    ChunkPlaced(tx, n, dropped);
    var s := NextChunk(tx, n);
    OrderedAppend(tx.queue, tx.iss + 1, tx.written, tx.finPos.value, dropped, tx.ackedPos - 65535, p, s);
    Appended(tx, SendChunk(tx, st), Frame(Segment(tx.nxt, st.ackNum, s.flags, st.window, [], s.data), p, st.ackPos),
      st, dropped);
  }

  lemma Appended(tx: Tx, t: Tx, f: Frame, st: Stamp, dropped: bool)
    requires t.finPos.Some? && t.log == tx.log + [f] && LateFrame(f, t, dropped)
    requires f.ackPos == st.ackPos && f.seg.ackNum == st.ackNum
    ensures Stamped(tx.log, t.log, st) && LateFrames(tx.log, t, dropped)
    ensures f.pos > t.finPos.value ==> Behind(tx.log, t)
  {
    hide LateFrame;
  }

  /** What one round of the pump does, field by field. */
  lemma ChunkFields(tx: Tx, st: Stamp)
    requires CanSend(tx)
    ensures var (t, n) := (SendChunk(tx, st), ChunkSize(tx)); var s := NextChunk(tx, n);
      && t == tx.(unsent := tx.unsent[n..], queue := tx.queue + [s], log := t.log, nxt := Wrap(tx.nxt + n),
        sentPos := tx.sentPos + n)
      && t.log == tx.log + [Frame(Segment(tx.nxt, st.ackNum, s.flags, st.window, [], s.data), tx.sentPos, st.ackPos)]
    ensures 0 < ChunkSize(tx) <= tx.wnd - InFlight(tx)
  {
    WrapDistance(0);
    hide Wrap;
  }

  lemma ChunkPlaced(tx: Tx, n: nat, dropped: bool)
    requires LateInv(tx, dropped) && n <= |tx.unsent|
    ensures Placed(tx.sentPos, tx.unsent[..n], tx.written, tx.finPos.value, dropped)
    ensures dropped || (tx.sentPos + n <= |tx.written| + 1 && tx.unsent[n..] == tx.written[tx.sentPos + n - 1..])
  {
    hide Ordered, Near;
  }

  lemma NearFlight(tx: Tx)
    requires Near(tx)
    ensures InFlight(tx) == tx.sentPos - tx.ackedPos
  {
    WrapSub(tx.iss + 1 + tx.sentPos, tx.iss + 1 + tx.ackedPos);
    WrapDistance(tx.sentPos - tx.ackedPos);
    hide Wrap;
    assert tx.iss + 1 + tx.sentPos - (tx.iss + 1 + tx.ackedPos) == tx.sentPos - tx.ackedPos;
  }

  /** Two steps in a row. */
  lemma KeepsTwice(tx: Tx, t: Tx, u: Tx, st: Stamp, dropped: bool)
    requires tx.finPos.Some? && Keeps(tx, t, st, dropped) && Keeps(t, u, st, dropped) && t.written <= u.written
    ensures Keeps(tx, u, st, dropped)
    ensures Behind(tx.log, t) && Behind(t.log, u) ==> Behind(tx.log, u)
  {
    hide Wrap, LateInv, Placed;
    forall i | |tx.log| <= i < |u.log| ensures LateFrame(u.log[i], u, dropped) {
      if i < |t.log| {
        assert u.log[i] == t.log[i];
        PlacedMono(u.log[i].pos, u.log[i].seg.payload, t.written, u.finPos.value, dropped, u.written, dropped);
      }
    }
  }

  lemma {:induction false} PumpLoopLate(tx: Tx, st: Stamp, dropped: bool)
    requires LateInv(tx, dropped)
    ensures var t := PumpLoop(tx, st);
      Keeps(tx, t, st, dropped) && Behind(tx.log, t) && t.written == tx.written && t.ackedPos == tx.ackedPos
    decreases |tx.unsent|
  {
    FinKnown(tx, dropped);
    hide LateInv, CanSend, SendChunk;
    if CanSend(tx) {
      ChunkLate(tx, st, dropped);
      PumpLoopLate(SendChunk(tx, st), st, dropped);
      KeepsTwice(tx, SendChunk(tx, st), PumpLoop(tx, st), st, dropped);
    }
  }

  lemma PumpLate(tx: Tx, st: Stamp, dropped: bool)
    requires LateInv(tx, dropped)
    ensures var t := Pump(tx, st);
      Keeps(tx, t, st, dropped) && Behind(tx.log, t) && t.written == tx.written && t.ackedPos == tx.ackedPos
  {
    PumpLoopLate(tx, st, dropped);
    var t := PumpLoop(tx, st);
    hide LateInv, LateFrame, CanSend, PumpLoop;
    TimerApart(tx, t, Pump(tx, st), st, dropped);
  }

  /** The timer has no part in the invariant. */
  lemma TimerApart(tx: Tx, t: Tx, u: Tx, st: Stamp, dropped: bool)
    requires Keeps(tx, t, st, dropped)
    requires u == t.(rto := u.rto, timer := u.timer, panicked := u.panicked, expiries := u.expiries)
    ensures Keeps(tx, u, st, dropped) && (Behind(tx.log, t) ==> Behind(tx.log, u))
  {
    hide Wrap, Ordered, Placed;
  }

  /** Write after Close: the source does not look at the state. */
  lemma WriteLate(tx: Tx, st: Stamp, data: seq<byte>, dropped: bool)
    requires LateInv(tx, dropped)
    ensures var t := Write(tx, st, data);
      Keeps(tx, t, st, dropped) && Behind(tx.log, t) && t.written == tx.written + data && t.ackedPos == tx.ackedPos
  {
    var t := tx.(unsent := tx.unsent + data, written := tx.written + data);
    OrderedMono(tx.queue, tx.iss + 1, tx.written, tx.finPos.value, dropped, tx.ackedPos - 65535, tx.sentPos, t.written,
      dropped, tx.ackedPos - 65535, tx.sentPos);
    hide Ordered, Wrap;
    PumpLate(t, st, dropped);
  }

  lemma TakeAckLate(tx: Tx, seg: Segment, dropped: bool)
    requires LateInv(tx, dropped) && !GT(seg.ackNum, tx.nxt) && GT(seg.ackNum, tx.una)
    ensures var t := TakeAck(tx, seg);
      && LateInv(t, dropped) && tx.ackedPos < t.ackedPos
      && t.sentPos == tx.sentPos && t.iss == tx.iss && t.written == tx.written && t.log == tx.log
        && t.finPos == tx.finPos
  {
    hide LT, LE, GT, Ordered, Wrap;
    AckRange(tx, seg.ackNum);
    var a := tx.ackedPos + Wrap(seg.ackNum - tx.una);
    OrderedDrain(tx.queue, tx.iss + 1, tx.written, tx.finPos.value, dropped, tx.ackedPos - 65535, tx.sentPos, a);
  }

  lemma BareLate(tx: Tx, st: Stamp, dropped: bool)
    requires LateInv(tx, dropped)
    ensures var t := Emit(tx, st, ACK, [], tx.nxt, []);
      Keeps(tx, t, st, dropped) && Behind(tx.log, t) && t.written == tx.written && t.ackedPos == tx.ackedPos
    ensures Keeps(tx, tx, st, dropped) && Behind(tx.log, tx)
  {
    WrapDistance(0);
    hide Wrap, Ordered, LateFrames, Stamped, Placed;
    ChunkPlaced(tx, 0, dropped);
    assert tx.unsent[..0] == [];
    Appended(tx, Emit(tx, st, ACK, [], tx.nxt, []), Frame(Segment(tx.nxt, st.ackNum, ACK, st.window, [], []),
      tx.sentPos, st.ackPos), st, dropped);
    NothingAppended(tx, st, dropped);
  }

  lemma NothingAppended(tx: Tx, st: Stamp, dropped: bool)
    requires LateInv(tx, dropped)
    ensures Keeps(tx, tx, st, dropped) && Behind(tx.log, tx)
  {
    hide Near, Ordered;
  }

  /** Any segment at all in FIN_WAIT_1. */
  lemma AckLate(tx: Tx, st: Stamp, seg: Segment, dropped: bool)
    requires LateInv(tx, dropped)
    ensures var t := ProcessAck(tx, st, seg).0;
      Keeps(tx, t, st, dropped) && Behind(tx.log, t) && t.written == tx.written && tx.ackedPos <= t.ackedPos
  {
    hide LateInv, LateFrame, TakeAck, Pump, Emit, GT, Wrap;
    if Has(seg.flags, ACK) && !GT(seg.ackNum, tx.nxt) && GT(seg.ackNum, tx.una) {
      TakeAckLate(tx, seg, dropped);
      PumpLate(TakeAck(tx, seg), st, dropped);
    }
    BareLate(tx, st, dropped);
    FinKnown(tx, dropped);
  }

  lemma FinKnown(tx: Tx, dropped: bool)
    requires LateInv(tx, dropped)
    ensures tx.finPos.Some? && tx.finPos.value >= 0
  {
  }

  /** An expiry sends the head again where its number stands. */
  lemma OnRtoLate(tx: Tx, st: Stamp, dropped: bool)
    requires LateInv(tx, dropped)
    ensures var t := OnRto(tx, st);
      Keeps(tx, t, st, dropped) && t.written == tx.written && t.ackedPos == tx.ackedPos
  {
    NothingAppended(tx, st, dropped);
    OnRtoFields(tx, st);
    hide OnRto, LateInv, LateFrames, Stamped;
    if tx.queue != [] {
      HeadLate(tx, st, dropped);
      TimerApart(tx, tx.(log := tx.log + [HeadAgain(tx, st)]), OnRto(tx, st), st, dropped);
    }
  }

  function HeadAgain(tx: Tx, st: Stamp): Frame
    requires tx.queue != []
  {
    var s := tx.queue[0];
    Frame(Segment(s.seqNum, st.ackNum, s.flags, st.window, [], s.data), tx.sentPos - Wrap(tx.nxt - s.seqNum), st.ackPos)
  }

  lemma HeadLate(tx: Tx, st: Stamp, dropped: bool)
    requires LateInv(tx, dropped) && tx.queue != []
    ensures Keeps(tx, tx.(log := tx.log + [HeadAgain(tx, st)]), st, dropped)
  {
    hide Wrap, Ordered, Placed, LateFrames, Stamped;
    HeadPlace(tx, dropped);
    Appended(tx, tx.(log := tx.log + [HeadAgain(tx, st)]), HeadAgain(tx, st), st, dropped);
  }

  lemma OnRtoFields(tx: Tx, st: Stamp)
    ensures var t := OnRto(tx, st);
      t == tx.(log := if tx.queue == [] then tx.log else tx.log + [HeadAgain(tx, st)],
               rto := t.rto, timer := t.timer, panicked := t.panicked, expiries := t.expiries)
  {
    hide Wrap;
  }

  lemma DropLate(tx: Tx, dropped: bool)
    requires LateInv(tx, dropped)
    ensures LateInv(DropSendState(tx), true)
  {
    hide Wrap;
  }
}
