/** One connection over whole runs: every interleaving of the application, the
    receive loop and the timers, with arbitrary segments arriving. */
module TcpRun {
  import opened Seq32
  import opened Wire
  import opened Wrappers
  import opened Bits
  import opened TcpModel

  // ----- the retransmission timer ----------------------------------------

  function Backoff(k: nat): (d: nat)
    ensures INITIAL_RTO <= d <= MAX_RTO
  {
    if k == 0 then INITIAL_RTO else Min(2 * Backoff(k - 1), MAX_RTO)
  }

  /** After k expiries the timeout is min(2^k, 60) seconds. */
  lemma {:induction false} BackoffClosedForm(k: nat)
    ensures Backoff(k) == Min(Pow2(k), 60) * SECOND
  {
    if k > 0 {
      BackoffClosedForm(k - 1);
    }
  }

  /** The timer is nil exactly when the retransmission queue is empty, runs for
      the current timeout, and was never used while nil. */
  ghost predicate TimerInv(tx: Tx) {
    && !tx.panicked
    && (tx.queue == [] <==> tx.timer.None?)
    && (tx.timer.Some? ==> tx.timer.value == tx.rto == Backoff(tx.expiries))
    && (tx.timer.None? ==> tx.expiries == 0 && (tx.rto == 0 || tx.rto == INITIAL_RTO))
  }

  /** k expiries in a row. */
  function Expire(tx: Tx, st: Stamp, k: nat): Tx {
    if k == 0 then tx else OnRto(Expire(tx, st, k - 1), st)
  }

  /** The frame carries the segment again. */
  predicate Repeats(f: Frame, s: Sent) {
    f.seg.seqNum == s.seqNum && f.seg.payload == s.data && f.seg.flags == s.flags
  }

  /** Each expiry in a row sends the head of the queue once more and doubles the
      timeout, up to 60 seconds. */
  lemma ExpiriesInARow(tx: Tx, st: Stamp, k: nat)
    requires TimerInv(tx) && tx.queue != []
    ensures var t := Expire(tx, st, k);
      && TimerInv(t) && t == tx.(rto := t.rto, timer := t.timer, expiries := t.expiries, log := t.log)
      && t.timer == Some(Min(Pow2(tx.expiries + k), 60) * SECOND)
      && |t.log| == |tx.log| + k && tx.log <= t.log
      && forall i :: |tx.log| <= i < |t.log| ==> Repeats(t.log[i], tx.queue[0])
  {
    hide Wrap, OnRto, Pow2;
    CountExpiries(tx, st, k);
    BackoffClosedForm(tx.expiries + k);
  }

  lemma {:induction false} CountExpiries(tx: Tx, st: Stamp, k: nat)
    requires TimerInv(tx) && tx.queue != []
    ensures var t := Expire(tx, st, k);
      && TimerInv(t) && t == tx.(rto := t.rto, timer := t.timer, expiries := tx.expiries + k, log := t.log)
      && |t.log| == |tx.log| + k && tx.log <= t.log
      && forall i :: |tx.log| <= i < |t.log| ==> Repeats(t.log[i], tx.queue[0])
  {
    hide Wrap, OnRto, TimerInv;
    if k > 0 {
      CountExpiries(tx, st, k - 1);
      OneExpiry(Expire(tx, st, k - 1), st);
    }
  }

  lemma OneExpiry(tx: Tx, st: Stamp)
    requires TimerInv(tx) && tx.queue != []
    ensures var t := OnRto(tx, st);
      && TimerInv(t) && t == tx.(rto := t.rto, timer := t.timer, expiries := tx.expiries + 1, log := t.log)
      && |t.log| == |tx.log| + 1 && tx.log <= t.log && Repeats(t.log[|tx.log|], tx.queue[0])
  {
    hide Wrap;
  }

  lemma {:induction false} PumpLoopTimer(tx: Tx, st: Stamp)
    ensures var t := PumpLoop(tx, st);
      && t.panicked == tx.panicked && t.timer == tx.timer && t.rto == tx.rto && t.expiries == tx.expiries
      && (CanSend(tx) || tx.queue != [] ==> t.queue != [])
    decreases |tx.unsent|
  {
    if CanSend(tx) {
      PumpLoopTimer(SendChunk(tx, st), st);
    }
  }

  lemma PumpTimer(tx: Tx, st: Stamp)
    requires TimerInv(tx)
    ensures TimerInv(Pump(tx, st))
  {
    PumpLoopTimer(tx, st);
  }

  lemma ProcessAckTimer(tx: Tx, st: Stamp, seg: Segment)
    requires TimerInv(tx)
    ensures TimerInv(ProcessAck(tx, st, seg).0)
  {
    hide LE, LT, GT;
    if ProcessAck(tx, st, seg).1 {
      PumpTimer(TakeAck(tx, seg), st);
    }
  }

  // ----- the receive half and the states ---------------------------------

  /** Progress of the close: no step of a run lowers it. */
  function Rank(s: State): nat {
    match s
    case Listen => 0 case SynSent => 0 case SynReceived => 0
    case Established => 1
    case FinWait1 => 2 case CloseWait => 2
    case FinWait2 => 3 case LastAck => 3 case Closing => 3
    case TimeWait => 4
    case Closed => 5
  }

  /** Receive accounting: RCV.NXT counts exactly the delivered bytes and the
      FIN, and what was delivered is what Read returned, the overflow and the
      channel, in that order; no chunk in the channel is empty. */
  ghost predicate ReceiveInv(rx: Rx) {
    && !rx.panicked && rx.recvBuffer == [] && rx.fins <= 1
    && rx.rcvNxt == Wrap(rx.irs + 1 + |rx.delivered| + rx.fins)
    && rx.delivered == rx.returned + rx.overflow + Concat(rx.readCh)
    && (forall i :: 0 <= i < |rx.readCh| ==> rx.readCh[i] != [])
  }

  ghost predicate StateInv(c: Conn) {
    && (c.rx.readChClosed ==> !c.state.SynReceived? && !c.state.Established?)
    && (c.rx.fins == 1 ==> c.state.CloseWait? || c.state.LastAck? || c.state.TimeWait? || c.state.Closed?)
    && !c.state.Closing? && !c.state.Listen? && !c.state.SynSent?
    && c.accepted <= 1 && (c.state.SynReceived? ==> c.accepted == 0)
    && (c.registered <==> !c.state.Closed?)
    && (c.cleanups > 0 ==> c.state.TimeWait? || c.state.Closed?)
    && (c.state.TimeWait? ==> c.cleanups > 0)
    && (!c.state.SynReceived? && !c.state.Closed? ==> c.accepted == 1)
  }

  lemma TakeDataKeeps(rx: Rx, payload: seq<byte>)
    requires ReceiveInv(rx) && rx.fins == 0 && !rx.readChClosed && payload != []
    ensures ReceiveInv(TakeData(rx, payload))
  {
    hide Wrap;
    ConcatAppend(rx.readCh, payload);
    WrapSub(rx.irs + 1 + |rx.delivered|, |payload|);
    assert [] + payload == payload;
    AppendLast(rx.returned + rx.overflow, Concat(rx.readCh), payload);
  }

  lemma AppendLast(a: seq<byte>, b: seq<byte>, c: seq<byte>)
    ensures a + b + c == a + (b + c)
  {
  }

  lemma TakeFinKeeps(rx: Rx)
    requires ReceiveInv(rx) && rx.fins == 0
    ensures ReceiveInv(TakeFin(rx))
  {
    WrapSub(rx.irs + 1 + |rx.delivered|, 1);
  }

  /** Read gives the next bytes of the stream, at least one if there is room, and stops
      short only at the end of what was received at once; it gives none only
      when all were given, and then says whether more may come. */
  lemma ReadKeeps(rx: Rx, n: nat)
    requires ReceiveInv(rx)
    ensures var (t, r) := Read(rx, n);
      && ReceiveInv(t) && t.delivered == rx.delivered
      && (r.Data? ==> t.returned == rx.returned + r.data && |r.data| <= n && (|r.data| == n || t.overflow == []))
      && (r.Data? && n > 0 ==> r.data != [])
      && (r.Data? <==> rx.returned != rx.delivered)
      && (r.Eof? ==> t == rx && rx.readChClosed) && (r.Blocked? ==> t == rx && !rx.readChClosed)
  {
    hide Wrap;
    if rx.overflow != [] {
      TakeFront(rx.returned, rx.overflow, Concat(rx.readCh), Min(n, |rx.overflow|));
      hide Concat;
    } else if rx.readCh != [] {
      assert Concat(rx.readCh) == rx.readCh[0] + Concat(rx.readCh[1..]);
      TakeFront(rx.returned, rx.readCh[0], Concat(rx.readCh[1..]), Min(n, |rx.readCh[0]|));
      AppendLast(rx.returned, rx.readCh[0], Concat(rx.readCh[1..]));
      assert rx.returned + [] == rx.returned;
      assert |rx.delivered| == |rx.returned| + |rx.readCh[0]| + |Concat(rx.readCh[1..])|;
      hide Concat;
    } else {
      assert rx.returned + [] + [] == rx.returned;
    }
  }

  /** Returning the first k bytes of the next chunk keeps the stream together. */
  lemma TakeFront(returned: seq<byte>, chunk: seq<byte>, later: seq<byte>, k: nat)
    requires k <= |chunk|
    ensures returned + chunk + later == returned + chunk[..k] + chunk[k..] + later
  {
    assert chunk == chunk[..k] + chunk[k..];
  }

  lemma HandleEstablishedKeeps(c: Conn, seg: Segment)
    requires c.state.Established? && ReceiveInv(c.rx) && StateInv(c) && TimerInv(c.tx)
    ensures var d := HandleEstablished(c, seg);
      ReceiveInv(d.rx) && StateInv(d) && TimerInv(d.tx) && (d.state.Established? || d.state.CloseWait?)
  {
    hide Wrap;
    ProcessAckTimer(c.tx, StampOf(c.rx), seg);
    var (tx, ok) := ProcessAck(c.tx, StampOf(c.rx), seg);
    if ok {
      if seg.payload != [] { TakeDataKeeps(c.rx, seg.payload); }
      TakeFinKeeps(ReceivePayload(c.(tx := tx), seg).rx);
    }
  }

  lemma HandleSegmentKeeps(c: Conn, seg: Segment)
    requires ReceiveInv(c.rx) && StateInv(c) && TimerInv(c.tx)
    ensures var d := HandleSegment(c, seg);
      ReceiveInv(d.rx) && StateInv(d) && TimerInv(d.tx) && Rank(c.state) <= Rank(d.state)
  {
    hide Wrap;
    if !Has(seg.flags, RST) {
      match c.state
      case SynReceived =>
        if Has(seg.flags, ACK) { HandleEstablishedKeeps(Establish(c, seg), seg); }
      case Established => HandleEstablishedKeeps(c, seg);
      case FinWait1 =>
        ProcessAckTimer(c.tx, StampOf(c.rx), seg);
        TakeFinKeeps(c.rx);
      case FinWait2 => TakeFinKeeps(c.rx);
      case _ =>
    }
  }

  lemma StepKeeps(c: Conn, e: Event)
    requires ReceiveInv(c.rx) && StateInv(c) && TimerInv(c.tx)
    ensures var d := Step(c, e);
      ReceiveInv(d.rx) && StateInv(d) && TimerInv(d.tx) && Rank(c.state) <= Rank(d.state)
  {
    hide Wrap;
    match e
    case AppWrite(data) => PumpTimer(c.tx.(unsent := c.tx.unsent + data, written := c.tx.written + data),
      StampOf(c.rx));
    case AppRead(n) => ReadKeeps(c.rx, n);
    case Arrival(seg) => HandleSegmentKeeps(c, seg);
    case _ =>
  }

  /** Every run from a SYN, whatever arrives: the timer discipline, the receive
      accounting, no send on or second close of the channel, one accept, at
      most one FIN taken, and the state only ever advances. */
  lemma {:induction false} RunKeeps(isn: u32, syn: Segment, events: seq<Event>)
    ensures var c := Run(HandleSyn(isn, syn), events);
      && ReceiveInv(c.rx) && StateInv(c) && TimerInv(c.tx)
      && (forall k :: 0 <= k <= |events| ==> Rank(Run(HandleSyn(isn, syn), events[..k]).state) <= Rank(c.state))
  {
    var c0 := HandleSyn(isn, syn);
    if events == [] {
      assert forall k :: 0 <= k <= |events| ==> events[..k] == [];
    } else {
      var prefix := events[..|events| - 1];
      RunKeeps(isn, syn, prefix);
      StepKeeps(Run(c0, prefix), events[|events| - 1]);
      forall k | 0 <= k <= |events| ensures Rank(Run(c0, events[..k]).state) <= Rank(Run(c0, events).state) {
        if k == |events| {
          assert events[..k] == events;
        } else {
          assert prefix[..k] == events[..k];
        }
      }
    }
  }
}
