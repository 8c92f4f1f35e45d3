/** SND.WND over whole runs: it is the window of the newest acknowledgment that
    advanced SND.UNA, in the order of (SEQ, ACK), or of the handshake. */
module TcpWindow {
  import opened Seq32
  import opened TcpModel
  import opened TcpSender
  import opened TcpStream

  /** Where a segment stands: unbounded positions of its SEQ and ACK numbers. */
  datatype Place = Place(seqPos: int, ackPos: int)

  predicate NotOlder(a: Place, b: Place) {
    a.seqPos < b.seqPos || (a.seqPos == b.seqPos && a.ackPos <= b.ackPos)
  }

  predicate StandsAt(seg: Segment, p: Place) {
    seg.seqNum == Wrap(p.seqPos) && seg.ackNum == Wrap(p.ackPos)
  }

  /** Less than half a lap apart. */
  predicate Nearby(a: Place, b: Place) {
    -HALF < a.seqPos - b.seqPos < HALF && -HALF < a.ackPos - b.ackPos < HALF
  }

  /** The window with the numbers of the segment it was last taken from. */
  datatype View = View(wnd: u16, wl1: u32, wl2: u32)

  function ViewOf(tx: Tx): View {
    View(tx.wnd, tx.wl1, tx.wl2)
  }

  function ViewIn(seg: Segment): View {
    View(seg.window, seg.seqNum, seg.ackNum)
  }

  // ----- one acknowledgment ----------------------------------------------

  /** The segment's window is taken exactly when the segment is not older than the
      one the window was last taken from. */
  lemma UpdateIff(tx: Tx, seg: Segment, last: Place, p: Place)
    requires tx.wl1 == Wrap(last.seqPos) && tx.wl2 == Wrap(last.ackPos) && StandsAt(seg, p) && Nearby(p, last)
    ensures ViewOf(TakeAck(tx, seg)) == if NotOlder(last, p) then ViewIn(seg) else ViewOf(tx)
  {
    OrderAgrees(last.seqPos, p.seqPos);
    OrderAgrees(last.ackPos, p.ackPos);
    if tx.wl1 == seg.seqNum {
      WrapInjective(last.seqPos, p.seqPos);
    }
    hide Wrap, LT, LE, Drain;
  }

  lemma {:induction false} PumpView(tx: Tx, st: Stamp)
    ensures ViewOf(PumpLoop(tx, st)) == ViewOf(tx) && PumpLoop(tx, st).ackedPos == tx.ackedPos
    decreases |tx.unsent|
  {
    if CanSend(tx) {
      PumpView(SendChunk(tx, st), st);
    }
  }

  /** The event is an acknowledgment that advances SND.UNA of an established connection. */
  predicate Advances(c: Conn, e: Event) {
    e.Arrival? && !c.state.SynReceived? && Step(c, e).tx.ackedPos > c.tx.ackedPos
  }

  lemma ForwardOnly(tx: Tx, seg: Segment)
    requires GT(seg.ackNum, tx.una)
    ensures TakeAck(tx, seg).ackedPos > tx.ackedPos
  {
    hide Drain, LT, LE;
  }

  lemma ProcessAckView(tx: Tx, st: Stamp, seg: Segment)
    ensures var t := ProcessAck(tx, st, seg).0;
      && t.ackedPos >= tx.ackedPos
      && ViewOf(t) == if t.ackedPos > tx.ackedPos then ViewOf(TakeAck(tx, seg)) else ViewOf(tx)
  {
    PumpView(TakeAck(tx, seg), st);
    if GT(seg.ackNum, tx.una) {
      ForwardOnly(tx, seg);
    }
    hide PumpLoop, Wrap, LT, LE, GT, TakeAck, CanSend;
  }

  /** What a step does to the window: the handshake takes the segment's and leaves
      WL1 and WL2, an ACK that advances UNA goes by the rule, nothing else does anything. */
  ghost predicate StepsTo(c: Conn, e: Event, d: Conn) {
    && (ViewOf(d.tx) == if e.Arrival? && CompletesHandshake(c, e.seg) then ViewOf(c.tx).(wnd := e.seg.window)
          else if Advances(c, e) then ViewOf(TakeAck(c.tx, e.seg))
          else ViewOf(c.tx))
    && (d.state.SynReceived? ==> c.state.SynReceived? && !(e.Arrival? && CompletesHandshake(c, e.seg)))
  }

  lemma StepView(c: Conn, e: Event)
    ensures StepsTo(c, e, Step(c, e))
  {
    hide PumpLoop, Wrap, HandleSegment, TakeAck, CanSend;
    match e
    case AppWrite(data) => PumpView(c.tx.(unsent := c.tx.unsent + data, written := c.tx.written + data), StampOf(c.rx));
    case Arrival(seg) => SegmentView(c, seg);
    case _ =>
  }

  lemma SegmentView(c: Conn, seg: Segment)
    ensures StepsTo(c, Arrival(seg), HandleSegment(c, seg))
  {
    hide PumpLoop, Wrap, LT, LE, GT, ProcessAck, TakeAck, CanSend, HandleEstablished, Has;
    ProcessAckView(c.tx, StampOf(c.rx), seg);
    HandleEstablishedTx(c, seg);
    EstablishedState(c, seg);
    OpensView(c, seg);
    EstablishedState(Establish(c, seg), seg);
  }

  lemma EstablishedState(c: Conn, seg: Segment)
    ensures HandleEstablished(c, seg).state.SynReceived? ==> c.state.SynReceived?
  {
    hide ProcessAck;
  }

  lemma OpensView(c: Conn, seg: Segment)
    ensures var d := Establish(c, seg); ViewOf(HandleEstablished(d, seg).tx) == ViewOf(d.tx)
  {
    var d := Establish(c, seg);
    NotBeyondSelf(seg.ackNum);
    hide PumpLoop, Wrap, LT, LE, GT, TakeAck, CanSend;
    HandleEstablishedTx(d, seg);
  }

  // ----- runs ------------------------------------------------------------

  /** An ACK advances UNA at the k-th step of the run. */
  predicate AdvancesAt(c0: Conn, events: seq<Event>, k: int) {
    0 <= k < |events| && Advances(Run(c0, events[..k]), events[k])
  }

  /** The handshake completes at the k-th step. */
  predicate OpensAt(c0: Conn, events: seq<Event>, k: int) {
    0 <= k < |events| && events[k].Arrival? && CompletesHandshake(Run(c0, events[..k]), events[k].seg)
  }

  /** The place of the k-th event, or for -1 of the SYN. */
  function PlaceOf(syn: Place, places: seq<Place>, k: int): Place
    requires -1 <= k < |places|
  {
    if k < 0 then syn else places[k]
  }

  /** Of the first m steps the one whose ACK is the newest that advanced UNA, or -1 for the SYN. */
  function Newest(c0: Conn, events: seq<Event>, m: nat, syn: Place, places: seq<Place>): (n: int)
    requires m <= |events| <= |places|
    ensures -1 <= n < m
  {
    if m == 0 then -1 else
    var n := Newest(c0, events, m - 1, syn, places);
    if AdvancesAt(c0, events, m - 1) && NotOlder(PlaceOf(syn, places, n), places[m - 1]) then m - 1 else n
  }

  /** The greatest place of all that advanced UNA, the SYN's included, and the last such. */
  ghost predicate IsNewest(c0: Conn, events: seq<Event>, m: nat, syn: Place, places: seq<Place>, n: int)
    requires m <= |events| <= |places| && -1 <= n < m
  {
    && (n >= 0 ==> AdvancesAt(c0, events, n) && NotOlder(syn, places[n]))
    && forall j :: 0 <= j < m && AdvancesAt(c0, events, j) ==>
      if j <= n then NotOlder(places[j], PlaceOf(syn, places, n)) else !NotOlder(PlaceOf(syn, places, n), places[j])
  }

  lemma {:induction false} NewestIsGreatest(c0: Conn, events: seq<Event>, m: nat, syn: Place, places: seq<Place>)
    requires m <= |events| <= |places|
    ensures IsNewest(c0, events, m, syn, places, Newest(c0, events, m, syn, places))
  {
    hide AdvancesAt;
    if m > 0 {
      NewestIsGreatest(c0, events, m - 1, syn, places);
    }
  }

  /** Each event stands at its place, and no advancing ACK is half a lap or more from
      the newest one before it. */
  ghost predicate Placed(c0: Conn, events: seq<Event>, syn: Place, places: seq<Place>) {
    && |events| <= |places|
    && forall k :: 0 <= k < |events| && AdvancesAt(c0, events, k) ==>
      StandsAt(events[k].seg, places[k]) && Nearby(places[k], PlaceOf(syn, places, Newest(c0, events, k, syn, places)))
  }

  /** WL1 and WL2 belong to the n-th ACK, or to the SYN; the window is that ACK's, or
      the handshake's, or the SYN's. */
  ghost predicate WindowOf(c0: Conn, events: seq<Event>, m: nat, syn: Segment, n: int, v: View)
    requires -1 <= n < m <= |events| || (m == 0 && n == -1)
  {
    if n >= 0 then events[n].Arrival? && v == ViewIn(events[n].seg)
    else
      && v.wl1 == syn.seqNum && v.wl2 == syn.ackNum
      && (forall k :: 0 <= k < m && OpensAt(c0, events, k) ==> v.wnd == events[k].seg.window)
      && ((forall k :: 0 <= k < m ==> !OpensAt(c0, events, k)) ==> v.wnd == syn.window)
  }

  /** Before the handshake completes nothing has set the window but the SYN. */
  ghost predicate StillSyn(c0: Conn, events: seq<Event>, m: nat, n: int)
    requires m <= |events|
  {
    Run(c0, events[..m]).state.SynReceived? ==> n == -1 && forall k :: 0 <= k < m ==> !OpensAt(c0, events, k)
  }

  lemma {:induction false} RunView(isn: u32, syn: Segment, events: seq<Event>, m: nat, first: Place,
                                   places: seq<Place>)
    requires m <= |events| && StandsAt(syn, first) && Placed(HandleSyn(isn, syn), events, first, places)
    ensures var c0 := HandleSyn(isn, syn); var n := Newest(c0, events, m, first, places);
      WindowOf(c0, events, m, syn, n, ViewOf(Run(c0, events[..m]).tx)) && StillSyn(c0, events, m, n)
  {
    var c0 := HandleSyn(isn, syn);
    if m == 0 {
      hide Wrap;
    } else {
      hide HandleSyn, Run, Placed, WindowOf, StillSyn, AdvancesAt, Wrap, ViewOf, StepsTo;
      RunView(isn, syn, events, m - 1, first, places);
      LastStep(c0, events, m - 1);
      StepWindow(c0, events, m - 1, syn, first, places);
    }
  }

  lemma LastStep(c0: Conn, events: seq<Event>, m: nat)
    requires m < |events|
    ensures StepsTo(Run(c0, events[..m]), events[m], Run(c0, events[..m + 1]))
  {
    hide Step, StepsTo;
    assert events[..m + 1][..m] == events[..m];
    StepView(Run(c0, events[..m]), events[m]);
  }

  lemma StepWindow(c0: Conn, events: seq<Event>, m: nat, syn: Segment, first: Place, places: seq<Place>)
    requires m < |events| && StandsAt(syn, first) && Placed(c0, events, first, places)
    requires StepsTo(Run(c0, events[..m]), events[m], Run(c0, events[..m + 1]))
    requires var n := Newest(c0, events, m, first, places);
      WindowOf(c0, events, m, syn, n, ViewOf(Run(c0, events[..m]).tx)) && StillSyn(c0, events, m, n)
    ensures var n := Newest(c0, events, m + 1, first, places);
      WindowOf(c0, events, m + 1, syn, n, ViewOf(Run(c0, events[..m + 1]).tx)) && StillSyn(c0, events, m + 1, n)
  {
    hide Run, TakeAck, Step, Has, Wrap, Nearby, NotOlder;
    if AdvancesAt(c0, events, m) {
      TakesOver(c0, events, m, syn, first, places);
      assert !OpensAt(c0, events, m);
    } else if OpensAt(c0, events, m) {
      assert Newest(c0, events, m, first, places) == -1;
    }
  }

  /** The rule for an advancing ACK, read at the places. */
  lemma TakesOver(c0: Conn, events: seq<Event>, m: nat, syn: Segment, first: Place, places: seq<Place>)
    requires StandsAt(syn, first) && Placed(c0, events, first, places) && AdvancesAt(c0, events, m)
    requires WindowOf(c0, events, m, syn, Newest(c0, events, m, first, places), ViewOf(Run(c0, events[..m]).tx))
    ensures var (tx, n) := (Run(c0, events[..m]).tx, Newest(c0, events, m, first, places));
      && events[m].Arrival?
      && ViewOf(TakeAck(tx, events[m].seg))
        == if NotOlder(PlaceOf(first, places, n), places[m]) then ViewIn(events[m].seg) else ViewOf(tx)
  {
    var n := Newest(c0, events, m, first, places);
    NewestIsGreatest(c0, events, m, first, places);
    assert events[m].Arrival?;
    hide Newest, Run, TakeAck, AdvancesAt, Wrap, NotOlder, Nearby, OpensAt;
    UpdateIff(Run(c0, events[..m]).tx, events[m].seg, PlaceOf(first, places, n), places[m]);
  }

  /** Over every run from a SYN: SND.WND, WL1 and WL2 are those of the newest ACK that
      advanced SND.UNA; as long as there is none, WL1 and WL2 are the SYN's and
      SND.WND is that of the handshake's ACK, or before it the SYN's. */
  lemma WindowIsNewest(isn: u32, syn: Segment, events: seq<Event>, first: Place, places: seq<Place>)
    requires StandsAt(syn, first) && Placed(HandleSyn(isn, syn), events, first, places)
    ensures var (c0, m) := (HandleSyn(isn, syn), |events|);
      var n := Newest(c0, events, m, first, places);
      IsNewest(c0, events, m, first, places, n) && WindowOf(c0, events, m, syn, n, ViewOf(Run(c0, events).tx))
  {
    hide Run, HandleSyn, AdvancesAt, OpensAt;
    NewestIsGreatest(HandleSyn(isn, syn), events, |events|, first, places);
    RunView(isn, syn, events, |events|, first, places);
    assert events[..|events|] == events;
  }

  // ----- a closed window -------------------------------------------------

  /** A closed window opens again only by an ACK that advances UNA: some segment can open it
      if and only if something is in flight. */
  lemma ReopenIff(tx: Tx, st: Stamp)
    requires Near(tx) && tx.wnd == 0
    ensures (exists seg :: ProcessAck(tx, st, seg).0.wnd > 0) <==> tx.ackedPos < tx.sentPos
  {
    if tx.ackedPos < tx.sentPos {
      Reopens(tx, st);
    } else {
      forall seg ensures ProcessAck(tx, st, seg).0.wnd == 0 {
        NothingToAck(tx, st, seg);
      }
    }
  }

  lemma Reopens(tx: Tx, st: Stamp)
    requires Near(tx) && tx.ackedPos < tx.sentPos
    ensures exists seg :: ProcessAck(tx, st, seg).0.wnd > 0
  {
    var seg := Segment(Wrap(tx.wl1 + 1), tx.nxt, ACK, 1, [], []);
    AckPlaces(tx, tx.nxt, tx.sentPos);
    OrderAgrees(tx.wl1, tx.wl1 + 1);
    assert Wrap(tx.wl1) == tx.wl1;
    hide Wrap, LT, LE, GT, PumpLoop, Drain, CanSend;
    PumpView(TakeAck(tx, seg), st);
    assert ViewOf(ProcessAck(tx, st, seg).0).wnd == 1;
  }

  lemma NothingToAck(tx: Tx, st: Stamp, seg: Segment)
    requires tx.una == tx.nxt
    ensures var t := ProcessAck(tx, st, seg).0; t == tx.(log := t.log) && NoPayload(tx.log, t.log)
  {
    hide Wrap, GT, Has, TakeAck, Pump;
  }

  ghost predicate NoPayload(log0: seq<Frame>, log1: seq<Frame>) {
    log0 <= log1 && forall i :: |log0| <= i < |log1| ==> log1[i].seg.payload == []
  }

  /** All acknowledged, and no window for more. */
  predicate Stuck(c: Conn) {
    !c.state.SynReceived? && c.tx.una == c.tx.nxt && c.tx.wnd == 0 && c.tx.queue == []
  }

  lemma StuckStep(c: Conn, e: Event)
    requires Stuck(c) && !e.AppClose?
    ensures Stuck(Step(c, e)) && NoPayload(c.tx.log, Step(c, e).tx.log)
  {
    hide Wrap, ProcessAck, HandleSegment, Has;
    match e
    case Arrival(seg) => StuckSegment(c, seg);
    case _ =>
  }

  lemma StuckSegment(c: Conn, seg: Segment)
    requires Stuck(c)
    ensures Stuck(HandleSegment(c, seg)) && NoPayload(c.tx.log, HandleSegment(c, seg).tx.log)
  {
    hide Wrap, ProcessAck, Has, HandleEstablished, StampOf;
    NothingToAck(c.tx, StampOf(c.rx), seg);
    StuckEstablished(c, seg);
  }

  lemma StuckEstablished(c: Conn, seg: Segment)
    requires Stuck(c)
    ensures var d := HandleEstablished(c, seg);
      !d.state.SynReceived? && d.tx == c.tx.(log := d.tx.log) && NoPayload(c.tx.log, d.tx.log)
  {
    hide Wrap, ProcessAck, Has, StampOf;
    NothingToAck(c.tx, StampOf(c.rx), seg);
  }

  /** There is no probe: with everything acknowledged and the window closed, no run without
      Close ever sends another byte, whatever is written and whatever window arrives. */
  lemma {:induction false} StuckForever(c: Conn, events: seq<Event>)
    requires Stuck(c) && forall k :: 0 <= k < |events| ==> !events[k].AppClose?
    ensures Stuck(Run(c, events)) && NoPayload(c.tx.log, Run(c, events).tx.log)
    decreases |events|
  {
    hide Step, Stuck;
    if events != [] {
      var init := events[..|events| - 1];
      StuckForever(c, init);
      StuckStep(Run(c, init), events[|events| - 1]);
    }
  }

  /** It happens to every peer that opens with a zero window. */
  lemma OpensStuck(isn: u32, syn: Segment, seg: Segment)
    requires CompletesHandshake(HandleSyn(isn, syn), seg) && seg.ackNum == Wrap(isn + 1) && seg.window == 0
    ensures Stuck(HandleSegment(HandleSyn(isn, syn), seg))
  {
    var c := HandleSyn(isn, syn);
    SynSent(isn, syn);
    hide Wrap, GT, Has, HandleSyn;
    OpensView(c, seg);
    NothingToAck(Establish(c, seg).tx, StampOf(c.rx), seg);
    HandleEstablishedTx(Establish(c, seg), seg);
    EstablishedState(Establish(c, seg), seg);
  }

  lemma SynSent(isn: u32, syn: Segment)
    ensures var c := HandleSyn(isn, syn); c.state.SynReceived? && c.tx.nxt == Wrap(isn + 1) && c.tx.queue == []
  {
    hide Wrap;
  }
}
