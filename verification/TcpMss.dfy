/** The peer's MSS is respected: what it announces in its SYN bounds every payload
    that a connection ever sends, and the bound is reached. */
module TcpMss {
  import opened Seq32
  import opened Wire
  import opened Wrappers
  import opened TcpModel
  import opened TcpOptions
  import opened TcpSender

  /** The options are well-formed others, an MSS option with this value, and anything. */
  ghost predicate Announced(options: Bytes, mss: u16) {
    exists opts, rest :: AllSkippable(opts) && options == WriteOpts(opts) + (BuildMss(mss) + rest)
  }

  /** The most a segment may carry for a SYN. */
  function LimitOf(syn: Segment): nat {
    EffectiveMss(HandleSyn(0, syn).tx)
  }

  /** 1460 at most, the peer's value if it announced one (0 counts as none), else 536. */
  lemma LimitIs(syn: Segment)
    ensures LimitOf(syn) <= 1460
    ensures forall m: u16 :: Announced(syn.options, m) ==> LimitOf(syn) == if m == 0 then 536 else Min(m, 1460)
    ensures (forall m: u16 :: !Announced(syn.options, m)) ==> LimitOf(syn) == 536
  {
    hide ParseMss, BuildMss, Wrap, WriteOpts, AllSkippable;
    forall m: u16 ensures Announced(syn.options, m) <==> ParseMss(syn.options) == Some(m) {
      MssIff(syn.options, m);
    }
    var found := ParseMss(syn.options);
    if found.Some? {
      assert Announced(syn.options, found.value);
    }
  }

  // ----- what a connection keeps -----------------------------------------

  /** No options and at most the limit of payload, or our MSS alone; the window is always 65535. */
  predicate SegWithin(seg: Segment, limit: nat) {
    && seg.window == 65535
    && ((seg.options == [] && |seg.payload| <= limit) || (seg.options == BuildMss(1460) && seg.payload == []))
  }

  predicate LogWithin(log: seq<Frame>, limit: nat) {
    forall i :: 0 <= i < |log| ==> SegWithin(log[i].seg, limit)
  }

  predicate QueueWithin(queue: seq<Sent>, limit: nat) {
    forall i :: 0 <= i < |queue| ==> |queue[i].data| <= limit
  }

  predicate Within(tx: Tx, limit: nat) {
    EffectiveMss(tx) == limit && LogWithin(tx.log, limit) && QueueWithin(tx.queue, limit)
  }

  predicate ConnWithin(c: Conn, limit: nat) {
    c.rx.rcvWnd == 65535 && Within(c.tx, limit)
  }

  lemma {:induction false} PumpLoopWithin(tx: Tx, st: Stamp, limit: nat)
    requires Within(tx, limit) && st.window == 65535
    ensures Within(PumpLoop(tx, st), limit)
    decreases |tx.unsent|
  {
    hide Wrap, BuildMss;
    if CanSend(tx) {
      PumpLoopWithin(SendChunk(tx, st), st, limit);
    }
  }

  lemma {:induction false} DrainWithin(queue: seq<Sent>, ack: u32, limit: nat)
    requires QueueWithin(queue, limit)
    ensures QueueWithin(Drain(queue, ack), limit)
  {
    hide LE, Wrap;
    if HeadAcked(queue, ack) {
      DrainWithin(queue[1..], ack, limit);
    }
  }

  lemma ProcessAckWithin(tx: Tx, st: Stamp, seg: Segment, limit: nat)
    requires Within(tx, limit) && st.window == 65535
    ensures Within(ProcessAck(tx, st, seg).0, limit)
  {
    hide LE, LT, GT, Wrap, PumpLoop, Drain;
    DrainWithin(tx.queue, seg.ackNum, limit);
    PumpLoopWithin(TakeAck(tx, seg), st, limit);
  }

  lemma EmitAckWithin(c: Conn, limit: nat)
    requires ConnWithin(c, limit)
    ensures ConnWithin(EmitAck(c), limit)
  {
    hide Wrap, BuildMss;
  }

  lemma PayloadWithin(c: Conn, seg: Segment, limit: nat)
    requires ConnWithin(c, limit)
    ensures ConnWithin(ReceivePayload(c, seg), limit)
  {
    hide EmitAck, Wrap, Within;
    EmitAckWithin(c.(rx := TakeData(c.rx, seg.payload)), limit);
  }

  lemma FinWithin(c: Conn, seg: Segment, limit: nat)
    requires ConnWithin(c, limit)
    ensures ConnWithin(ReceiveFin(c, seg), limit)
  {
    hide EmitAck, Wrap, Within;
    EmitAckWithin(c.(rx := TakeFin(c.rx), state := CloseWait), limit);
  }

  lemma EstablishedWithin(c: Conn, seg: Segment, limit: nat)
    requires ConnWithin(c, limit)
    ensures ConnWithin(HandleEstablished(c, seg), limit)
  {
    hide ProcessAck, Within, ReceivePayload, ReceiveFin;
    ProcessAckWithin(c.tx, StampOf(c.rx), seg, limit);
    var c1 := c.(tx := ProcessAck(c.tx, StampOf(c.rx), seg).0);
    PayloadWithin(c1, seg, limit);
    FinWithin(ReceivePayload(c1, seg), seg, limit);
  }

  lemma FinWait1Within(c: Conn, seg: Segment, limit: nat)
    requires ConnWithin(c, limit)
    ensures ConnWithin(HandleFinWait1(c, seg), limit)
  {
    hide ProcessAck, Within, EmitAck, Wrap;
    ProcessAckWithin(c.tx, StampOf(c.rx), seg, limit);
    var c1 := c.(tx := ProcessAck(c.tx, StampOf(c.rx), seg).0);
    EmitAckWithin(c1.(rx := TakeFin(c1.rx)), limit);
  }

  lemma SegmentWithin(c: Conn, seg: Segment, limit: nat)
    requires ConnWithin(c, limit)
    ensures ConnWithin(HandleSegment(c, seg), limit)
  {
    hide HandleEstablished, HandleFinWait1, EmitAck, Wrap, LogWithin, Has;
    EstablishedWithin(c, seg, limit);
    FinWait1Within(c, seg, limit);
    EstablishedWithin(Establish(c, seg), seg, limit);
    EmitAckWithin(c.(rx := TakeFin(c.rx)), limit);
  }

  lemma StepWithin(c: Conn, e: Event, limit: nat)
    requires ConnWithin(c, limit)
    ensures ConnWithin(Step(c, e), limit)
  {
    hide HandleSegment, PumpLoop, Wrap;
    if e.Arrival? {
      SegmentWithin(c, e.seg, limit);
    } else if e.AppWrite? {
      PumpLoopWithin(c.tx.(unsent := c.tx.unsent + e.data, written := c.tx.written + e.data), StampOf(c.rx), limit);
    }
  }

  lemma {:induction false} RunWithin(isn: u32, syn: Segment, events: seq<Event>)
    ensures ConnWithin(Run(HandleSyn(isn, syn), events), LimitOf(syn)) && LimitOf(syn) <= OUR_MSS
    decreases |events|
  {
    hide Step;
    if events == [] {
      SynWithin(isn, syn);
    } else {
      var init := events[..|events| - 1];
      RunWithin(isn, syn, init);
      StepWithin(Run(HandleSyn(isn, syn), init), events[|events| - 1], LimitOf(syn));
    }
  }

  lemma SynWithin(isn: u32, syn: Segment)
    ensures ConnWithin(HandleSyn(isn, syn), LimitOf(syn)) && LimitOf(syn) <= OUR_MSS
  {
    hide Wrap, BuildMss;
  }

  lemma SegOf(tx: Tx, limit: nat, i: nat)
    requires Within(tx, limit) && i < |tx.log|
    ensures SegWithin(tx.log[i].seg, limit)
  {
  }

  // ----- the theorems ----------------------------------------------------

  /** A SYN is answered by one segment that acknowledges it, announces our own MSS and takes
      sequence number ISN; RCV.NXT and SND.NXT are one past the two SYNs. */
  lemma SynAnswered(isn: u32, syn: Segment)
    ensures var c := HandleSyn(isn, syn); var next := Wrap(syn.seqNum + 1);
      && |c.tx.log| == 1 && c.tx.log[0].seg == Segment(isn, next, SYN_ACK, 65535, BuildMss(1460), [])
      && Announced(BuildMss(1460), 1460) && BuildMss(1460) == [2, 4, 5, 180]
      && c.rx.rcvNxt == next && c.tx.nxt == Wrap(isn + 1) && c.tx.una == isn && c.tx.unsent == [] && c.rx.readCh == []
  {
    hide Wrap, ParseMss;
    assert BuildMss(1460) == WriteOpts([]) + (BuildMss(1460) + []);
  }

  /** Over every run from a SYN: each payload, sent for the first time or again, has at
      most 1460 bytes and at most as many as the SYN announced (536 when it
      announced none, or zero), and each segment offers the same window. */
  lemma PayloadsBounded(isn: u32, syn: Segment, events: seq<Event>, i: nat)
    requires i < |Run(HandleSyn(isn, syn), events).tx.log|
    ensures Run(HandleSyn(isn, syn), events).tx.log[i].seg.window == 65535
    ensures var n := |Run(HandleSyn(isn, syn), events).tx.log[i].seg.payload|;
      && n <= 1460
      && (forall m: u16 :: Announced(syn.options, m) ==> n <= if m == 0 then 536 else m)
      && ((forall m: u16 :: !Announced(syn.options, m)) ==> n <= 536)
  {
    hide Run, HandleSyn, Announced, LimitOf;
    RunWithin(isn, syn, events);
    LimitIs(syn);
  }

  /** The bound is reached: with nothing unsent and an MSS of room in the window, a Write
      of an MSS or more first sends exactly an MSS. */
  lemma BoundReached(tx: Tx, st: Stamp, data: seq<byte>)
    requires SendInv(tx) && tx.unsent == [] && tx.sentPos - tx.ackedPos + EffectiveMss(tx) <= tx.wnd
    requires |data| >= EffectiveMss(tx)
    ensures var t := Write(tx, st, data);
      |t.log| > |tx.log| && t.log[|tx.log|].seg.payload == data[..EffectiveMss(tx)]
  {
    var tx1 := tx.(unsent := data, written := tx.written + data);
    Unsent(tx, data);
    PumpIsMaximal(tx1, st);
    PumpKeeps(tx1, st);
    assert [] + data == data;
    FirstChunk(tx1, Pump(tx1, st), |tx.written|, data);
    hide Wrap, QueueInv, PumpLoop, CanSend;
  }

  /** The first chunk of a pump that has an MSS of data and of room for it. */
  lemma FirstChunk(tx: Tx, t: Tx, pos: nat, data: seq<byte>)
    requires SendInv(tx) && SendInv(t) && tx.log <= t.log && t.written == tx.written && t.ackedPos == tx.ackedPos
    requires Chunks(t.log[|tx.log|..], EffectiveMss(tx), tx.written, tx.ackedPos + tx.wnd, tx.sentPos, t.sentPos)
    requires t.unsent == [] || t.sentPos - t.ackedPos >= tx.wnd
    requires tx.sentPos == pos <= |tx.written| && data == tx.written[pos..]
    requires |data| >= EffectiveMss(tx) && pos - tx.ackedPos + EffectiveMss(tx) <= tx.wnd
    ensures |t.log| > |tx.log| && t.log[|tx.log|].seg.payload == data[..EffectiveMss(tx)]
  {
    hide Wrap, QueueInv;
    var frames := t.log[|tx.log|..];
    assert frames != [];
    assert ChunkFrame(frames[0], EffectiveMss(tx), tx.written, tx.ackedPos + tx.wnd, pos);
    assert tx.written[pos..pos + EffectiveMss(tx)] == data[..EffectiveMss(tx)];
  }

  lemma Unsent(tx: Tx, data: seq<byte>)
    requires SendInv(tx) && tx.unsent == []
    ensures SendInv(tx.(unsent := data, written := tx.written + data)) && tx.sentPos == |tx.written|
  {
    CoversGrow(tx.queue, tx.iss + 1, tx.written, data, tx.sentPos - QueueLen(tx.queue), tx.sentPos);
    hide Wrap, Covers;
  }
}
