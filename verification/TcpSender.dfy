/** The send half keeps the stream: whatever was written is acknowledged,
    queued for retransmission, or still unsent, across every wrap of the
    32-bit sequence numbers. */
module TcpSender {
  import opened Seq32
  import opened TcpModel

  function QueueLen(queue: seq<Sent>): nat {
    if queue == [] then 0 else |queue[0].data| + QueueLen(queue[1..])
  }

  function QueueBytes(queue: seq<Sent>): (bytes: seq<byte>)
    ensures |bytes| == QueueLen(queue)
  {
    if queue == [] then [] else queue[0].data + QueueBytes(queue[1..])
  }

  /** The queue holds, in order and without gap, the written bytes from lo to hi. */
  ghost predicate Covers(queue: seq<Sent>, first: int, written: seq<byte>, lo: int, hi: int) {
    if queue == [] then lo == hi else
    var end := lo + |queue[0].data|;
    && 0 <= lo < end <= hi <= |written| && |queue[0].data| <= 65535
    && (queue[0].flags == ACK || queue[0].flags == PSH_ACK)
    && queue[0].seqNum == Wrap(first + lo)
    && queue[0].data == written[lo..end]
    && Covers(queue[1..], first, written, end, hi)
  }

  /** A frame carries written bytes at the position its sequence number stands for. */
  ghost predicate FrameOk(f: Frame, iss: u32, written: seq<byte>, sentPos: int) {
    && 0 <= f.pos && f.pos + |f.seg.payload| <= sentPos <= |written|
    && f.seg.payload == written[f.pos..f.pos + |f.seg.payload|]
    && f.seg.seqNum == Wrap(iss + 1 + f.pos)
    && (f.seg.flags == ACK || f.seg.flags == PSH_ACK)
  }

  /** The queue with its numbers: it runs up to SND.NXT, and SND.UNA lies in its head. */
  ghost predicate QueueInv(queue: seq<Sent>, first: int, written: seq<byte>, sentPos: int, ackedPos: int) {
    var lo := sentPos - QueueLen(queue);
    && Covers(queue, first, written, lo, sentPos)
    && (if queue == [] then ackedPos == sentPos else lo <= ackedPos < lo + |queue[0].data|)
  }

  ghost predicate Numbers(iss: u32, una: u32, nxt: u32, sentPos: int, ackedPos: int) {
    && 0 <= ackedPos <= sentPos <= ackedPos + 65535
    && una == Wrap(iss + 1 + ackedPos)
    && nxt == Wrap(iss + 1 + sentPos)
  }

  /** The invariant of the send half while the stream is open. */
  ghost predicate SendInv(tx: Tx) {
    && Numbers(tx.iss, tx.una, tx.nxt, tx.sentPos, tx.ackedPos)
    && tx.sentPos <= |tx.written| && tx.unsent == tx.written[tx.sentPos..]
    && QueueInv(tx.queue, tx.iss + 1, tx.written, tx.sentPos, tx.ackedPos)
  }

  /** The numbers alone, before and after Close, whose FIN may stand behind a full window. */
  ghost predicate Near(tx: Tx) {
    && tx.ackedPos <= tx.sentPos <= tx.ackedPos + 65536
    && tx.una == Wrap(tx.iss + 1 + tx.ackedPos) && tx.nxt == Wrap(tx.iss + 1 + tx.sentPos)
  }

  /** The part of a log a step appended carries that step's stamp. */
  ghost predicate Stamped(log0: seq<Frame>, log1: seq<Frame>, st: Stamp) {
    && log0 <= log1
    && forall i :: |log0| <= i < |log1| ==> log1[i].ackPos == st.ackPos && log1[i].seg.ackNum == st.ackNum
  }

  ghost predicate NewFramesOk(log0: seq<Frame>, tx: Tx) {
    && log0 <= tx.log
    && forall i :: |log0| <= i < |tx.log| ==> FrameOk(tx.log[i], tx.iss, tx.written, tx.sentPos)
  }

  // ----- what the invariant means ----------------------------------------

  /** Conservation: acknowledged ++ queued from SND.UNA ++ unsent is what was written. */
  lemma Conservation(tx: Tx)
    requires SendInv(tx)
    ensures var skip := tx.ackedPos - (tx.sentPos - QueueLen(tx.queue));
      && 0 <= skip <= QueueLen(tx.queue)
      && tx.written == tx.written[..tx.ackedPos] + QueueBytes(tx.queue)[skip..] + tx.unsent
    ensures tx.queue == [] <==> tx.una == tx.nxt
    ensures Wrap(tx.nxt - tx.una) == tx.sentPos - tx.ackedPos
  {
    CoversBytes(tx.queue, tx.iss + 1, tx.written, tx.sentPos - QueueLen(tx.queue), tx.sentPos);
    FlightSize(tx);
    WrapDistance(0);
    hide Wrap, Covers;
    if tx.queue == [] {
      assert tx.written == tx.written[..tx.ackedPos] + [] + tx.unsent;
    } else {
      assert QueueLen(tx.queue) >= |tx.queue[0].data|;
      SplitAt(tx.written, tx.sentPos - QueueLen(tx.queue), tx.ackedPos, tx.sentPos);
    }
  }

  lemma SplitAt(written: seq<byte>, lo: nat, mid: nat, hi: nat)
    requires lo <= mid <= hi <= |written|
    ensures written == written[..mid] + written[lo..hi][mid - lo..] + written[hi..]
  {
  }

  lemma {:induction false} CoversBytes(queue: seq<Sent>, first: int, written: seq<byte>, lo: int, hi: int)
    requires Covers(queue, first, written, lo, hi)
    ensures hi - lo == QueueLen(queue)
    ensures queue != [] ==> 0 <= lo <= hi <= |written| && QueueBytes(queue) == written[lo..hi]
  {
    hide Wrap;
    if queue != [] {
      var end := lo + |queue[0].data|;
      CoversBytes(queue[1..], first, written, end, hi);
      assert written[lo..hi] == written[lo..end] + written[end..hi];
    }
  }

  lemma FlightSize(tx: Tx)
    requires SendInv(tx)
    ensures InFlight(tx) == tx.sentPos - tx.ackedPos
  {
    SendNumbers(tx.iss, tx.una, tx.nxt, tx.sentPos, tx.ackedPos, 0);
  }

  // ----- the pump --------------------------------------------------------

  lemma {:induction false} CoversAppend(queue: seq<Sent>, first: int, written: seq<byte>, lo: int, hi: int, s: Sent)
    requires Covers(queue, first, written, lo, hi)
    requires 0 <= hi < hi + |s.data| <= |written|
    requires s.seqNum == Wrap(first + hi) && s.data == written[hi..hi + |s.data|]
    requires |s.data| <= 65535 && (s.flags == ACK || s.flags == PSH_ACK)
    ensures Covers(queue + [s], first, written, lo, hi + |s.data|)
    ensures QueueLen(queue + [s]) == QueueLen(queue) + |s.data|
  {
    if queue == [] {
      assert (queue + [s])[1..] == [];
    } else {
      assert (queue + [s])[1..] == queue[1..] + [s];
      CoversAppend(queue[1..], first, written, lo + |queue[0].data|, hi, s);
    }
  }

  lemma SendNumbers(iss: u32, una: u32, nxt: u32, sentPos: int, ackedPos: int, n: nat)
    requires Numbers(iss, una, nxt, sentPos, ackedPos)
    ensures Wrap(nxt - una) == sentPos - ackedPos
    ensures sentPos - ackedPos + n <= 65535 ==> Numbers(iss, una, Wrap(nxt + n), sentPos + n, ackedPos)
  {
    WrapSub(iss + 1 + sentPos, iss + 1 + ackedPos);
    WrapSub(iss + 1 + sentPos, n);
    assert 0 <= sentPos - ackedPos <= 65535;
    WrapDistance(sentPos - ackedPos);
    hide Wrap;
    assert iss + 1 + sentPos - (iss + 1 + ackedPos) == sentPos - ackedPos;
  }

  lemma WrapDistance(d: int)
    requires 0 <= d < MOD
    ensures Wrap(d) == d
  {
  }

  lemma QueueAppend(queue: seq<Sent>, first: int, written: seq<byte>, sentPos: int, ackedPos: int, s: Sent)
    requires QueueInv(queue, first, written, sentPos, ackedPos)
    requires 0 <= sentPos < sentPos + |s.data| <= |written|
    requires s.seqNum == Wrap(first + sentPos) && s.data == written[sentPos..sentPos + |s.data|]
    requires |s.data| <= 65535 && (s.flags == ACK || s.flags == PSH_ACK)
    ensures QueueInv(queue + [s], first, written, sentPos + |s.data|, ackedPos)
  {
    CoversAppend(queue, first, written, sentPos - QueueLen(queue), sentPos, s);
    assert (queue + [s])[0] == if queue == [] then s else queue[0];
  }

  lemma SendChunkInv(tx: Tx, st: Stamp)
    requires SendInv(tx) && CanSend(tx)
    ensures SendInv(SendChunk(tx, st))
    ensures var t := SendChunk(tx, st); t.sentPos - t.ackedPos <= t.wnd
  {
    hide Wrap, QueueInv;
    var n := ChunkSize(tx);
    SendNumbers(tx.iss, tx.una, tx.nxt, tx.sentPos, tx.ackedPos, n);
    var s := SendChunk(tx, st).queue[|tx.queue|];
    assert s.data == tx.written[tx.sentPos..tx.sentPos + n];
    QueueAppend(tx.queue, tx.iss + 1, tx.written, tx.sentPos, tx.ackedPos, s);
  }

  lemma SendChunkFrame(tx: Tx, st: Stamp)
    requires SendInv(tx) && CanSend(tx)
    ensures var t := SendChunk(tx, st); Stamped(tx.log, t.log, st) && NewFramesOk(tx.log, t)
  {
    var n := ChunkSize(tx);
    WrapDistance(0);
    hide Wrap, QueueInv, CanSend, ChunkSize;
    assert tx.unsent[..n] == tx.written[tx.sentPos..tx.sentPos + n];
  }

  lemma FrameOkMono(f: Frame, iss: u32, written: seq<byte>, sentPos: int, written': seq<byte>, sentPos': int)
    requires FrameOk(f, iss, written, sentPos) && written <= written' && sentPos <= sentPos' <= |written'|
    ensures FrameOk(f, iss, written', sentPos')
  {
    assert f.seg.payload == written'[f.pos..f.pos + |f.seg.payload|];
  }

  lemma {:induction false} PumpLoopKeeps(tx: Tx, st: Stamp)
    requires SendInv(tx)
    ensures var t := PumpLoop(tx, st);
      && SendInv(t) && Stamped(tx.log, t.log, st) && NewFramesOk(tx.log, t)
      && t.iss == tx.iss && t.written == tx.written && t.ackedPos == tx.ackedPos && tx.sentPos <= t.sentPos
    decreases |tx.unsent|
  {
    if CanSend(tx) {
      var t := SendChunk(tx, st);
      SendChunkInv(tx, st);
      SendChunkFrame(tx, st);
      PumpLoopKeeps(t, st);
      var u := PumpLoop(t, st);
      forall i | |tx.log| <= i < |u.log| ensures FrameOk(u.log[i], u.iss, u.written, u.sentPos) {
        if i < |t.log| {
          assert u.log[i] == t.log[i];
          FrameOkMono(t.log[i], t.iss, t.written, t.sentPos, u.written, u.sentPos);
        }
      }
    }
  }

  lemma PumpKeeps(tx: Tx, st: Stamp)
    requires SendInv(tx)
    ensures var t := Pump(tx, st);
      && SendInv(t) && Stamped(tx.log, t.log, st) && NewFramesOk(tx.log, t)
      && t.iss == tx.iss && t.written == tx.written && t.ackedPos == tx.ackedPos && tx.sentPos <= t.sentPos
  {
    PumpLoopKeeps(tx, st);
    hide FrameOk, QueueInv, Numbers, PumpLoop, CanSend;
  }

  /** The frame carries the next chunk of the stream, which starts at pos and ends where the
      MSS, the window or the stream does, whichever comes first. */
  ghost predicate ChunkFrame(f: Frame, mss: u16, written: seq<byte>, limit: int, pos: int) {
    var end := pos + |f.seg.payload|;
    && f.pos == pos && 0 <= pos < end <= |written|
    && f.seg.payload == written[pos..end]
    && end <= pos + mss && end <= limit && (end == pos + mss || end == limit || end == |written|)
    && f.seg.flags == (if end == |written| then PSH_ACK else ACK)
  }

  /** The frames are consecutive chunks of the stream from pos to end. */
  ghost predicate Chunks(frames: seq<Frame>, mss: u16, written: seq<byte>, limit: int, pos: int, end: int) {
    if frames == [] then pos == end
    else ChunkFrame(frames[0], mss, written, limit, pos)
         && Chunks(frames[1..], mss, written, limit, pos + |frames[0].seg.payload|, end)
  }

  lemma SendChunkIsChunk(tx: Tx, st: Stamp)
    requires SendInv(tx) && CanSend(tx)
    ensures var t := SendChunk(tx, st);
      && |t.log| == |tx.log| + 1
      && ChunkFrame(t.log[|tx.log|], EffectiveMss(tx), tx.written, tx.ackedPos + tx.wnd, tx.sentPos)
      && t.sentPos == tx.sentPos + |t.log[|tx.log|].seg.payload|
  {
    FlightSize(tx);
    WrapDistance(0);
    hide Wrap, QueueInv, Numbers, InFlight;
    var n := ChunkSize(tx);
    assert tx.unsent[..n] == tx.written[tx.sentPos..tx.sentPos + n];
  }

  /** One pump: consecutive chunks, each as long as the effective MSS, UNA + WND and
      the stream allow, PSH exactly on the one that empties the buffer; and it
      stops only with nothing unsent or with the window full. */
  lemma {:induction false} PumpLoopSends(tx: Tx, st: Stamp)
    requires SendInv(tx)
    ensures var t := PumpLoop(tx, st);
      && tx.log <= t.log
      && Chunks(t.log[|tx.log|..], EffectiveMss(tx), tx.written, tx.ackedPos + tx.wnd, tx.sentPos, t.sentPos)
      && (t.unsent == [] || t.sentPos - t.ackedPos >= tx.wnd)
    decreases |tx.unsent|
  {
    hide ChunkFrame, SendInv, Wrap, InFlight;
    if CanSend(tx) {
      var t := SendChunk(tx, st);
      SendChunkInv(tx, st);
      SendChunkIsChunk(tx, st);
      PumpLoopSends(t, st);
      ChunksCons(PumpLoop(t, st).log, t.log, |tx.log|, EffectiveMss(tx), tx.written, tx.ackedPos + tx.wnd,
                 tx.sentPos, PumpLoop(t, st).sentPos);
    } else {
      FlightSize(tx);
      assert tx.log[|tx.log|..] == [];
    }
  }

  lemma ChunksCons(log: seq<Frame>, prefix: seq<Frame>, n: nat, mss: u16, written: seq<byte>, limit: int, pos: int,
                   end: int)
    requires prefix <= log && |prefix| == n + 1
    requires ChunkFrame(prefix[n], mss, written, limit, pos)
    requires Chunks(log[|prefix|..], mss, written, limit, pos + |prefix[n].seg.payload|, end)
    ensures Chunks(log[n..], mss, written, limit, pos, end)
  {
    assert log[n..][1..] == log[|prefix|..];
  }

  lemma PumpIsMaximal(tx: Tx, st: Stamp)
    requires SendInv(tx)
    ensures var t := Pump(tx, st);
      && tx.log <= t.log
      && Chunks(t.log[|tx.log|..], EffectiveMss(tx), tx.written, tx.ackedPos + tx.wnd, tx.sentPos, t.sentPos)
      && (t.unsent == [] || t.sentPos - t.ackedPos >= tx.wnd)
  {
    PumpLoopSends(tx, st);
  }

  // ----- the steps of the send half --------------------------------------

  lemma {:induction false} CoversGrow(queue: seq<Sent>, first: int, written: seq<byte>, more: seq<byte>, lo: int,
                                      hi: int)
    requires Covers(queue, first, written, lo, hi)
    ensures Covers(queue, first, written + more, lo, hi)
  {
    if queue != [] {
      CoversGrow(queue[1..], first, written, more, lo + |queue[0].data|, hi);
      assert (written + more)[lo..lo + |queue[0].data|] == written[lo..lo + |queue[0].data|];
    }
  }

  lemma WriteKeeps(tx: Tx, st: Stamp, data: seq<byte>)
    requires SendInv(tx)
    ensures var t := Write(tx, st, data);
      && SendInv(t) && Stamped(tx.log, t.log, st) && NewFramesOk(tx.log, t)
      && t.iss == tx.iss && t.written == tx.written + data && t.ackedPos == tx.ackedPos && tx.sentPos <= t.sentPos
  {
    CoversGrow(tx.queue, tx.iss + 1, tx.written, data, tx.sentPos - QueueLen(tx.queue), tx.sentPos);
    PumpKeeps(tx.(unsent := tx.unsent + data, written := tx.written + data), st);
  }

  lemma OnRtoKeeps(tx: Tx, st: Stamp)
    requires SendInv(tx)
    ensures var t := OnRto(tx, st);
      && SendInv(t) && Stamped(tx.log, t.log, st)
      && t.iss == tx.iss && t.written == tx.written && t.ackedPos == tx.ackedPos && t.sentPos == tx.sentPos
  {
  }

  /** What expires is the earliest unacknowledged segment, sent again at its own position. */
  lemma OnRtoFrame(tx: Tx, st: Stamp)
    requires SendInv(tx) && tx.queue != []
    ensures var t := OnRto(tx, st);
      && |t.log| == |tx.log| + 1 && NewFramesOk(tx.log, t)
      && t.log[|tx.log|].pos <= tx.ackedPos < t.log[|tx.log|].pos + |t.log[|tx.log|].seg.payload|
  {
    var (head, lo) := (tx.queue[0], tx.sentPos - QueueLen(tx.queue));
    HeadPosition(tx);
    hide Wrap, SendInv, QueueLen, QueueInv, FrameOk;
    var f := Frame(Segment(head.seqNum, st.ackNum, head.flags, st.window, [], head.data), lo, st.ackPos);
    HeadFrame(tx, f);
    assert OnRto(tx, st).log == tx.log + [f];
  }

  lemma HeadPosition(tx: Tx)
    requires SendInv(tx) && tx.queue != []
    ensures tx.sentPos - Wrap(tx.nxt - tx.queue[0].seqNum) == tx.sentPos - QueueLen(tx.queue)
    ensures tx.sentPos - QueueLen(tx.queue) <= tx.ackedPos < tx.sentPos - QueueLen(tx.queue) + |tx.queue[0].data|
  {
    hide Wrap;
    PositionOf(tx.iss + 1, tx.sentPos - QueueLen(tx.queue), tx.sentPos);
  }

  lemma HeadFrame(tx: Tx, f: Frame)
    requires SendInv(tx) && tx.queue != [] && f.pos == tx.sentPos - QueueLen(tx.queue)
    requires f.seg.seqNum == tx.queue[0].seqNum && f.seg.flags == tx.queue[0].flags && f.seg.payload == tx.queue[0].data
    ensures FrameOk(f, tx.iss, tx.written, tx.sentPos)
  {
    hide Wrap;
  }

  lemma PositionOf(first: int, lo: int, hi: int)
    requires 0 <= hi - lo < MOD
    ensures Wrap(Wrap(first + hi) - Wrap(first + lo)) == hi - lo
  {
    WrapSub(first + hi, first + lo);
  }

  /** Draining: exactly the segments that end at or before the acknowledged position leave. */
  lemma {:induction false} DrainKeeps(queue: seq<Sent>, first: int, written: seq<byte>, lo: int, hi: int, p: int,
                                      a: int)
    requires Covers(queue, first, written, lo, hi)
    requires p <= a <= hi && hi - p <= 65535
    requires if queue == [] then a == hi else lo <= a && p < lo + |queue[0].data|
    ensures var q := Drain(queue, Wrap(first + a)); var l := hi - QueueLen(q);
      && Covers(q, first, written, l, hi)
      && (if q == [] then a == hi else l <= a < l + |q[0].data|)
      && QueueLen(q) <= QueueLen(queue)
      && (forall s :: s in q ==> s in queue)
  {
    hide Wrap, LE;
    CoversBytes(queue, first, written, lo, hi);
    if queue != [] {
      var end := lo + |queue[0].data|;
      WrapSub(first + lo, |queue[0].data|);
      OrderAgrees(first + end, first + a);
      if end <= a {
        DrainKeeps(queue[1..], first, written, end, hi, p, a);
      }
    }
  }

  /** An ACK number stands for position a; the code moves SND.UNA there when a
      lies in (UNA, NXT], and nowhere on any other of the 2^32 numbers. */
  lemma AckRange(tx: Tx, ack: u32)
    requires Near(tx)
    ensures var x := Wrap(ack - tx.una);
      (!GT(ack, tx.nxt) && GT(ack, tx.una)) <==> 0 < x <= tx.sentPos - tx.ackedPos
    ensures ack == Wrap(tx.iss + 1 + tx.ackedPos + Wrap(ack - tx.una))
  {
    AckArithmetic(tx.iss + 1 + tx.ackedPos, tx.sentPos - tx.ackedPos, ack);
  }

  lemma AckArithmetic(u: int, d: int, ack: u32)
    requires 0 <= d <= 65536
    ensures var x := Wrap(ack - Wrap(u));
      (!GT(ack, Wrap(u + d)) && GT(ack, Wrap(u)) <==> 0 < x <= d) && ack == Wrap(u + x)
  {
    var x := Wrap(ack - Wrap(u));
    AckPosition(u, ack);
    WrapSub(u + x, u + d);
    DistanceBehind(x, d);
  }

  lemma AckPosition(u: int, ack: u32)
    ensures ack == Wrap(u + Wrap(ack - Wrap(u)))
  {
    assert u - Wrap(u) == u / MOD * MOD;
    WrapDistance(ack);
    WrapPeriod(ack, u / MOD);
    WrapSub(ack - Wrap(u), u);
    hide Wrap;
  }

  lemma DistanceBehind(x: u32, d: int)
    requires 0 <= d <= 65536
    ensures Signed(Wrap(x - d)) <= 0 && Signed(x) > 0 <==> 0 < x <= d
  {
    if x < d { WrapPeriod(x - d, 1); }
  }

  lemma TakeAckKeeps(tx: Tx, seg: Segment)
    requires SendInv(tx) && !GT(seg.ackNum, tx.nxt) && GT(seg.ackNum, tx.una)
    ensures var t := TakeAck(tx, seg);
      && SendInv(t) && tx.ackedPos < t.ackedPos && QueueLen(t.queue) <= QueueLen(tx.queue)
      && t.sentPos == tx.sentPos && t.iss == tx.iss && t.written == tx.written && t.log == tx.log
  {
    hide LT, LE, GT, Covers, Wrap;
    AckRange(tx, seg.ackNum);
    var a := tx.ackedPos + Wrap(seg.ackNum - tx.una);
    assert seg.ackNum == Wrap(tx.iss + 1 + a);
    DrainKeeps(tx.queue, tx.iss + 1, tx.written, tx.sentPos - QueueLen(tx.queue), tx.sentPos, tx.ackedPos, a);
  }

  /** A bare ACK carries no data and stands at SND.NXT. */
  lemma BareAckOk(tx: Tx, st: Stamp)
    requires SendInv(tx)
    ensures var t := Emit(tx, st, ACK, [], tx.nxt, []);
      SendInv(t) && Stamped(tx.log, t.log, st) && NewFramesOk(tx.log, t)
  {
    assert tx.written[tx.sentPos..tx.sentPos] == [];
  }

  lemma ProcessAckKeeps(tx: Tx, st: Stamp, seg: Segment)
    requires SendInv(tx)
    ensures var t := ProcessAck(tx, st, seg).0;
      && SendInv(t) && Stamped(tx.log, t.log, st) && NewFramesOk(tx.log, t)
      && t.iss == tx.iss && t.written == tx.written && tx.ackedPos <= t.ackedPos && tx.sentPos <= t.sentPos
  {
    if Has(seg.flags, ACK) && !GT(seg.ackNum, tx.nxt) && GT(seg.ackNum, tx.una) {
      TakeAckKeeps(tx, seg);
      PumpKeeps(TakeAck(tx, seg), st);
    }
    BareAckOk(tx, st);
  }

  /** An ACK number x ahead of SND.UNA moves UNA by x when x is in flight, else not at all. */
  lemma AckEffect(tx: Tx, st: Stamp, seg: Segment)
    requires Near(tx)
    ensures var x := Wrap(seg.ackNum - tx.una);
      ProcessAck(tx, st, seg).0.ackedPos
        == tx.ackedPos + if Has(seg.flags, ACK) && 0 < x <= tx.sentPos - tx.ackedPos then x else 0
  {
    hide LT, LE, Covers;
    AckRange(tx, seg.ackNum);
    PumpAcked(TakeAck(tx, seg), st);
  }

  /** The outcome of an ACK for position a, less than half a lap away: ahead of SND.NXT it
      draws a bare ACK and the segment is dropped, in (UNA, NXT] it moves UNA to a,
      and otherwise it changes nothing. */
  lemma AckOutcomes(tx: Tx, st: Stamp, seg: Segment, a: int)
    requires Near(tx) && seg.ackNum == Wrap(tx.iss + 1 + a) && a - tx.ackedPos < HALF && tx.sentPos - a < HALF
    ensures var (t, ok) := ProcessAck(tx, st, seg);
      if !Has(seg.flags, ACK) then !ok && t == tx
      else if a > tx.sentPos then
        !ok && t == tx.(log := tx.log
          + [Frame(Segment(tx.nxt, st.ackNum, ACK, st.window, [], []), tx.sentPos, st.ackPos)])
      else if a > tx.ackedPos then ok && t.una == seg.ackNum && t.ackedPos == a
      else ok && t == tx
  {
    AckPlaces(tx, seg.ackNum, a);
    hide Wrap, LT, LE, GT, Drain, CanSend, Has, PumpLoop, Near;
    ProcessAckCases(tx, st, seg);
    PumpAcked(TakeAck(tx, seg), st);
    hide ProcessAck;
  }

  lemma AckPlaces(tx: Tx, ack: u32, a: int)
    requires Near(tx) && ack == Wrap(tx.iss + 1 + a) && a - tx.ackedPos < HALF && tx.sentPos - a < HALF
    ensures GT(ack, tx.nxt) <==> a > tx.sentPos
    ensures GT(ack, tx.una) <==> a > tx.ackedPos
    ensures a > tx.ackedPos ==> Wrap(ack - tx.una) == a - tx.ackedPos
    ensures Wrap(tx.nxt - tx.nxt) == 0
  {
    OrderAgrees(tx.iss + 1 + a, tx.iss + 1 + tx.sentPos);
    OrderAgrees(tx.iss + 1 + a, tx.iss + 1 + tx.ackedPos);
    WrapDistance(0);
    hide Wrap, GT;
    if tx.ackedPos < a {
      NumberDistance(tx.iss + 1 + a, tx.iss + 1 + tx.ackedPos);
    }
  }

  lemma {:induction false} PumpAcked(tx: Tx, st: Stamp)
    ensures PumpLoop(tx, st).ackedPos == tx.ackedPos && PumpLoop(tx, st).una == tx.una
    decreases |tx.unsent|
  {
    if CanSend(tx) {
      PumpAcked(SendChunk(tx, st), st);
    }
  }

  // ----- stale acknowledgments -------------------------------------------

  lemma AckDistance(tx: Tx, ack: u32, a: int)
    requires Near(tx) && tx.ackedPos - MOD < a <= tx.sentPos && ack == Wrap(tx.iss + 1 + a)
    ensures Wrap(ack - tx.una) == if a < tx.ackedPos then a - tx.ackedPos + MOD else a - tx.ackedPos
  {
    hide Wrap;
    NumberDistance(tx.iss + 1 + a, tx.iss + 1 + tx.ackedPos);
  }

  lemma NumberDistance(a: int, b: int)
    requires b - MOD < a < b + MOD
    ensures Wrap(Wrap(a) - Wrap(b)) == if a < b then a - b + MOD else a - b
  {
    WrapSub(a, b);
    WrapPeriod(a - b, 1);
    WrapDistance(if a < b then a - b + MOD else a - b);
    hide Wrap;
  }

  /** A fresh ACK for position a moves UNA to a, or nowhere. */
  lemma FreshAck(tx: Tx, st: Stamp, seg: Segment, a: int)
    requires Near(tx) && 0 <= a <= tx.sentPos < a + MOD && seg.ackNum == Wrap(tx.iss + 1 + a)
    ensures ProcessAck(tx, st, seg).0.ackedPos == tx.ackedPos || ProcessAck(tx, st, seg).0.ackedPos == a
  {
    hide ProcessAck, Wrap;
    AckEffect(tx, st, seg);
    AckDistance(tx, seg.ackNum, a);
  }

  /** The bound is exact: an ACK behind UNA by less than a lap is harmless if
      and only if the stream has not come within reach of the next lap. */
  lemma StaleAckIff(tx: Tx, st: Stamp, seg: Segment, a: int)
    requires Near(tx) && tx.ackedPos - MOD < a < tx.ackedPos && seg.ackNum == Wrap(tx.iss + 1 + a)
    requires Has(seg.flags, ACK)
    ensures ProcessAck(tx, st, seg).0.ackedPos == tx.ackedPos <==> tx.sentPos < a + MOD
  {
    hide ProcessAck, Wrap;
    AckEffect(tx, st, seg);
    AckDistance(tx, seg.ackNum, a);
  }
}
