/** The connection object of tcp/connection.go, with the receive path of
    tcp/stack.go as methods. Every method is one lock-held step; its contract
    says that the whole new state is the function of TcpModel for that step. */
module TcpConnections {
  import opened Seq32
  import opened Wrappers
  import TcpOptions
  import M = TcpModel

  /** What left through the socket, a use of a nil timer, and stream positions. */
  datatype SendHistory = SendHistory(
    log: seq<M.Frame>, panicked: bool, written: seq<byte>, pos: int, ackedPos: int, expiries: nat, finPos: Option<int>)

  /** A use of a closed channel, and what the receive half took and returned. */
  datatype ReceiveHistory = ReceiveHistory(
    panicked: bool, irs: u32, delivered: seq<byte>, returned: seq<byte>, fins: nat)

  class TcpConnection {
    var state: M.State
    const iss: u32
    var sendSeqNum: u32
    var sendUnacked: u32
    var sendWindow: u16
    var wl1: u32
    var wl2: u32
    var recvSeqNum: u32
    const recvWindow: u16
    var recvBuffer: seq<byte>
    const mss: u16
    var sendUnsent: seq<byte>
    var sendQueue: seq<M.Sent>
    var rto: nat
    var rtoTimer: Option<nat>  // None is nil, else the duration last scheduled
    var readCh: seq<seq<byte>>
    var readChClosed: bool
    var overflow: seq<byte>
    var registered: bool       // the stack's connection map holds this
    var accepted: nat          // pushes on the listener's accept channel
    var cleanups: nat          // sleeping timeWaitCleanup goroutines

    ghost var sent: SendHistory
    ghost var got: ReceiveHistory

    ghost function Tx(): M.Tx
      reads `sendSeqNum, `sendUnacked, `sendWindow, `wl1, `wl2, `sendUnsent, `sendQueue, `rto, `rtoTimer, `sent
    {
      M.Tx(iss, sendSeqNum, sendUnacked, sendWindow, wl1, wl2, mss, sendUnsent, sendQueue, rto, rtoTimer,
           sent.panicked, sent.log, sent.written, sent.pos, sent.ackedPos, sent.expiries, sent.finPos)
    }

    ghost function Rx(): M.Rx
      reads `recvSeqNum, `recvBuffer, `readCh, `readChClosed, `overflow, `got
    {
      M.Rx(recvSeqNum, recvWindow, recvBuffer, readCh, readChClosed, overflow,
           got.panicked, got.irs, got.delivered, got.returned, got.fins)
    }

    ghost function Snapshot(): M.Conn
      reads this
    {
      M.Conn(state, Tx(), Rx(), registered, accepted, cleanups)
    }

    ghost function Stamp(): M.Stamp
      reads `recvSeqNum, `recvBuffer, `readCh, `readChClosed, `overflow, `got
    {
      M.StampOf(Rx())
    }

    /** A SYN arrived: negotiate the MSS, answer with SYN+ACK. */
    constructor HandleSyn(isn: u32, syn: M.Segment)
      ensures Snapshot() == M.HandleSyn(isn, syn)
    {
      hide Wrap, TcpOptions.ParseMss, TcpOptions.BuildMss;
      var peerMss: u16 := M.DEFAULT_MSS;
      var peer := TcpOptions.ParseMssOption(syn.options);
      if peer.Some? {
        peerMss := peer.value;
      }
      var effectiveMss := peerMss;
      if M.OUR_MSS < effectiveMss {
        effectiveMss := M.OUR_MSS;
      }
      state := M.SynReceived;
      iss, sendSeqNum, sendUnacked := isn, isn, isn;
      recvSeqNum, recvWindow, recvBuffer := Wrap(syn.seqNum + 1), M.DEFAULT_WINDOW, [];
      sendWindow, wl1, wl2, mss := syn.window, syn.seqNum, syn.ackNum, effectiveMss;
      sendUnsent, sendQueue, rto, rtoTimer := [], [], 0, None;
      readCh, readChClosed, overflow := [], false, [];
      registered, accepted, cleanups := true, 0, 0;
      sent, got := SendHistory([], false, [], -1, -1, 0, None), ReceiveHistory(false, syn.seqNum, [], [], 0);
      new;
      assert Snapshot() == M.NewConn(isn, syn) && sendSeqNum == isn;
      hide M.NewConn, M.Emit, Tx, Rx, Stamp;
      SendSegmentAt(M.SYN_ACK, [], sendSeqNum, TcpOptions.BuildMss(M.OUR_MSS));
      AdvanceNxt(1);
    }

    /** The packet goes to the socket. */
    method SendSegmentAt(flags: byte, payload: seq<byte>, seqNum: u32, options: seq<byte>)
      modifies `sent
      ensures Tx() == M.Emit(old(Tx()), Stamp(), flags, payload, seqNum, options)
    {
      sent := sent.(log := sent.log + [
        M.Frame(M.Segment(seqNum, recvSeqNum, flags, recvWindow, options, payload),
                sent.pos - Wrap(sendSeqNum - seqNum), |got.delivered| + got.fins)]);
    }

    method StartRtoIfIdleLocked()
      modifies `rto, `rtoTimer
      ensures Tx() == M.StartRtoIfIdle(old(Tx()))
    {
      if rtoTimer.Some? {
        return;
      }
      if rto == 0 {
        rto := M.INITIAL_RTO;
      }
      rtoTimer := Some(rto);
    }

    method RestartRtoLocked()
      modifies `rto, `rtoTimer
      ensures Tx() == M.RestartRto(old(Tx()))
    {
      if rto == 0 {
        rto := M.INITIAL_RTO;
      }
      rtoTimer := Some(rto);
    }

    method StopRtoLocked()
      modifies `rto, `rtoTimer, `sent
      ensures Tx() == M.StopRto(old(Tx()))
    {
      if rtoTimer.Some? {
        rtoTimer := None;
      }
      rto := M.INITIAL_RTO;
      sent := sent.(expiries := 0);
    }

    method CloseReadChLocked()
      modifies `readChClosed
      ensures Rx() == M.CloseReadCh(old(Rx()))
    {
      if readChClosed {
        return;
      }
      readChClosed := true;
    }

    /** SND.NXT moves past n sequence numbers. */
    method AdvanceNxt(n: nat)
      modifies `sendSeqNum, `sent
      ensures Tx() == M.AdvanceNxt(old(Tx()), n)
    {
      hide Wrap;
      sendSeqNum, sent := Wrap(sendSeqNum + n), sent.(pos := sent.pos + n);
    }

    /** The next chunk leaves sendUnsent for the retransmission queue. */
    method QueueChunk(chunkSize: nat) returns (s: M.Sent)
      requires chunkSize <= |sendUnsent|
      modifies `sendUnsent, `sendQueue
      ensures s == M.NextChunk(old(Tx()), chunkSize)
      ensures Tx() == old(Tx()).(unsent := old(sendUnsent)[chunkSize..], queue := old(sendQueue) + [s])
    {
      var chunk := sendUnsent[..chunkSize];
      sendUnsent := sendUnsent[chunkSize..];
      var flags: byte := M.ACK;
      if |sendUnsent| == 0 {
        flags := M.PSH_ACK;
      }
      s := M.Sent(sendSeqNum, chunk, flags);
      sendQueue := sendQueue + [s];
    }

    /** The body of the pump's loop once the chunk size is known. */
    method SendChunkLocked(chunkSize: nat)
      requires M.CanSend(Tx()) && chunkSize == M.ChunkSize(Tx())
      modifies `sendUnsent, `sendQueue, `sendSeqNum, `sent
      ensures Tx() == M.SendChunk(old(Tx()), Stamp())
    {
      assert sendUnsent == Tx().unsent && sendQueue == Tx().queue;
      hide Wrap, M.ChunkSize, M.CanSend, M.Emit, M.AdvanceNxt, Tx, Stamp;
      var s := QueueChunk(chunkSize);
      SendSegmentAt(s.flags, s.data, s.seqNum, []);
      AdvanceNxt(chunkSize);
    }

    /** The size of the next chunk, 0 where the pump stops. */
    method NextChunkSize() returns (chunkSize: nat)
      ensures chunkSize == if M.CanSend(Tx()) then M.ChunkSize(Tx()) else 0
    {
      hide Wrap;
      var effective := mss;
      if effective == 0 {
        effective := M.DEFAULT_MSS;
      }
      var inFlight := Wrap(sendSeqNum - sendUnacked);
      if |sendUnsent| == 0 || inFlight >= sendWindow {
        return 0;
      }
      var avail := sendWindow - inFlight;
      chunkSize := effective;
      if chunkSize > avail {
        chunkSize := avail;
      }
      if chunkSize > |sendUnsent| {
        chunkSize := |sendUnsent|;
      }
    }

    method PumpSendLocked()
      modifies `sendUnsent, `sendQueue, `sendSeqNum, `rto, `rtoTimer, `sent
      ensures Tx() == M.Pump(old(Tx()), old(Stamp()))
    {
      hide Wrap, M.PumpLoop, M.InFlight, M.StartRtoIfIdle, M.SendChunk, Stamp;
      ghost var tx0, st := Tx(), Stamp();
      var sentAny := false;
      while |sendUnsent| > 0
        invariant M.PumpLoop(Tx(), st) == M.PumpLoop(tx0, st)
        invariant if sentAny then M.CanSend(tx0) else Tx() == tx0
        invariant Stamp() == st
        decreases |sendUnsent|
      {
        M.PumpLoopStep(Tx(), st);
        var chunkSize := NextChunkSize();
        if chunkSize == 0 {
          break;
        }
        SendChunkLocked(chunkSize);
        sentAny := true;
      }
      M.PumpLoopStep(Tx(), st);
      if sentAny {
        StartRtoIfIdleLocked();
      }
    }

    method Write(data: seq<byte>) returns (n: nat)
      modifies `sendUnsent, `sendQueue, `sendSeqNum, `rto, `rtoTimer, `sent
      ensures n == |data| && Tx() == M.Write(old(Tx()), old(Stamp()), data)
    {
      sendUnsent, sent := sendUnsent + data, sent.(written := sent.written + data);
      PumpSendLocked();
      n := |data|;
    }

    /** The timer goroutine; a stale firing may find any state. */
    method OnRto()
      modifies `rto, `rtoTimer, `sent
      ensures Tx() == M.OnRto(old(Tx()), old(Stamp()))
    {
      if |sendQueue| == 0 {
        return;
      }
      sent := sent.(expiries := sent.expiries + 1);
      rto := rto * 2;
      if rto > M.MAX_RTO {
        rto := M.MAX_RTO;
      }
      var head := sendQueue[0];
      SendSegmentAt(head.flags, head.data, head.seqNum, []);
      if rtoTimer.None? {
        sent := sent.(panicked := true);
        return;
      }
      rtoTimer := Some(rto);
    }

    method AdvanceUna(ack: u32)
      modifies `sendUnacked, `sent
      ensures Tx() == M.AdvanceUna(old(Tx()), ack)
    {
      sent := sent.(ackedPos := sent.ackedPos + Wrap(ack - sendUnacked));
      sendUnacked := ack;
    }

    /** Drain the queue, manage the timer, update the window. */
    method TakeAck(seg: M.Segment)
      modifies `sendQueue, `sendUnacked, `sendWindow, `wl1, `wl2, `rto, `rtoTimer, `sent
      ensures Tx() == M.TakeAck(old(Tx()), seg)
    {
      hide Wrap, LT, LE;
      ghost var queue := sendQueue;
      AdvanceUna(seg.ackNum);
      while |sendQueue| > 0
        modifies `sendQueue
        invariant M.Drain(sendQueue, seg.ackNum) == M.Drain(queue, seg.ackNum)
        decreases |sendQueue|
      {
        var head := sendQueue[0];
        var endSeq := Wrap(head.seqNum + |head.data|);
        if LE(endSeq, seg.ackNum) {
          sendQueue := sendQueue[1..];
        } else {
          break;
        }
      }
      if |sendQueue| == 0 {
        StopRtoLocked();
      } else {
        RestartRtoLocked();
      }
      if LT(wl1, seg.seqNum) || (wl1 == seg.seqNum && LE(wl2, seg.ackNum)) {
        sendWindow, wl1, wl2 := seg.window, seg.seqNum, seg.ackNum;
      }
    }

    method ProcessAck(seg: M.Segment) returns (ok: bool)
      modifies `sendUnsent, `sendQueue, `sendSeqNum, `sendUnacked, `sendWindow, `wl1, `wl2,
               `rto, `rtoTimer, `sent
      ensures (Tx(), ok) == M.ProcessAck(old(Tx()), old(Stamp()), seg)
    {
      assert sendSeqNum == Tx().nxt && sendUnacked == Tx().una;
      M.ProcessAckCases(Tx(), Stamp(), seg);
      hide *;
      if !M.Has(seg.flags, M.ACK) {
        return false;
      }
      if GT(seg.ackNum, sendSeqNum) {
        SendSegmentAt(M.ACK, [], sendSeqNum, []);
        return false;
      }
      if GT(seg.ackNum, sendUnacked) {
        TakeAck(seg);
        PumpSendLocked();
      }
      ok := true;
    }

    method DropSendStateLocked()
      modifies `rto, `rtoTimer, `sent, `sendQueue, `sendUnsent
      ensures Tx() == M.DropSendState(old(Tx()))
    {
      StopRtoLocked();
      sendQueue, sendUnsent := [], [];
    }

    method AbortConnection()
      modifies `state, `rto, `rtoTimer, `sent, `sendQueue, `sendUnsent, `readChClosed, `registered
      ensures Snapshot() == M.Abort(old(Snapshot()))
    {
      hide M.DropSendState;
      if state.Closed? {
        return;
      }
      state := M.Closed;
      CloseReadChLocked();
      RemoveConnection();
    }

    method RemoveConnection()
      modifies `rto, `rtoTimer, `sent, `sendQueue, `sendUnsent, `registered
      ensures Snapshot() == M.Remove(old(Snapshot()))
    {
      DropSendStateLocked();
      registered := false;
    }

    method TimeWaitCleanup()
      requires cleanups > 0
      modifies this
      ensures Snapshot() == M.TimeWaitExpired(old(Snapshot()))
    {
      cleanups := cleanups - 1;
      state := M.Closed;
      RemoveConnection();
    }

    /** The part of the ESTABLISHED case after a segment's ACK was accepted. */
    method ReceivePayload(seg: M.Segment)
      modifies `recvBuffer, `recvSeqNum, `readCh, `got, `sent
      ensures Snapshot() == M.ReceivePayload(old(Snapshot()), seg)
    {
      hide Wrap;
      if |seg.payload| > 0 && seg.seqNum == recvSeqNum {
        recvBuffer := recvBuffer + seg.payload;
        recvSeqNum := Wrap(recvSeqNum + |seg.payload|);
        got := got.(delivered := got.delivered + seg.payload);
        SendSegmentAt(M.ACK, [], sendSeqNum, []);
        PushReceived();
      }
    }

    /** The receive buffer goes to the channel as one chunk. */
    method PushReceived()
      modifies `recvBuffer, `readCh, `got
      ensures recvBuffer == []
      ensures readCh == old(if readChClosed then readCh else readCh + [recvBuffer])
      ensures got == old(got).(panicked := old(got).panicked || readChClosed)
    {
      var data := recvBuffer;
      recvBuffer := [];
      if readChClosed {
        got := got.(panicked := true);
      } else {
        readCh := readCh + [data];
      }
    }

    /** RCV.NXT passes the FIN, and an ACK says so. */
    method TakeFin()
      modifies `recvSeqNum, `got, `sent
      ensures Snapshot() == M.EmitAck(old(Snapshot()).(rx := M.TakeFin(old(Rx()))))
    {
      hide Wrap, M.Emit;
      recvSeqNum, got := Wrap(recvSeqNum + 1), got.(fins := got.fins + 1);
      SendSegmentAt(M.ACK, [], sendSeqNum, []);
    }

    method HandleEstablished(seg: M.Segment)
      modifies this
      ensures Snapshot() == M.HandleEstablished(old(Snapshot()), seg)
    {
      hide Wrap, Tx, Rx, M.ProcessAck, M.ReceivePayload, M.Emit, M.StampOf, M.TakeFin;
      var ok := ProcessAck(seg);
      if !ok {
        return;
      }
      ReceivePayload(seg);
      if M.Has(seg.flags, M.FIN) {
        state := M.CloseWait;
        TakeFin();
        CloseReadChLocked();
      }
    }

    method HandleFinWait1(seg: M.Segment)
      modifies this
      ensures Snapshot() == M.HandleFinWait1(old(Snapshot()), seg)
    {
      hide Wrap, Tx, Rx, M.ProcessAck, M.Emit, M.StampOf, M.TakeFin;
      var ok := ProcessAck(seg);
      if !ok {
        return;
      }
      if M.Has(seg.flags, M.FIN) {
        TakeFin();
        if M.Has(seg.flags, M.ACK) {
          EnterTimeWait();
        } else {
          state := M.Closing;
        }
      } else if M.Has(seg.flags, M.ACK) {
        state := M.FinWait2;
      }
    }

    method EnterTimeWait()
      modifies `state, `cleanups
      ensures Snapshot() == M.EnterTimeWait(old(Snapshot()))
    {
      state := M.TimeWait;
      cleanups := cleanups + 1;
    }

    method TakeWindow(window: u16)
      modifies `sendWindow
      ensures Tx() == old(Tx()).(wnd := window)
    {
      sendWindow := window;
    }

    method Establish(seg: M.Segment)
      modifies `state, `sendUnacked, `sendWindow, `accepted, `sent
      ensures Snapshot() == M.Establish(old(Snapshot()), seg)
    {
      hide Wrap, Tx, Rx, M.AdvanceUna;
      state := M.Established;
      AdvanceUna(seg.ackNum);
      TakeWindow(seg.window);
      accepted := accepted + 1;
    }

    method HandleSegment(seg: M.Segment)
      modifies this
      ensures Snapshot() == M.HandleSegment(old(Snapshot()), seg)
    {
      assert recvSeqNum == Rx().rcvNxt;
      hide Wrap, Tx, Rx, M.EnterTimeWait, M.HandleEstablished, M.HandleFinWait1, M.Establish, M.Abort,
        M.Emit, M.StampOf, M.TakeFin, M.DropSendState;
      if M.Has(seg.flags, M.RST) {
        if seg.seqNum == recvSeqNum {
          AbortConnection();
        }
        return;
      }
      match state {
        case SynReceived =>
          if !M.Has(seg.flags, M.ACK) {
            return;
          }
          Establish(seg);
          HandleEstablished(seg);
        case Established =>
          HandleEstablished(seg);
        case FinWait1 =>
          HandleFinWait1(seg);
        case FinWait2 =>
          if M.Has(seg.flags, M.FIN) {
            TakeFin();
            EnterTimeWait();
          }
        case Closing =>
          if M.Has(seg.flags, M.ACK) {
            EnterTimeWait();
          }
        case LastAck =>
          if M.Has(seg.flags, M.ACK) {
            state := M.Closed;
            RemoveConnection();
          }
        case _ =>
      }
    }

    /** Blocked stands for a receive from an empty open channel. */
    method Read(n: nat) returns (r: M.ReadResult)
      modifies `readCh, `overflow, `got
      ensures (Rx(), r) == M.Read(old(Rx()), n)
    {
      if |overflow| > 0 {
        var k := M.Min(n, |overflow|);
        r := M.Data(overflow[..k]);
        overflow := overflow[k..];
      } else if |readCh| > 0 {
        var data := readCh[0];
        readCh := readCh[1..];
        var k := M.Min(n, |data|);
        r := M.Data(data[..k]);
        if k < |data| {
          overflow := data[k..];
        }
      } else if readChClosed {
        return M.Eof;
      } else {
        return M.Blocked;
      }
      got := got.(returned := got.returned + r.data);
    }

    method Close()
      modifies this
      ensures Snapshot() == M.Close(old(Snapshot()))
    {
      hide Wrap;
      ghost var first := if sent.finPos.None? then Some(sent.pos) else sent.finPos;
      SendSegmentAt(M.FIN_ACK, [], sendSeqNum, []);
      AdvanceNxt(1);
      sent := sent.(finPos := first);
      if state.Established? {
        state := M.FinWait1;
      } else if state.CloseWait? {
        state := M.LastAck;
      }
    }
  }
}
