/** The connection engine as functions on values: one function for every
    lock-held step of tcp/connection.go and tcp/stack.go. Next to the 32-bit
    fields a connection carries history: the unbounded stream positions that
    the fields stand for, and the bytes that went in and out. No branch of a
    step reads history. Position 0 is the first byte after the SYN. */
module TcpModel {
  import opened Seq32
  import opened Wrappers
  import opened TcpOptions

  const FIN: byte := 0x01
  const SYN: byte := 0x02
  const RST: byte := 0x04
  const PSH: byte := 0x08
  const ACK: byte := 0x10
  const PSH_ACK: byte := PSH + ACK
  const SYN_ACK: byte := SYN + ACK
  const FIN_ACK: byte := FIN + ACK

  const DEFAULT_WINDOW: u16 := 65535
  const DEFAULT_MSS: u16 := 536
  const OUR_MSS: u16 := 1460

  const SECOND: nat := 1_000_000_000
  const INITIAL_RTO: nat := 1 * SECOND
  const MAX_RTO: nat := 60 * SECOND

  predicate Has(flags: byte, flag: byte)
    requires flag > 0
  {
    flags / flag % 2 == 1
  }

  datatype State =
    | Closed | Listen | SynSent | SynReceived | Established | FinWait1
    | FinWait2 | Closing | TimeWait | CloseWait | LastAck

  /** What the receive path reads of a TCP segment. */
  datatype Segment = Segment(seqNum: u32, ackNum: u32, flags: byte, window: u16, options: seq<byte>, payload: seq<byte>)

  /** A segment handed to the socket, with the positions its numbers stand for. */
  datatype Frame = Frame(seg: Segment, pos: int, ackPos: int)

  /** A segment kept for retransmission. */
  datatype Sent = Sent(seqNum: u32, data: seq<byte>, flags: byte)

  /** The send half. `timer` is None for a nil rtoTimer, else the duration it
      was last scheduled with; `panicked` records a use of a nil timer. */
  datatype Tx = Tx(
    iss: u32, nxt: u32, una: u32, wnd: u16, wl1: u32, wl2: u32, mss: u16,
    unsent: seq<byte>, queue: seq<Sent>, rto: nat, timer: Option<nat>, panicked: bool, log: seq<Frame>,
    // history
    written: seq<byte>, sentPos: int, ackedPos: int, expiries: nat, finPos: Option<int>)

  /** The receive half. `panicked` records a send on, or a close of, a closed channel. */
  datatype Rx = Rx(
    rcvNxt: u32, rcvWnd: u16, recvBuffer: seq<byte>, readCh: seq<seq<byte>>, readChClosed: bool,
    overflow: seq<byte>, panicked: bool,
    // history
    irs: u32, delivered: seq<byte>, returned: seq<byte>, fins: nat)

  /** `registered`: the stack's connection map holds the connection; `accepted`:
      how often it was handed to the listener; `cleanups`: pending TIME_WAIT timers. */
  datatype Conn = Conn(state: State, tx: Tx, rx: Rx, registered: bool, accepted: nat, cleanups: nat)

  /** What the receive half stamps on every outgoing segment. */
  datatype Stamp = Stamp(ackNum: u32, window: u16, ackPos: int)

  function StampOf(rx: Rx): Stamp {
    Stamp(rx.rcvNxt, rx.rcvWnd, |rx.delivered| + rx.fins)
  }

  // ----- sending ---------------------------------------------------------

  function Emit(tx: Tx, st: Stamp, flags: byte, payload: seq<byte>, seqNum: u32, options: seq<byte>): Tx {
    tx.(log := tx.log + [Frame(Segment(seqNum, st.ackNum, flags, st.window, options, payload),
                               tx.sentPos - Wrap(tx.nxt - seqNum), st.ackPos)])
  }

  function StartRtoIfIdle(tx: Tx): Tx {
    if tx.timer.Some? then tx else
    var rto := if tx.rto == 0 then INITIAL_RTO else tx.rto;
    tx.(rto := rto, timer := Some(rto))
  }

  function RestartRto(tx: Tx): Tx {
    var rto := if tx.rto == 0 then INITIAL_RTO else tx.rto;
    tx.(rto := rto, timer := Some(rto))
  }

  function StopRto(tx: Tx): Tx {
    tx.(rto := INITIAL_RTO, timer := None, expiries := 0)
  }

  function EffectiveMss(tx: Tx): u16 {
    if tx.mss == 0 then DEFAULT_MSS else tx.mss
  }

  function InFlight(tx: Tx): u32 {
    Wrap(tx.nxt - tx.una)
  }

  predicate CanSend(tx: Tx) {
    |tx.unsent| > 0 && InFlight(tx) < tx.wnd
  }

  function Min(a: int, b: int): int {
    if a <= b then a else b
  }

  function ChunkSize(tx: Tx): (n: nat)
    requires CanSend(tx)
    ensures 0 < n <= |tx.unsent|
  {
    Min(Min(EffectiveMss(tx), tx.wnd - InFlight(tx)), |tx.unsent|)
  }

  function NextChunk(tx: Tx, n: nat): Sent
    requires n <= |tx.unsent|
  {
    Sent(tx.nxt, tx.unsent[..n], if tx.unsent[n..] == [] then PSH_ACK else ACK)
  }

  function AdvanceNxt(tx: Tx, n: nat): Tx {
    tx.(nxt := Wrap(tx.nxt + n), sentPos := tx.sentPos + n)
  }

  /** One round of the pump: the next chunk goes to the queue and the wire. */
  function SendChunk(tx: Tx, st: Stamp): (tx1: Tx)
    requires CanSend(tx)
    ensures |tx1.unsent| < |tx.unsent|
  {
    var n := ChunkSize(tx);
    var s := NextChunk(tx, n);
    AdvanceNxt(Emit(tx.(unsent := tx.unsent[n..], queue := tx.queue + [s]), st, s.flags, s.data, s.seqNum, []), n)
  }

  function PumpLoop(tx: Tx, st: Stamp): Tx
    decreases |tx.unsent|
  {
    if CanSend(tx) then PumpLoop(SendChunk(tx, st), st) else tx
  }

  lemma PumpLoopStep(tx: Tx, st: Stamp)
    ensures PumpLoop(tx, st) == if CanSend(tx) then PumpLoop(SendChunk(tx, st), st) else tx
  {
  }

  function Pump(tx: Tx, st: Stamp): Tx {
    if CanSend(tx) then StartRtoIfIdle(PumpLoop(tx, st)) else tx
  }

  function Write(tx: Tx, st: Stamp, data: seq<byte>): Tx {
    Pump(tx.(unsent := tx.unsent + data, written := tx.written + data), st)
  }

  function OnRto(tx: Tx, st: Stamp): Tx {
    if tx.queue == [] then tx else
    var rto := Min(tx.rto * 2, MAX_RTO);
    var head := tx.queue[0];
    var tx1 := Emit(tx.(rto := rto, expiries := tx.expiries + 1), st, head.flags, head.data, head.seqNum, []);
    if tx.timer.None? then tx1.(panicked := true) else tx1.(timer := Some(rto))
  }

  // ----- acknowledgments -------------------------------------------------

  predicate HeadAcked(queue: seq<Sent>, ack: u32) {
    queue != [] && LE(Wrap(queue[0].seqNum + |queue[0].data|), ack)
  }

  function Drain(queue: seq<Sent>, ack: u32): seq<Sent> {
    if HeadAcked(queue, ack) then Drain(queue[1..], ack) else queue
  }

  function AdvanceUna(tx: Tx, ack: u32): Tx {
    tx.(una := ack, ackedPos := tx.ackedPos + Wrap(ack - tx.una))
  }

  function UpdateWindow(tx: Tx, seg: Segment): Tx {
    if LT(tx.wl1, seg.seqNum) || (tx.wl1 == seg.seqNum && LE(tx.wl2, seg.ackNum))
    then tx.(wnd := seg.window, wl1 := seg.seqNum, wl2 := seg.ackNum)
    else tx
  }

  /** A new ACK: SND.UNA moves, acknowledged segments leave, the timer stops or restarts. */
  function TakeAck(tx: Tx, seg: Segment): Tx {
    var tx1 := AdvanceUna(tx, seg.ackNum).(queue := Drain(tx.queue, seg.ackNum));
    UpdateWindow(if tx1.queue == [] then StopRto(tx1) else RestartRto(tx1), seg)
  }

  /** The new send half, and whether the segment is processed further. */
  function ProcessAck(tx: Tx, st: Stamp, seg: Segment): (Tx, bool) {
    if !Has(seg.flags, ACK) then (tx, false)
    else if GT(seg.ackNum, tx.nxt) then (Emit(tx, st, ACK, [], tx.nxt, []), false)
    else if GT(seg.ackNum, tx.una) then (Pump(TakeAck(tx, seg), st), true)
    else (tx, true)
  }

  lemma ProcessAckCases(tx: Tx, st: Stamp, seg: Segment)
    ensures ProcessAck(tx, st, seg) ==
      if !Has(seg.flags, ACK) then (tx, false)
      else if GT(seg.ackNum, tx.nxt) then (Emit(tx, st, ACK, [], tx.nxt, []), false)
      else if GT(seg.ackNum, tx.una) then (Pump(TakeAck(tx, seg), st), true)
      else (tx, true)
  {
  }

  // ----- receiving -------------------------------------------------------

  /** close(readCh), which panics on a closed channel. */
  function CloseChannel(rx: Rx): Rx {
    rx.(panicked := rx.panicked || rx.readChClosed, readChClosed := true)
  }

  function CloseReadCh(rx: Rx): Rx {
    if rx.readChClosed then rx else CloseChannel(rx)
  }

  /** In-order payload goes through the receive buffer to the channel. */
  function TakeData(rx: Rx, payload: seq<byte>): Rx {
    var data := rx.recvBuffer + payload;
    rx.(recvBuffer := [], rcvNxt := Wrap(rx.rcvNxt + |payload|),
        readCh := if rx.readChClosed then rx.readCh else rx.readCh + [data],
        panicked := rx.panicked || rx.readChClosed,
        delivered := rx.delivered + payload)
  }

  function TakeFin(rx: Rx): Rx {
    rx.(rcvNxt := Wrap(rx.rcvNxt + 1), fins := rx.fins + 1)
  }

  /** A bare ACK at SND.NXT carrying the receive half's current numbers. */
  function EmitAck(c: Conn): Conn {
    c.(tx := Emit(c.tx, StampOf(c.rx), ACK, [], c.tx.nxt, []))
  }

  function DropSendState(tx: Tx): Tx {
    StopRto(tx).(queue := [], unsent := [])
  }

  function Abort(c: Conn): Conn {
    if c.state.Closed? then c else
    c.(state := Closed, tx := DropSendState(c.tx), rx := CloseReadCh(c.rx), registered := false)
  }

  function Remove(c: Conn): Conn {
    c.(tx := DropSendState(c.tx), registered := false)
  }

  function ReceivePayload(c: Conn, seg: Segment): Conn {
    if |seg.payload| > 0 && seg.seqNum == c.rx.rcvNxt
    then EmitAck(c.(rx := TakeData(c.rx, seg.payload)))
    else c
  }

  function ReceiveFin(c: Conn, seg: Segment): Conn {
    if !Has(seg.flags, FIN) then c else
    var c1 := EmitAck(c.(rx := TakeFin(c.rx), state := CloseWait));
    c1.(rx := CloseReadCh(c1.rx))
  }

  function HandleEstablished(c: Conn, seg: Segment): Conn {
    var (tx, ok) := ProcessAck(c.tx, StampOf(c.rx), seg);
    if ok then ReceiveFin(ReceivePayload(c.(tx := tx), seg), seg) else c.(tx := tx)
  }

  /** The third leg of the handshake: the ACK number is taken as it comes. */
  function Establish(c: Conn, seg: Segment): Conn {
    c.(state := Established, tx := AdvanceUna(c.tx, seg.ackNum).(wnd := seg.window), accepted := c.accepted + 1)
  }

  /** TIME_WAIT with its cleanup goroutine started. */
  function EnterTimeWait(c: Conn): Conn {
    c.(state := TimeWait, cleanups := c.cleanups + 1)
  }

  function HandleFinWait1(c: Conn, seg: Segment): Conn {
    var (tx, ok) := ProcessAck(c.tx, StampOf(c.rx), seg);
    var c1 := c.(tx := tx);
    if !ok then c1
    else if Has(seg.flags, FIN) then
      var c2 := EmitAck(c1.(rx := TakeFin(c1.rx)));
      if Has(seg.flags, ACK) then EnterTimeWait(c2) else c2.(state := Closing)
    else if Has(seg.flags, ACK) then c1.(state := FinWait2)
    else c1
  }

  function HandleSegment(c: Conn, seg: Segment): Conn {
    if Has(seg.flags, RST) then
      if seg.seqNum == c.rx.rcvNxt then Abort(c) else c
    else match c.state
      case SynReceived => if Has(seg.flags, ACK) then HandleEstablished(Establish(c, seg), seg) else c
      case Established => HandleEstablished(c, seg)
      case FinWait1 => HandleFinWait1(c, seg)
      case FinWait2 =>
        if Has(seg.flags, FIN) then EnterTimeWait(EmitAck(c.(rx := TakeFin(c.rx)))) else c
      case Closing => if Has(seg.flags, ACK) then EnterTimeWait(c) else c
      case LastAck => if Has(seg.flags, ACK) then Remove(c.(state := Closed)) else c
      case _ => c
  }

  // ----- application and timers ------------------------------------------

  datatype ReadResult = Data(data: seq<byte>) | Eof | Blocked

  function Read(rx: Rx, n: nat): (Rx, ReadResult) {
    if |rx.overflow| > 0 then
      var k := Min(n, |rx.overflow|);
      (rx.(overflow := rx.overflow[k..], returned := rx.returned + rx.overflow[..k]), Data(rx.overflow[..k]))
    else if rx.readCh != [] then
      var data := rx.readCh[0];
      var k := Min(n, |data|);
      (rx.(readCh := rx.readCh[1..], overflow := data[k..], returned := rx.returned + data[..k]), Data(data[..k]))
    else if rx.readChClosed then (rx, Eof)
    else (rx, Blocked)
  }

  /** The FIN at SND.NXT; `finPos` remembers where the first one stands. */
  function SendFin(tx: Tx, st: Stamp): Tx {
    AdvanceNxt(Emit(tx, st, FIN_ACK, [], tx.nxt, []), 1)
      .(finPos := if tx.finPos.None? then Some(tx.sentPos) else tx.finPos)
  }

  function Close(c: Conn): Conn {
    c.(tx := SendFin(c.tx, StampOf(c.rx)),
       state := if c.state.Established? then FinWait1 else if c.state.CloseWait? then LastAck else c.state)
  }

  function TimeWaitExpired(c: Conn): Conn
    requires c.cleanups > 0
  {
    Remove(c.(state := Closed, cleanups := c.cleanups - 1))
  }

  /** The fields of the connection that a SYN creates. */
  function NewConn(isn: u32, syn: Segment): Conn {
    var mss: u16 := match ParseMss(syn.options)
      case Some(m) => (if OUR_MSS < m then OUR_MSS else m)
      case None => DEFAULT_MSS;
    var rx := Rx(Wrap(syn.seqNum + 1), DEFAULT_WINDOW, [], [], false, [], false, syn.seqNum, [], [], 0);
    var tx := Tx(isn, isn, isn, syn.window, syn.seqNum, syn.ackNum, mss, [], [], 0, None, false, [],
                 [], -1, -1, 0, None);
    Conn(SynReceived, tx, rx, true, 0, 0)
  }

  /** The new connection with its SYN+ACK sent. */
  function HandleSyn(isn: u32, syn: Segment): Conn {
    var c := NewConn(isn, syn);
    c.(tx := AdvanceNxt(Emit(c.tx, StampOf(c.rx), SYN_ACK, [], isn, BuildMss(OUR_MSS)), 1))
  }

  // ----- runs ------------------------------------------------------------

  /** What the application, the receive loop and the timer goroutines can do. */
  datatype Event =
    | AppWrite(data: seq<byte>) | AppRead(n: nat) | AppClose
    | Arrival(seg: Segment) | RtoFired | TimeWaitFired

  /** The application holds the connection only once it was accepted. A firing
      of the retransmission timer may be stale, so it can come at any time. */
  function Step(c: Conn, e: Event): Conn {
    match e
    case AppWrite(data) => if c.accepted > 0 then c.(tx := Write(c.tx, StampOf(c.rx), data)) else c
    case AppRead(n) => if c.accepted > 0 then c.(rx := Read(c.rx, n).0) else c
    case AppClose => if c.accepted > 0 then Close(c) else c
    case Arrival(seg) => HandleSegment(c, seg)
    case RtoFired => c.(tx := OnRto(c.tx, StampOf(c.rx)))
    case TimeWaitFired => if c.cleanups > 0 then TimeWaitExpired(c) else c
  }

  function Run(c: Conn, events: seq<Event>): Conn {
    if events == [] then c else Step(Run(c, events[..|events| - 1]), events[|events| - 1])
  }
}
