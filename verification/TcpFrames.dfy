/** The packet that sendSegmentAt puts on the wire (tcp/send.go), and what the
    receiving side reads from it. */
module TcpFrames {
  import opened Seq32
  import opened Wrappers
  import opened Wire
  import opened Checksum
  import opened Packets
  import opened TcpOptions
  import F = PacketFlush
  import S = TcpMss
  import T = TcpModel

  /** The addresses of a connection, and of the frame it answers. */
  datatype Endpoint = Endpoint(
    localMac: Mac, remoteMac: Mac, localIp: Ip, remoteIp: Ip, localPort: u16, remotePort: u16)

  const IPV4: u16 := 0x0800

  /** Words of header, in the source's uint8. */
  function DataOffset(options: Bytes): byte {
    (5 + (|options| + 3) / 4) % 256
  }

  function SegmentOf(ep: Endpoint, seg: T.Segment): TcpSegment {
    TcpSegment(ep.localPort, ep.remotePort, seg.seqNum, seg.ackNum, DataOffset(seg.options), 0, seg.flags, seg.window,
      0, 0, seg.options, seg.payload)
  }

  /** The header length did not wrap below the fixed header; if it did, slicing
      the option area would panic. */
  predicate Sendable(options: Bytes) {
    DataOffset(options) >= 5
  }

  function TcpWire(ep: Endpoint, seg: T.Segment): Bytes
    requires Sendable(seg.options)
  {
    var b := TcpBytes(SegmentOf(ep, seg));
    PutU16(b, 16, TcpChecksum(ep.localIp, ep.remoteIp, b))
  }

  function PacketOf(ep: Endpoint, seg: T.Segment): IPv4Packet
    requires Sendable(seg.options)
  {
    IPv4Packet(4, 5, 0, 64, 6, 0, ep.localIp, ep.remoteIp, TcpWire(ep, seg))
  }

  function FrameOf(ep: Endpoint, seg: T.Segment): EthernetFrame
    requires Sendable(seg.options)
  {
    EthernetFrame(ep.remoteMac, ep.localMac, IPV4, IPv4Bytes(PacketOf(ep, seg)))
  }

  /** sendSegmentAt up to the system call. */
  method BuildFrame(ep: Endpoint, flags: byte, payload: Bytes, seqNum: u32, ackNum: u32, window: u16, options: Bytes)
    returns (frame: Bytes)
    requires Sendable(options)
    ensures frame == EthernetBytes(FrameOf(ep, T.Segment(seqNum, ackNum, flags, window, options, payload)))
  {
    hide TcpBytes, IPv4Bytes, EthernetBytes, TcpChecksum;
    var dataOffset: byte := (5 + (|options| + 3) / 4) % 256;
    var seg := TcpSegment(ep.localPort, ep.remotePort, seqNum, ackNum, dataOffset, 0, flags, window, 0, 0, options,
      payload);
    var tcpBytes := F.FlushTcp(seg);
    var checksum := CalculateTcpChecksum(ep.localIp, ep.remoteIp, tcpBytes);
    tcpBytes := PutU16(tcpBytes, 16, checksum);
    var packet := F.FlushIPv4(IPv4Packet(4, 5, 0, 64, 6, 0, ep.localIp, ep.remoteIp, tcpBytes));
    frame := F.FlushEthernet(EthernetFrame(ep.remoteMac, ep.localMac, IPV4, packet));
  }

  // ----- the receiving side ----------------------------------------------

  /** The three parsers in a row, with the bytes TCP was parsed from. */
  function Unpack(buf: Bytes, n: nat): Result<(IPv4Packet, TcpSegment), ParseError>
    requires n <= |buf|
  {
    var e :- ParseEthernet(buf, n);
    var p :- ParseIPv4(e.payload);
    var t :- ParseTcp(p.payload);
    Ok((p, t))
  }

  /** What the receive path reads of a parsed segment. */
  function Received(t: TcpSegment): T.Segment {
    T.Segment(t.seqNum, t.ackNum, t.flags, t.window, t.options, t.payload)
  }

  function FrameSize(seg: T.Segment): nat {
    54 + (|seg.options| + 3) / 4 * 4 + |seg.payload|
  }

  lemma OffsetOf(options: Bytes)
    requires |options| <= 40
    ensures Sendable(options)
    ensures DataOffset(options) == 5 + (|options| + 3) / 4 && 5 <= DataOffset(options) <= 15
  {
  }

  lemma SizeOfFrame(ep: Endpoint, seg: T.Segment)
    requires |seg.options| <= 40
    ensures Sendable(seg.options)
    ensures |EthernetBytes(FrameOf(ep, seg))| == FrameSize(seg)
  {
    hide TcpChecksum, IPv4Checksum, TcpBytes, IPv4Header;
    OffsetOf(seg.options);
    U16Width(IPV4);
  }

  /** A segment put on the wire arrives as it was, behind any Ethernet padding and
      in any read buffer, and both checksums pass the receiver's test. */
  lemma FrameCarries(ep: Endpoint, seg: T.Segment, padding: Bytes, slack: Bytes)
    requires |seg.options| <= 40 && |seg.options| % 4 == 0 && FrameSize(seg) - 14 <= 65535
    ensures Sendable(seg.options)
    ensures var wire := EthernetBytes(FrameOf(ep, seg)) + padding;
      var r := ParseEthernet(wire + slack, |wire|);
      r.Ok? && r.value.dst == ep.remoteMac && r.value.src == ep.localMac && r.value.etherType == 0x0800
    ensures var wire := EthernetBytes(FrameOf(ep, seg)) + padding;
      var r := Unpack(wire + slack, |wire|);
      && r.Ok? && var (p, t) := r.value;
      && Received(t) == seg && p.src == ep.localIp && p.dst == ep.remoteIp
      && p.version == 4 && p.ihl == 5 && p.ttl == 64 && p.protocol == 6 && t.urgent == 0
      && t.sourcePort == ep.localPort && t.destPort == ep.remotePort
      && Fold(WordSum(PutU16(IPv4Header(PacketOf(ep, seg)), 10, p.checksum))) == WORD_MAX
      && Fold(WordSum(PseudoHeader(p.src, p.dst, |p.payload|)) + WordSum(p.payload)) == WORD_MAX
  {
    hide ParseEthernet, ParseIPv4, ParseTcp, EthernetBytes, IPv4Bytes, IPv4Header, IPv4Checksum, TcpBytes, Fold,
      WordSum, TcpChecksum, PutU16, PseudoHeader;
    OffsetOf(seg.options);
    var t := SegmentOf(ep, seg);
    var checksum := TcpChecksum(ep.localIp, ep.remoteIp, TcpBytes(t));
    ThreeLayers(FrameOf(ep, seg), PacketOf(ep, seg), t, checksum, padding, slack);
    IPv4ChecksumIff(PacketOf(ep, seg), IPv4Checksum(PacketOf(ep, seg)));
    TcpChecksumIff(ep.localIp, ep.remoteIp, TcpBytes(t), checksum);
  }

  // ----- every frame of every run ----------------------------------------

  /** Over every run of a connection, whatever MSS the peer asked for, every frame
      it puts on the wire has at most 1514 bytes and arrives as it was sent. */
  lemma RunFramesFit(ep: Endpoint, isn: u32, syn: T.Segment, events: seq<T.Event>, i: nat, padding: Bytes, slack: Bytes)
    requires i < |T.Run(T.HandleSyn(isn, syn), events).tx.log|
    ensures var seg := T.Run(T.HandleSyn(isn, syn), events).tx.log[i].seg;
      && Sendable(seg.options) && |EthernetBytes(FrameOf(ep, seg))| <= 1514
      && var wire := EthernetBytes(FrameOf(ep, seg)) + padding;
      var r := Unpack(wire + slack, |wire|);
      r.Ok? && Received(r.value.1) == seg
  {
    hide T.Run, ParseMss, FrameOf, EthernetBytes, Unpack, S.Within, T.HandleSyn;
    var c := T.HandleSyn(isn, syn);
    S.RunWithin(isn, syn, events);
    S.SegOf(T.Run(c, events).tx, S.LimitOf(syn), i);
    FitsCarries(ep, T.Run(c, events).tx.log[i].seg, padding, slack);
  }

  lemma FitsCarries(ep: Endpoint, seg: T.Segment, padding: Bytes, slack: Bytes)
    requires S.SegWithin(seg, T.OUR_MSS)
    ensures Sendable(seg.options) && |EthernetBytes(FrameOf(ep, seg))| <= 1514
    ensures var wire := EthernetBytes(FrameOf(ep, seg)) + padding;
      var r := Unpack(wire + slack, |wire|);
      r.Ok? && Received(r.value.1) == seg
  {
    hide FrameOf, EthernetBytes, Unpack, Fold, WordSum, IPv4Header, PseudoHeader, PutU16, PacketOf;
    SizeOfFrame(ep, seg);
    FrameCarries(ep, seg, padding, slack);
  }
}
