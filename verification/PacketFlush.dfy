/** FlushToBytes and sendSegmentAt in their own form: allocated buffers, filled
    field by field. */
module PacketFlush {
  import opened Seq32
  import opened Wire
  import opened Checksum
  import opened Packets

  /** copy(buf[at:], src) */
  method Copy(buf: array<byte>, at: nat, src: Bytes)
    requires at + |src| <= buf.Length
    modifies buf
    ensures buf[..] == old(buf[..at]) + src + old(buf[at + |src|..])
  {
    for i := 0 to |src|
      invariant buf[..at] == old(buf[..at]) && buf[at + |src|..] == old(buf[at + |src|..])
      invariant forall j :: 0 <= j < i ==> buf[at + j] == src[j]
    {
      buf[at + i] := src[i];
    }
    assert buf[..] == buf[..at] + buf[at..at + |src|] + buf[at + |src|..];
    assert buf[at..at + |src|] == src;
  }

  /** binary.BigEndian.PutUint16(buf[at:], uint16(v)) */
  method PutWord(buf: array<byte>, at: nat, v: nat)
    requires at + 2 <= buf.Length
    modifies buf
    ensures buf[..] == old(buf[..at]) + U16Bytes(v) + old(buf[at + 2..])
  {
    buf[at], buf[at + 1] := v / 256 % 256, v % 256;
    assert buf[..] == buf[..at] + [buf[at], buf[at + 1]] + buf[at + 2..];
    assert buf[..at] == old(buf[..at]) && buf[at + 2..] == old(buf[at + 2..]);
  }

  method Allocate(n: nat) returns (buf: array<byte>)
    ensures fresh(buf) && buf.Length == n && buf[..] == Zero(n)
  {
    buf := new byte[n](i => 0);
  }

  /** Fills the next bytes of a buffer that holds `done` and is zero behind it. */
  method Fill(buf: array<byte>, ghost done: Bytes, at: nat, src: Bytes) returns (ghost filled: Bytes)
    requires at == |done| && at + |src| <= buf.Length && buf[..] == done + Zero(buf.Length - at)
    modifies buf
    ensures filled == done + src && buf[..] == filled + Zero(buf.Length - |filled|)
  {
    Copy(buf, at, src);
    filled := done + src;
  }

  /** Three parts in a row. */
  method FillThree(buf: array<byte>, ghost done: Bytes, at: nat, a: Bytes, b: Bytes, c: Bytes)
    returns (ghost filled: Bytes)
    requires at == |done| && at + |a| + |b| + |c| <= buf.Length && buf[..] == done + Zero(buf.Length - at)
    modifies buf
    ensures filled == done + a + b + c && buf[..] == filled + Zero(buf.Length - |filled|)
  {
    hide Zero;
    filled := Fill(buf, done, at, a);
    filled := Fill(buf, filled, at + |a|, b);
    filled := Fill(buf, filled, at + |a| + |b|, c);
  }

  method FlushEthernet(e: EthernetFrame) returns (out: Bytes)
    ensures out == EthernetBytes(e)
  {
    U16Width(e.etherType);
    var typ := U16Bytes(e.etherType);
    ghost var whole := e.dst + e.src + typ + e.payload;
    assert whole == EthernetBytes(e);
    hide U16Bytes, Zero, EthernetBytes;
    var buf := Allocate(14 + |e.payload|);
    ghost var done := Fill(buf, [], 0, e.dst);
    done := Fill(buf, done, 6, e.src);
    done := Fill(buf, done, 12, typ);
    done := Fill(buf, done, 14, e.payload);
    assert [] + e.dst == e.dst && done == whole;
    out := buf[..];
  }

  /** The fixed IPv4 fields before the checksum. */
  method PlainHeader(p: IPv4Packet) returns (buf: array<byte>)
    requires IPv4Fits(p)
    ensures fresh(buf) && buf[..] == IPv4Fixed(p) + Zero(p.ihl * 4 + |p.payload| - 20)
  {
    var total := p.ihl * 4 + |p.payload|;
    var (version, middle) := ([Nibbles(p.version, p.ihl), 0], [0, 0, 0, 0, p.ttl, p.protocol, 0, 0]);
    var length := U16Bytes(total);
    HeaderParts(p, version, length, middle);
    hide U16Bytes, Nibbles, Zero, IPv4Fixed;
    buf := Allocate(total);
    ghost var done := FillThree(buf, [], 0, version, length, middle);
    assert [] + version == version;
    done := FillThree(buf, done, 12, p.src, p.dst, []);
    assert done == version + length + middle + p.src + p.dst;
  }

  lemma HeaderParts(p: IPv4Packet, version: Bytes, length: Bytes, middle: Bytes)
    requires version == [Nibbles(p.version, p.ihl), 0] && length == U16Bytes(p.ihl * 4 + |p.payload|)
    requires middle == [0, 0, 0, 0, p.ttl, p.protocol, 0, 0]
    ensures |length| == 2 && IPv4Fixed(p) == version + length + middle + p.src + p.dst
  {
    U16Width(p.ihl * 4 + |p.payload|);
    hide U16Bytes, Nibbles;
  }

  method FlushIPv4(p: IPv4Packet) returns (out: Bytes)
    requires IPv4Fits(p)
    ensures out == IPv4Bytes(p)
  {
    hide IPv4Fixed, WordSum, Fold, U16Bytes, U16At;
    var headerLen := p.ihl * 4;
    var buf := PlainHeader(p);
    assert buf[..headerLen] == IPv4Header(p) by { HeaderOf(p); }
    var sum := AddWords(0, buf[..headerLen]);
    SmallHeader(p);
    var folded := FoldLoop(sum);
    ghost var plain := buf[..];
    PutWord(buf, 10, Complement(folded));
    assert buf[..] == PutU16(plain, 10, IPv4Checksum(p));
    Copy(buf, headerLen, p.payload);
    PutHeader(p);
    out := buf[..];
  }

  /** What the buffer starts with is the header. */
  lemma HeaderOf(p: IPv4Packet)
    requires IPv4Fits(p)
    ensures (IPv4Fixed(p) + Zero(p.ihl * 4 + |p.payload| - 20))[..p.ihl * 4] == IPv4Header(p)
  {
    hide IPv4Fixed;
  }

  /** Putting the checksum into the buffer puts it into the header. */
  lemma PutHeader(p: IPv4Packet)
    requires IPv4Fits(p)
    ensures PutU16(IPv4Fixed(p) + Zero(p.ihl * 4 + |p.payload| - 20), 10, IPv4Checksum(p))[..p.ihl * 4] + p.payload
      == IPv4Bytes(p)
  {
    U16Width(IPv4Checksum(p));
    hide IPv4Fixed, IPv4Checksum, U16Bytes, U16At;
    var (n, c, fixed) := (p.ihl * 4, IPv4Checksum(p), IPv4Fixed(p));
    var buf := fixed + Zero(n + |p.payload| - 20);
    if p.ihl >= 5 {
      assert PutU16(buf, 10, c)[..n] == PutU16(IPv4Header(p), 10, c);
    } else {
      assert PutU16(buf, 10, c)[..n] == PutU16(fixed, 10, c)[..n];
    }
  }

  /** The uint32 sum of a header cannot overflow. */
  lemma SmallHeader(p: IPv4Packet)
    ensures Wrap(0 + WordSum(IPv4Header(p))) == WordSum(IPv4Header(p))
  {
    hide IPv4Header, WordSum;
    WordSumBound(IPv4Header(p));
    WrapSmall(WordSum(IPv4Header(p)));
  }

  /** The first 20 bytes of the TCP header. */
  method FixedHeader(t: TcpSegment) returns (buf: array<byte>)
    requires TcpFits(t)
    ensures fresh(buf) && buf[..] == TcpFixed(t) + Zero(t.dataOffset * 4 - 20 + |t.payload|)
  {
    TcpWidths(t);
    var (ports, numbers) := (U16Bytes(t.sourcePort) + U16Bytes(t.destPort), U32Bytes(t.seqNum) + U32Bytes(t.ackNum));
    var nibbles := [Nibbles(t.dataOffset, t.reserved), t.flags];
    var (window, urgent) := (U16Bytes(t.window), U16Bytes(t.urgent));
    FixedParts(t, ports, numbers, nibbles, window, urgent);
    hide U16Bytes, U32Bytes, Nibbles, TcpFixed, Zero;
    buf := Allocate(t.dataOffset * 4 + |t.payload|);
    ghost var done := FillThree(buf, [], 0, ports, numbers, nibbles);
    assert [] + ports == ports;
    done := FillThree(buf, done, 14, window, [0, 0], urgent);
  }

  lemma FixedParts(t: TcpSegment, ports: Bytes, numbers: Bytes, nibbles: Bytes, window: Bytes, urgent: Bytes)
    requires ports == U16Bytes(t.sourcePort) + U16Bytes(t.destPort)
    requires numbers == U32Bytes(t.seqNum) + U32Bytes(t.ackNum)
    requires nibbles == [Nibbles(t.dataOffset, t.reserved), t.flags] && window == U16Bytes(t.window)
      && urgent == U16Bytes(t.urgent)
    ensures TcpFixed(t) == ports + numbers + nibbles + window + [0, 0] + urgent
  {
    hide U16Bytes, U32Bytes, Nibbles;
  }

  /** Options go behind the fixed fields, cut at the end of the header. */
  method PutOptions(buf: array<byte>, ghost fixed: Bytes, options: Bytes, headerLen: nat)
    requires |fixed| == 20 <= headerLen <= buf.Length && buf[..] == fixed + Zero(buf.Length - 20)
    modifies buf
    ensures buf[..] == fixed + OptionArea(options, headerLen - 20) + Zero(buf.Length - headerLen)
  {
    hide OptionArea, Zero;
    var n := headerLen - 20;
    WithOptions(fixed, options, n, buf.Length - headerLen);
    if |options| > 0 {
      ghost var done := Fill(buf, fixed, 20, if |options| >= n then options[..n] else options);
    }
  }

  lemma WithOptions(fixed: Bytes, options: Bytes, n: nat, behind: nat)
    ensures var copied := if |options| >= n then options[..n] else options;
      fixed + copied + Zero(n + behind - |copied|) == fixed + OptionArea(options, n) + Zero(behind)
    ensures options == [] ==> fixed + Zero(n + behind) == fixed + OptionArea(options, n) + Zero(behind)
  {
    var copied := if |options| >= n then options[..n] else options;
    OptionsCopied(options, n, behind);
    hide OptionArea, Zero;
    Regroup(fixed, copied, Zero(n + behind - |copied|));
    Regroup(fixed, OptionArea(options, n), Zero(behind));
    assert fixed + [] == fixed;
  }

  lemma Regroup(a: Bytes, b: Bytes, c: Bytes)
    ensures a + b + c == a + (b + c)
  {
  }

  /** Copying cuts long options, and leaves zeros behind short ones. */
  lemma OptionsCopied(options: Bytes, n: nat, behind: nat)
    ensures var copied := if |options| >= n then options[..n] else options;
      copied + Zero(n + behind - |copied|) == OptionArea(options, n) + Zero(behind)
  {
  }

  /** The header with its options. */
  method TcpHeader(t: TcpSegment) returns (buf: array<byte>)
    requires TcpFits(t)
    ensures fresh(buf) && buf.Length == t.dataOffset * 4 + |t.payload|
    ensures buf[..t.dataOffset * 4] + t.payload == TcpBytes(t)
  {
    hide TcpFixed, OptionArea, Zero, TcpBytes;
    var headerLen := t.dataOffset * 4;
    buf := FixedHeader(t);
    if headerLen >= 20 {
      PutOptions(buf, TcpFixed(t), t.options, headerLen);
    }
    TcpWhole(t, buf[..]);
    assert buf[..headerLen] == buf[..][..headerLen];
  }

  lemma TcpWhole(t: TcpSegment, buf: Bytes)
    requires TcpFits(t)
    requires t.dataOffset >= 5 ==> buf == TcpFixed(t) + OptionArea(t.options, t.dataOffset * 4 - 20) + Zero(|t.payload|)
    requires t.dataOffset < 5 ==> buf == TcpFixed(t) + Zero(t.dataOffset * 4 - 20 + |t.payload|)
    ensures |buf| >= t.dataOffset * 4 && buf[..t.dataOffset * 4] + t.payload == TcpBytes(t)
  {
    hide TcpFixed, OptionArea, Zero;
    if t.dataOffset >= 5 {
      Front(TcpFixed(t) + OptionArea(t.options, t.dataOffset * 4 - 20), Zero(|t.payload|));
    } else {
      assert buf[..t.dataOffset * 4] == TcpFixed(t)[..t.dataOffset * 4];
    }
  }

  lemma Front(a: Bytes, b: Bytes)
    ensures (a + b)[..|a|] == a
  {
  }

  method FlushTcp(t: TcpSegment) returns (out: Bytes)
    requires TcpFits(t)
    ensures out == TcpBytes(t)
  {
    hide TcpBytes;
    var buf := TcpHeader(t);
    Copy(buf, t.dataOffset * 4, t.payload);
    out := buf[..];
  }

  lemma TcpWidths(t: TcpSegment)
    ensures |U16Bytes(t.sourcePort)| == 2 && |U16Bytes(t.destPort)| == 2 && |U16Bytes(t.window)| == 2
      && |U16Bytes(t.urgent)| == 2
    ensures |U32Bytes(t.seqNum)| == 4 && |U32Bytes(t.ackNum)| == 4
  {
  }
}
