/** Ethernet, IPv4 and TCP on the wire: model/serialize.go, model/parse.go and
    the packet of tcp/send.go. */
module Packets {
  import opened Seq32
  import opened Wrappers
  import opened Bits
  import opened Wire
  import opened Checksum

  type Mac = b: Bytes | |b| == 6 witness [0, 0, 0, 0, 0, 0]

  datatype EthernetFrame = EthernetFrame(dst: Mac, src: Mac, etherType: u16, payload: Bytes)

  datatype IPv4Packet = IPv4Packet(
    version: byte, ihl: byte, totalLen: u16, ttl: byte, protocol: byte, checksum: u16, src: Ip, dst: Ip, payload: Bytes)

  datatype TcpSegment = TcpSegment(
    sourcePort: u16, destPort: u16, seqNum: u32, ackNum: u32, dataOffset: byte, reserved: byte, flags: byte,
    window: u16, checksum: u16, urgent: u16, options: Bytes, payload: Bytes)

  datatype ParseError = TooShort | HeaderTruncated

  function U32Bytes(n: u32): Bytes {
    U16Bytes(n / 65536) + U16Bytes(n % 65536)
  }

  function U32At(b: Bytes, i: nat): u32
    requires i + 4 <= |b|
  {
    U16At(b, i) * 65536 + U16At(b, i + 2)
  }

  /** A uint8 shifted left by four, or-ed with another. */
  function Nibbles(high: byte, low: byte): (r: byte)
    ensures low < 16 ==> r / 16 == high % 16 && r % 16 == low
  {
    OrNibble(high % 16, low);
    Or(high % 16 * 16, low)
  }

  lemma OrNibble(h: nat, low: byte)
    requires h < 16
    ensures Or(h * 16, low) < 256
    ensures low < 16 ==> Or(h * 16, low) == h * 16 + low
  {
    OrBound(h * 16, low, 8);
    Pow2Add(0, 8);
    if low < 16 {
      assert Pow2(4) == 16;
      OrShifted(h, low, 4);
    }
  }

  lemma {:induction false} OrBound(a: nat, b: nat, n: nat)
    requires a < Pow2(n) && b < Pow2(n)
    ensures Or(a, b) < Pow2(n)
  {
    if n > 0 {
      OrBound(a / 2, b / 2, n - 1);
    }
  }

  /** Numbers without a common bit add up. */
  lemma {:induction false} OrShifted(h: nat, low: nat, n: nat)
    requires low < Pow2(n)
    ensures Or(h * Pow2(n), low) == h * Pow2(n) + low
  {
    if n > 0 {
      var q := Pow2(n - 1);
      MulNat(h, q);
      assert h * Pow2(n) == 2 * (h * q);
      OrShifted(h, low / 2, n - 1);
      OrOnEven(h * q, low);
    }
  }

  lemma OrOnEven(m: nat, b: nat)
    ensures Or(2 * m, b) == 2 * Or(m, b / 2) + b % 2
  {
    assert (2 * m) / 2 == m && (2 * m) % 2 == 0;
    if m == 0 || b == 0 {
      assert Or(0, b / 2) == b / 2;
    }
  }

  // ----- serialization ---------------------------------------------------

  function EthernetBytes(e: EthernetFrame): Bytes {
    e.dst + e.src + U16Bytes(e.etherType) + e.payload
  }

  function Zero(n: nat): (z: Bytes)
    ensures |z| == n
  {
    seq(n, i => 0)
  }

  /** The buffer has room for the fixed fields; without it the writes panic. */
  predicate IPv4Fits(p: IPv4Packet) {
    p.ihl * 4 + |p.payload| >= 20
  }

  function IPv4Fixed(p: IPv4Packet): (h: Bytes)
    ensures |h| == 20 && U16At(h, 10) == 0
  {
    [Nibbles(p.version, p.ihl), 0] + U16Bytes(p.ihl * 4 + |p.payload|) + [0, 0, 0, 0, p.ttl, p.protocol, 0, 0] + p.src
      + p.dst
  }

  /** The bytes the checksum covers, its field zero: options beyond 20 bytes are
      zero, and a header length below 20 cuts the fixed fields. */
  function IPv4Header(p: IPv4Packet): (h: Bytes)
    ensures |h| == p.ihl * 4 && (p.ihl >= 5 ==> U16At(h, 10) == 0)
  {
    if p.ihl >= 5 then IPv4Fixed(p) + Zero(p.ihl * 4 - 20) else IPv4Fixed(p)[..p.ihl * 4]
  }

  function IPv4Checksum(p: IPv4Packet): u16 {
    Complement(Fold(WordSum(IPv4Header(p))))
  }

  /** The payload starts at the announced header length, over fixed fields if need be. */
  function IPv4Bytes(p: IPv4Packet): Bytes
    requires IPv4Fits(p)
  {
    if p.ihl >= 5 then PutU16(IPv4Header(p), 10, IPv4Checksum(p)) + p.payload
    else PutU16(IPv4Fixed(p), 10, IPv4Checksum(p))[..p.ihl * 4] + p.payload
  }

  /** What copy leaves in an option area of n bytes: cut, or padded with zeros. */
  function OptionArea(options: Bytes, n: nat): (area: Bytes)
    ensures |area| == n
  {
    if |options| >= n then options[..n] else options + seq(n - |options|, i => 0)
  }

  function TcpFixed(t: TcpSegment): (h: Bytes)
    ensures |h| == 20 && U16At(h, 16) == 0
  {
    U16Bytes(t.sourcePort) + U16Bytes(t.destPort) + U32Bytes(t.seqNum) + U32Bytes(t.ackNum)
      + [Nibbles(t.dataOffset, t.reserved), t.flags] + U16Bytes(t.window) + [0, 0] + U16Bytes(t.urgent)
  }

  /** The buffer has room for the fixed fields, and options have an area to go to. */
  predicate TcpFits(t: TcpSegment) {
    t.dataOffset * 4 + |t.payload| >= 20 && (t.options != [] ==> t.dataOffset >= 5)
  }

  function TcpBytes(t: TcpSegment): (b: Bytes)
    requires TcpFits(t)
    ensures |b| == t.dataOffset * 4 + |t.payload| && (t.dataOffset >= 5 ==> U16At(b, 16) == 0)
  {
    if t.dataOffset >= 5 then TcpFixed(t) + OptionArea(t.options, t.dataOffset * 4 - 20) + t.payload
    else TcpFixed(t)[..t.dataOffset * 4] + t.payload
  }

  // ----- parsing ---------------------------------------------------------

  /** n bytes were read into buf. */
  function ParseEthernet(buf: Bytes, n: nat): Result<EthernetFrame, ParseError>
    requires n <= |buf|
  {
    if n < 14 then Err(TooShort) else Ok(EthernetFrame(buf[..6], buf[6..12], U16At(buf, 12), buf[14..n]))
  }

  function ParseIPv4(buf: Bytes): Result<IPv4Packet, ParseError> {
    if |buf| < 20 then Err(TooShort) else
    var ihl: byte := buf[0] % 16;
    var headerLen := ihl * 4;
    if |buf| < headerLen then Err(HeaderTruncated) else
    var totalLen := U16At(buf, 2);
    var end := if totalLen < headerLen || totalLen > |buf| then |buf| else totalLen;
    Ok(IPv4Packet(buf[0] / 16, ihl, totalLen, buf[8], buf[9], U16At(buf, 10), buf[12..16], buf[16..20],
      buf[headerLen..end]))
  }

  function ParseTcp(buf: Bytes): Result<TcpSegment, ParseError> {
    if |buf| < 20 then Err(TooShort) else
    var dataOffset: byte := buf[12] / 16;
    var headerLen := dataOffset * 4;
    if |buf| < headerLen then Err(HeaderTruncated) else
    var options := if headerLen > 20 then buf[20..headerLen] else [];
    Ok(TcpSegment(U16At(buf, 0), U16At(buf, 2), U32At(buf, 4), U32At(buf, 8), dataOffset, buf[12] % 16, buf[13],
                  U16At(buf, 14), U16At(buf, 16), U16At(buf, 18), options, buf[headerLen..]))
  }

  // ----- layer by layer --------------------------------------------------

  /** A number inside a longer string. */
  lemma U16Inside(b: Bytes, before: Bytes, v: u16, after: Bytes)
    requires b == before + (U16Bytes(v) + after)
    ensures U16At(b, |before|) == v
  {
    U16Read(v);
    assert b[|before|] == U16Bytes(v)[0] && b[|before| + 1] == U16Bytes(v)[1];
  }

  lemma EthernetRoundTrip(e: EthernetFrame, padding: Bytes, slack: Bytes)
    ensures var wire := EthernetBytes(e) + padding;
      ParseEthernet(wire + slack, |wire|) == Ok(e.(payload := e.payload + padding))
  {
    hide U16Bytes, U16At;
    var wire := EthernetBytes(e) + padding;
    var buf := wire + slack;
    U16Width(e.etherType);
    U16Inside(buf, e.dst + e.src, e.etherType, e.payload + padding + slack);
    assert buf[..6] == e.dst && buf[6..12] == e.src && buf[14..|wire|] == e.payload + padding;
  }

  /** The checksum changes two bytes of the header. */
  lemma IPv4Wire(p: IPv4Packet, tail: Bytes)
    requires 5 <= p.ihl <= 15
    ensures var (b, n) := (IPv4Bytes(p) + tail, p.ihl * 4);
      && |b| == n + |p.payload| + |tail|
      && b[0] == Nibbles(p.version, p.ihl) && U16At(b, 2) == (n + |p.payload|) % 65536
      && b[8] == p.ttl && b[9] == p.protocol && U16At(b, 10) == IPv4Checksum(p)
      && b[12..16] == p.src && b[16..20] == p.dst && b[n..] == p.payload + tail
  {
    hide Fold, WordSum, IPv4Checksum, Nibbles;
    var (h, c) := (IPv4Header(p), IPv4Checksum(p));
    var put := PutU16(h, 10, c);
    var b := put + p.payload + tail;
    assert IPv4Bytes(p) + tail == b;
    assert forall i :: 0 <= i < |h| && i != 10 && i != 11 ==> b[i] == h[i];
    assert b[10] == put[10] && b[11] == put[11];
    LengthField(p.ihl * 4 + |p.payload|);
    assert b[12..16] == p.src && b[16..20] == p.dst;
  }

  lemma LengthField(n: nat)
    ensures U16At(U16Bytes(n), 0) == n % 65536
  {
    DivModByte(n, 256);
  }

  /** Parsing an IPv4 packet off a frame with any trailing padding gives every
      field back, and the payload exactly when the length field could hold the
      length, or it wrapped below the header and there was no padding. */
  lemma IPv4RoundTrip(p: IPv4Packet, padding: Bytes)
    requires 5 <= p.ihl <= 15 && p.version < 16
    ensures var (r, total) := (ParseIPv4(IPv4Bytes(p) + padding), p.ihl * 4 + |p.payload|);
      && r.Ok?
      && r.value == p.(totalLen := total % 65536, checksum := IPv4Checksum(p), payload := r.value.payload)
      && (r.value.payload == p.payload <==> total <= 65535 || (total % 65536 < p.ihl * 4 && padding == []))
  {
    hide U16Bytes, U16At, IPv4Bytes, IPv4Checksum;
    var (b, n) := (IPv4Bytes(p) + padding, p.ihl * 4);
    var total := n + |p.payload|;
    IPv4Wire(p, padding);
    var r := ParseIPv4(b).value;
    if total <= 65535 {
      DivModUnique(total, 65536, 0, total);
      assert b[n..total] == b[n..][..|p.payload|] == p.payload;
    } else {
      assert total % 65536 < total;
      if total % 65536 < n {
        assert r.payload == p.payload + padding;
      } else {
        assert |r.payload| == total % 65536 - n;
      }
    }
  }

  /** The header as sent sums to all ones, with no other checksum up to the two
      forms of zero. */
  lemma IPv4ChecksumIff(p: IPv4Packet, field: u16)
    requires 5 <= p.ihl <= 15 && p.version == 4
    ensures Fold(WordSum(PutU16(IPv4Header(p), 10, field))) == WORD_MAX
      <==> field == IPv4Checksum(p) || (IPv4Checksum(p) == 0 && field == WORD_MAX)
  {
    hide WordSum, Fold, U16At, PutU16, IPv4Header;
    var h := IPv4Header(p);
    WordSumPut(h, 10, field);
    ChecksumIff(WordSum(h), field);
    FoldIs(WordSum(h));
    SplitWord(h, 0);
    FirstWord(p);
    ZeroForms(WordSum(h), field);
  }

  lemma FirstWord(p: IPv4Packet)
    requires 5 <= p.ihl <= 15 && p.version == 4
    ensures U16At(IPv4Header(p), 0) > 0
  {
    var n := Nibbles(p.version, p.ihl);
    assert n == n / 16 * 16 + n % 16;
    assert IPv4Header(p)[0] == n;
  }

  /** A TCP segment comes back whole, its options padded or cut to the header. */
  lemma TcpRoundTrip(t: TcpSegment, checksum: u16)
    requires 5 <= t.dataOffset <= 15 && t.reserved < 16
    ensures ParseTcp(PutU16(TcpBytes(t), 16, checksum))
      == Ok(t.(checksum := checksum, options := OptionArea(t.options, t.dataOffset * 4 - 20)))
  {
    var (n, area) := (t.dataOffset * 4, OptionArea(t.options, t.dataOffset * 4 - 20));
    var b := PutU16(TcpBytes(t), 16, checksum);
    TcpFields(t);
    hide U16Bytes, U16At, U32At, OptionArea, Nibbles, TcpFixed;
    PutFrame(TcpBytes(t), 16, checksum);
    PutElsewhere(TcpBytes(t), 16, checksum);
    assert forall i :: 0 <= i < 20 ==> TcpBytes(t)[i] == TcpFixed(t)[i];
    assert b[n..] == b[18..][n - 18..] == TcpBytes(t)[18..][n - 18..] == TcpBytes(t)[n..] == t.payload;
    assert b[20..n] == b[18..][2..n - 18] == TcpBytes(t)[18..][2..n - 18] == TcpBytes(t)[20..n] == area;
    FieldsSame(b, TcpFixed(t));
    assert area == if n > 20 then area else [];
  }

  lemma PutElsewhere(b: Bytes, at: nat, v: u16)
    requires at + 2 <= |b|
    ensures forall i :: 0 <= i < |b| && i != at && i != at + 1 ==> PutU16(b, at, v)[i] == b[i]
  {
    U16Width(v);
    hide U16Bytes, U16At;
  }

  lemma FieldsSame(b: Bytes, h: Bytes)
    requires |b| >= 20 && |h| == 20 && forall i :: 0 <= i < 20 && i != 16 && i != 17 ==> b[i] == h[i]
    ensures U16At(b, 0) == U16At(h, 0) && U16At(b, 2) == U16At(h, 2) && U32At(b, 4) == U32At(h, 4)
      && U32At(b, 8) == U32At(h, 8) && U16At(b, 14) == U16At(h, 14) && U16At(b, 18) == U16At(h, 18)
  {
  }

  lemma TcpFields(t: TcpSegment)
    requires 5 <= t.dataOffset <= 15 && t.reserved < 16
    ensures var h := TcpFixed(t);
      && U16At(h, 0) == t.sourcePort && U16At(h, 2) == t.destPort && U32At(h, 4) == t.seqNum && U32At(h, 8) == t.ackNum
      && h[12] / 16 == t.dataOffset && h[12] % 16 == t.reserved && h[13] == t.flags
      && U16At(h, 14) == t.window && U16At(h, 18) == t.urgent
  {
    hide TcpFixed, Nibbles, U16At, U32At, U16Bytes, U32Bytes;
    var h := TcpFixed(t);
    TcpSlices(t);
    ShortAt(h, 0, t.sourcePort);
    ShortAt(h, 2, t.destPort);
    LongAt(h, 4, t.seqNum);
    LongAt(h, 8, t.ackNum);
    ShortAt(h, 14, t.window);
    ShortAt(h, 18, t.urgent);
  }

  lemma TcpSlices(t: TcpSegment)
    ensures var h := TcpFixed(t);
      && h[12] == Nibbles(t.dataOffset, t.reserved) && h[13] == t.flags
      && h[0..2] == U16Bytes(t.sourcePort) && h[2..4] == U16Bytes(t.destPort)
      && h[4..8] == U32Bytes(t.seqNum) && h[8..12] == U32Bytes(t.ackNum)
      && h[14..16] == U16Bytes(t.window) && h[18..20] == U16Bytes(t.urgent)
  {
    U16Width(t.sourcePort);
    U16Width(t.destPort);
    U16Width(t.window);
    U16Width(t.urgent);
    assert |U32Bytes(t.seqNum)| == 4 && |U32Bytes(t.ackNum)| == 4;
    hide Nibbles, U16Bytes, U32Bytes;
  }

  lemma ShortAt(h: Bytes, at: nat, v: u16)
    requires at + 2 <= |h| && h[at..at + 2] == U16Bytes(v)
    ensures U16At(h, at) == v
  {
    assert h[at] == h[at..at + 2][0] && h[at + 1] == h[at..at + 2][1];
  }

  lemma LongAt(h: Bytes, at: nat, v: u32)
    requires at + 4 <= |h| && h[at..at + 4] == U32Bytes(v)
    ensures U32At(h, at) == v
  {
    assert h[at..at + 2] == h[at..at + 4][..2] == U16Bytes(v / 65536);
    assert h[at + 2..at + 4] == h[at..at + 4][2..] == U16Bytes(v % 65536);
    ShortAt(h, at, v / 65536);
    ShortAt(h, at + 2, v % 65536);
    hide U16At, U16Bytes;
  }

  /** Three layers: parsing Ethernet, then IPv4, then TCP of a flushed frame, with
      any padding behind it and any bytes left in the read buffer, gives every
      field back and exactly the payload. */
  lemma ThreeLayers(e: EthernetFrame, p: IPv4Packet, t: TcpSegment, checksum: u16, padding: Bytes, slack: Bytes)
    requires 5 <= t.dataOffset <= 15 && t.reserved < 16 && |t.options| == t.dataOffset * 4 - 20
    requires p.ihl == 5 && p.version < 16 && p.payload == PutU16(TcpBytes(t), 16, checksum)
    requires e.payload == IPv4Bytes(p) && 20 + |p.payload| <= 65535
    ensures var wire := EthernetBytes(e) + padding;
      && ParseEthernet(wire + slack, |wire|) == Ok(e.(payload := e.payload + padding))
      && ParseIPv4(e.payload + padding) == Ok(p.(totalLen := 20 + |p.payload|, checksum := IPv4Checksum(p)))
      && ParseTcp(p.payload) == Ok(t.(checksum := checksum))
  {
    hide EthernetBytes, IPv4Bytes, IPv4Checksum, TcpBytes, ParseEthernet, ParseIPv4, ParseTcp;
    EthernetRoundTrip(e, padding, slack);
    IPv4RoundTrip(p, padding);
    TcpRoundTrip(t, checksum);
    DivModUnique(20 + |p.payload|, 65536, 0, 20 + |p.payload|);
    assert t.options[..|t.options|] == t.options;
  }
}
