/** Where the fields of Ethernet, IPv4 (section 3.1 of RFC 791) and TCP (section
    3.1 of RFC 9293) stand, each read as a big-endian number, and what the
    Internet checksum is of the bytes read as one number. */
module PacketLayout {
  import opened Seq32
  import opened Wrappers
  import opened Bits
  import opened Wire
  import opened Checksum
  import opened Packets

  /** n bytes from position i as a big-endian number. */
  function Field(b: Bytes, i: nat, n: nat): nat
    requires i + n <= |b|
  {
    BeInt(b[i..i + n])
  }

  lemma LongField(b: Bytes, i: nat)
    requires i + 4 <= |b|
    ensures U32At(b, i) == Field(b, i, 4)
  {
    U16IsBe(b, i);
    U16IsBe(b, i + 2);
    BeSplit(b[i..i + 2], b[i + 2..i + 4]);
    assert b[i..i + 4] == b[i..i + 2] + b[i + 2..i + 4];
    hide BeInt, U16At;
    Pow2Add(8, 8);
  }

  lemma {:induction false} BeSplit(high: Bytes, low: Bytes)
    ensures BeInt(high + low) == BeInt(high) * Pow2(8 * |low|) + BeInt(low)
    decreases |low|
  {
    hide Pow2;
    if low == [] {
      Pow2Next(0);
      assert high + low == high;
    } else {
      var init := low[..|low| - 1];
      assert (high + low)[..|high + low| - 1] == high + init;
      BeSplit(high, init);
      Pow2Add(8 * |init|, 8);
      MulAssoc(BeInt(high), Pow2(8 * |init|), 256);
    }
  }

  lemma EthernetFields(buf: Bytes, n: nat)
    requires n <= |buf|
    ensures ParseEthernet(buf, n) == Err(TooShort) <==> n < 14
    ensures n >= 14 ==> var r := ParseEthernet(buf, n);
      && r.Ok? && r.value.dst == buf[0..6] && r.value.src == buf[6..12] && r.value.etherType == Field(buf, 12, 2)
      && r.value.payload == buf[14..n]
  {
    if n >= 14 {
      U16IsBe(buf, 12);
      hide BeInt;
    }
  }

  /** A packet is as long as it says, unless what it says cannot be; then it is all there is. */
  lemma IPv4Fields(b: Bytes)
    ensures ParseIPv4(b).Ok? <==> |b| >= 20 && |b| >= 4 * (b[0] % 16)
    ensures ParseIPv4(b).Ok? ==> var (p, header) := (ParseIPv4(b).value, 4 * (b[0] % 16));
      && b[0] == 16 * p.version + p.ihl && p.ihl < 16
      && p.totalLen == Field(b, 2, 2) && p.ttl == b[8] && p.protocol == b[9] && p.checksum == Field(b, 10, 2)
      && p.src == b[12..16] && p.dst == b[16..20]
      && p.payload == if header <= p.totalLen <= |b| then b[header..p.totalLen] else b[header..]
  {
    if |b| >= 20 {
      U16IsBe(b, 2);
      U16IsBe(b, 10);
      hide BeInt, U16At;
    }
  }

  lemma TcpFieldsAt(b: Bytes)
    ensures ParseTcp(b).Ok? <==> |b| >= 20 && |b| >= 4 * (b[12] / 16)
    ensures ParseTcp(b).Ok? ==> var (t, header) := (ParseTcp(b).value, 4 * (b[12] / 16));
      && t.sourcePort == Field(b, 0, 2) && t.destPort == Field(b, 2, 2)
      && t.seqNum == Field(b, 4, 4) && t.ackNum == Field(b, 8, 4)
      && b[12] == 16 * t.dataOffset + t.reserved && t.reserved < 16 && t.flags == b[13]
      && t.window == Field(b, 14, 2) && t.checksum == Field(b, 16, 2) && t.urgent == Field(b, 18, 2)
      && t.options == (if header > 20 then b[20..header] else []) && t.payload == b[header..]
  {
    if |b| >= 20 {
      U16IsBe(b, 0);
      U16IsBe(b, 2);
      LongField(b, 4);
      LongField(b, 8);
      U16IsBe(b, 14);
      U16IsBe(b, 16);
      U16IsBe(b, 18);
      hide BeInt, U16At, U32At;
    }
  }

  /** Options shorter than their area are followed by zeros, which end the list. */
  lemma OptionBytes(options: Bytes, n: nat, i: nat)
    requires i < n
    ensures OptionArea(options, n)[i] == if i < |options| then options[i] else 0
  {
  }

  // ----- the checksum ----------------------------------------------------

  /** The sum of the words is the big-endian number they make up, modulo 65535; an odd
      string counts as if a zero byte followed. */
  lemma {:induction false} SumIsResidue(b: Bytes)
    ensures WordSum(b) % WORD_MAX == BeInt(if |b| % 2 == 0 then b else b + [0]) % WORD_MAX
  {
    hide BeInt, Pow2, WordSum, U16At;
    SumUnfolds(b);
    if b == [] {
      NoBytes();
    } else if |b| == 1 {
      OneByte(b[0]);
      assert b + [0] == [b[0], 0];
    } else {
      var even := if |b| % 2 == 0 then b else b + [0];
      var rest := if |b| % 2 == 0 then b[2..] else b[2..] + [0];
      SumIsResidue(b[2..]);
      assert even == b[..2] + rest && b[0..2] == b[..2];
      U16IsBe(b, 0);
      BeSplit(b[..2], rest);
      PowerIsOne(|rest| / 2);
      Residues(U16At(b, 0), Pow2(8 * |rest|), BeInt(rest), WordSum(b[2..]));
    }
  }

  lemma SumUnfolds(b: Bytes)
    ensures |b| == 0 ==> WordSum(b) == 0
    ensures |b| == 1 ==> WordSum(b) == (var n: int := b[0]; n * 256)
    ensures |b| >= 2 ==> WordSum(b) == U16At(b, 0) + WordSum(b[2..])
  {
  }

  lemma NoBytes()
    ensures BeInt([]) == 0
  {
  }

  lemma OneByte(c: byte)
    ensures BeInt([c, 0]) == (var n: int := c; n * 256)
  {
    assert [c, 0][..1] == [c] && [c][..0] == [];
    assert BeInt([c]) == c;
  }

  /** 2^16 is 1 modulo 65535, and so are its powers. */
  lemma {:induction false} PowerIsOne(k: nat)
    ensures Pow2(16 * k) % WORD_MAX == 1
  {
    if k > 0 {
      var q := Pow2(16 * (k - 1));
      PowerIsOne(k - 1);
      Pow2Add(16 * (k - 1), 16);
      Pow2Add(8, 8);
      assert q * 65536 == q + q * WORD_MAX;
      ModPeriod(q, q);
    }
  }

  /** a * q + r is a + s modulo 65535 when q is 1 and r is s. */
  lemma Residues(a: nat, q: nat, r: nat, s: nat)
    requires q % WORD_MAX == 1 && r % WORD_MAX == s % WORD_MAX
    ensures (a + s) % WORD_MAX == (a * q + r) % WORD_MAX
  {
    var (m, i, j) := (q / WORD_MAX, r / WORD_MAX, s / WORD_MAX);
    assert q == m * WORD_MAX + 1 && r == i * WORD_MAX + s % WORD_MAX && s == j * WORD_MAX + s % WORD_MAX;
    assert a * q == a + a * m * WORD_MAX;
    MulNat(a, m);
    MulAdd(a * m, i, WORD_MAX);
    ModPeriod(a + s % WORD_MAX, a * m + i);
    ModPeriod(a + s % WORD_MAX, j);
  }

  /** The pseudo-header of section 3.1 of RFC 9293: addresses, zero, protocol 6, length. */
  lemma PseudoHeaderIs(src: Ip, dst: Ip, length: nat)
    requires length <= 65535
    ensures var b := PseudoHeader(src, dst, length);
      |b| == 12 && b[..4] == src && b[4..8] == dst && b[8] == 0 && b[9] == 6 && Field(b, 10, 2) == length
  {
    var b := PseudoHeader(src, dst, length);
    U16IsBe(b, 10);
    hide BeInt;
  }
}
