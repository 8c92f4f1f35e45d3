/** The Internet checksum (RFC 1071), as tcp/send.go and model/serialize.go
    compute it. */
module Checksum {
  import opened Seq32
  import opened Bits
  import opened Wire

  const WORD_MAX: int := 0xFFFF

  /** The 16-bit words of b, big-endian; an odd last byte is the high half of a word. */
  function WordSum(b: Bytes): (sum: nat) {
    if b == [] then 0
    else if |b| == 1 then (var low: int := b[0]; low * 256)
    else U16At(b, 0) + WordSum(b[2..])
  }

  /** One's complement folding of the carries. */
  function Fold(sum: nat): (r: u16) {
    if sum <= WORD_MAX then sum else Fold(sum / 0x10000 + sum % 0x10000)
  }

  function Complement(x: u16): u16 {
    WORD_MAX - x
  }

  /** The folded sum is the residue modulo 65535, written 65535 when it is 0 and the sum is not. */
  lemma {:induction false} FoldIs(sum: nat)
    ensures Fold(sum) == if sum == 0 then 0 else (sum - 1) % WORD_MAX + 1
  {
    if sum > WORD_MAX {
      var (q, r) := (sum / 0x10000, sum % 0x10000);
      FoldIs(q + r);
      var m := q + r - 1;
      var k := m / WORD_MAX;
      assert sum - 1 == (q + k) * WORD_MAX + m % WORD_MAX;
      DivModUnique(sum - 1, WORD_MAX, q + k, m % WORD_MAX);
    } else if sum > 0 {
      DivModUnique(sum - 1, WORD_MAX, 0, sum - 1);
    }
  }

  /** A value in the checksum field makes the folded sum all ones exactly when it
      is the complement of the folded rest, or the other form of zero. */
  lemma ChecksumIff(sum: nat, field: u16)
    ensures Fold(sum + field) == WORD_MAX <==>
      sum + field > 0 && (field == Complement(Fold(sum)) || (sum % WORD_MAX == 0 && field % WORD_MAX == 0))
  {
    FoldLater(sum, field);
    FoldZero(sum);
    FoldIs(Fold(sum) + field);
    hide Fold;
  }

  /** What is added to a sum may be added to the folded sum. */
  lemma FoldLater(sum: nat, more: nat)
    ensures Fold(sum + more) == Fold(Fold(sum) + more)
  {
    FoldIs(sum);
    FoldIs(sum + more);
    FoldIs(Fold(sum) + more);
    if sum > 0 {
      var (q, r) := ((sum - 1) / WORD_MAX, (sum - 1) % WORD_MAX);
      ModPeriod(r + more, q);
      assert sum + more - 1 == r + more + q * WORD_MAX;
    }
    hide Fold;
  }

  lemma FoldZero(sum: nat)
    ensures (sum % WORD_MAX == 0 <==> Fold(sum) % WORD_MAX == 0) && (sum == 0 <==> Fold(sum) == 0)
  {
    FoldIs(sum);
    if sum > 0 {
      var (q, r) := ((sum - 1) / WORD_MAX, (sum - 1) % WORD_MAX);
      ModPeriod(r + 1, q);
      assert sum == r + 1 + q * WORD_MAX;
    }
    hide Fold;
  }

  lemma ModPeriod(x: nat, k: nat)
    ensures (x + k * WORD_MAX) % WORD_MAX == x % WORD_MAX
  {
    DivModUnique(x + k * WORD_MAX, WORD_MAX, x / WORD_MAX + k, x % WORD_MAX);
  }

  // ----- sums of parts ---------------------------------------------------

  lemma {:induction false} WordSumBound(b: Bytes)
    ensures WordSum(b) <= WORD_MAX * ((|b| + 1) / 2)
  {
    if |b| >= 2 {
      WordSumBound(b[2..]);
    }
  }

  /** An even prefix sums apart from the rest. */
  lemma {:induction false} WordSumAppend(a: Bytes, b: Bytes)
    requires |a| % 2 == 0
    ensures WordSum(a + b) == WordSum(a) + WordSum(b)
  {
    if a == [] {
      assert a + b == b;
    } else {
      WordSumAppend(a[2..], b);
      assert (a + b)[2..] == a[2..] + b;
    }
  }

  /** b with a big-endian number at an even position. */
  function PutU16(b: Bytes, at: nat, v: u16): (r: Bytes)
    requires at + 2 <= |b|
    ensures |r| == |b| && U16At(r, at) == v
  {
    b[..at] + U16Bytes(v) + b[at + 2..]
  }

  lemma WordSumPut(b: Bytes, at: nat, v: u16)
    requires at + 2 <= |b| && at % 2 == 0
    ensures WordSum(PutU16(b, at, v)) == WordSum(b) - U16At(b, at) + v
  {
    var r := PutU16(b, at, v);
    PutFrame(b, at, v);
    hide WordSum, PutU16, U16At;
    SplitWord(b, at);
    SplitWord(r, at);
  }

  lemma PutFrame(b: Bytes, at: nat, v: u16)
    requires at + 2 <= |b|
    ensures var r := PutU16(b, at, v); r[..at] == b[..at] && r[at + 2..] == b[at + 2..]
  {
    hide U16Bytes, U16At;
  }

  lemma SplitWord(b: Bytes, at: nat)
    requires at + 2 <= |b| && at % 2 == 0
    ensures WordSum(b) == WordSum(b[..at]) + U16At(b, at) + WordSum(b[at + 2..])
    ensures WordSum(b[..at + 2]) == WordSum(b[..at]) + U16At(b, at)
  {
    assert b == b[..at] + b[at..] && b[at..][2..] == b[at + 2..] && U16At(b[at..], 0) == U16At(b, at);
    WordSumAppend(b[..at], b[at..]);
    var word := b[at..at + 2];
    assert b[..at + 2] == b[..at] + word && word[2..] == [] && U16At(word, 0) == U16At(b, at);
    WordSumAppend(b[..at], word);
  }

  // ----- the checksums of the source -------------------------------------

  type Ip = b: Bytes | |b| == 4 witness [0, 0, 0, 0]

  function PseudoHeader(src: Ip, dst: Ip, length: nat): (b: Bytes)
    ensures |b| == 12
  {
    src + dst + [0, 6] + U16Bytes(length)
  }

  /** calculateTCPChecksum, its uint32 accumulator included. */
  function TcpChecksum(src: Ip, dst: Ip, segment: Bytes): u16 {
    Complement(Fold(Wrap(WordSum(PseudoHeader(src, dst, |segment|)) + WordSum(segment))))
  }

  /** The accumulator does not overflow for any segment that fits an IP packet. */
  lemma NoOverflow(src: Ip, dst: Ip, segment: Bytes)
    requires |segment| <= 65535
    ensures TcpChecksum(src, dst, segment) ==
      Complement(Fold(WordSum(PseudoHeader(src, dst, |segment|)) + WordSum(segment)))
  {
    hide WordSum, Fold, Wrap, PseudoHeader, Complement;
    WordSumBound(segment);
    WordSumBound(PseudoHeader(src, dst, |segment|));
    assert |PseudoHeader(src, dst, |segment|)| == 12;
    assert WordSum(segment) <= WORD_MAX * 32768;
    WrapSmall(WordSum(PseudoHeader(src, dst, |segment|)) + WordSum(segment));
  }

  lemma WrapSmall(n: nat)
    requires n < MOD
    ensures Wrap(n) == n
  {
    DivModUnique(n, MOD, 0, n);
  }

  /** A segment with its checksum in place, and no other one up to the two forms
      of zero, sums with its pseudo-header to all ones: the receiver's test. */
  lemma TcpChecksumIff(src: Ip, dst: Ip, segment: Bytes, field: u16)
    requires 20 <= |segment| <= 65535 && U16At(segment, 16) == 0
    ensures var c := TcpChecksum(src, dst, segment);
      Fold(WordSum(PseudoHeader(src, dst, |segment|)) + WordSum(PutU16(segment, 16, field))) == WORD_MAX
      <==> field == c || (c == 0 && field == WORD_MAX)
  {
    hide WordSum, Fold;
    var sum := WordSum(PseudoHeader(src, dst, |segment|)) + WordSum(segment);
    NoOverflow(src, dst, segment);
    WordSumPut(segment, 16, field);
    ChecksumIff(sum, field);
    PseudoPositive(src, dst, |segment|);
    FoldIs(sum);
    ZeroForms(sum, field);
  }

  /** The protocol number keeps the sum positive. */
  lemma PseudoPositive(src: Ip, dst: Ip, length: nat)
    ensures WordSum(PseudoHeader(src, dst, length)) > 0
  {
    var b := PseudoHeader(src, dst, length);
    assert b[8] == 0 && b[9] == 6;
    SplitWord(b, 8);
  }

  lemma ZeroForms(sum: nat, field: u16)
    requires sum > 0
    ensures (sum - 1) % WORD_MAX + 1 == WORD_MAX <==> sum % WORD_MAX == 0
    ensures field % WORD_MAX == 0 <==> field == 0 || field == WORD_MAX
  {
    var (q, r) := ((sum - 1) / WORD_MAX, (sum - 1) % WORD_MAX);
    DivModUnique(sum, WORD_MAX, if r + 1 == WORD_MAX then q + 1 else q, if r + 1 == WORD_MAX then 0 else r + 1);
  }

  // ----- the loops -------------------------------------------------------

  /** Adds the words of b to the uint32 sum: the loop over pairs, then an odd byte. */
  method AddWords(start: u32, b: Bytes) returns (sum: u32)
    ensures sum == Wrap(start + WordSum(b))
  {
    hide WordSum, Wrap, U16At;
    sum := start;
    var i := 0;
    EmptySum();
    WrapSmall(start);
    assert b[..0] == [];
    while i < |b| - 1
      invariant 0 <= i <= |b| && i % 2 == 0
      invariant sum == Wrap(start + WordSum(b[..i]))
      decreases |b| - i
    {
      SplitWord(b, i);
      WrapSub(start + WordSum(b[..i]), U16At(b, i));
      sum := Wrap(sum + U16At(b, i));
      i := i + 2;
    }
    if |b| % 2 == 1 {
      var last: int := b[|b| - 1];
      OddByte(b);
      WrapSub(start + WordSum(b[..i]), last * 256);
      sum := Wrap(sum + last * 256);
    } else {
      assert b[..i] == b;
    }
  }

  lemma EmptySum()
    ensures WordSum([]) == 0
  {
  }

  lemma OddByte(b: Bytes)
    requires |b| % 2 == 1
    ensures var last: int := b[|b| - 1]; WordSum(b) == WordSum(b[..|b| - 1]) + last * 256
  {
    var tail := [b[|b| - 1]];
    assert b == b[..|b| - 1] + tail;
    WordSumAppend(b[..|b| - 1], tail);
    OneByte(b[|b| - 1]);
    hide WordSum;
  }

  lemma OneByte(last: byte)
    ensures var l: int := last; WordSum([last]) == l * 256
  {
  }

  method FoldLoop(start: u32) returns (sum: u16)
    ensures sum == Fold(start)
  {
    var s: u32 := start;
    while s > WORD_MAX
      invariant Fold(s) == Fold(start)
    {
      s := s / 0x10000 + s % 0x10000;
    }
    sum := s;
  }

  method CalculateTcpChecksum(src: Ip, dst: Ip, segment: Bytes) returns (c: u16)
    ensures c == TcpChecksum(src, dst, segment)
  {
    hide WordSum, Fold;
    var pseudo := PseudoHeader(src, dst, |segment|);
    var sum := AddWords(0, pseudo);
    WrapSub(WordSum(pseudo), WordSum(segment));
    sum := AddWords(sum, segment);
    var folded := FoldLoop(sum);
    c := Complement(folded);
  }
}
