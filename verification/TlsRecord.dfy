/** The TLS 1.3 record layer of tls/record.go (sections 5.1 to 5.4 of RFC 8446):
    record framing, the per-record nonce, sealing and opening. */
module TlsRecord {
  import opened Seq32
  import opened Wrappers
  import opened Bits
  import opened Wire

  const CHANGE_CIPHER_SPEC: byte := 20
  const ALERT: byte := 21
  const HANDSHAKE: byte := 22
  const APPLICATION_DATA: byte := 23

  const MAX_PLAINTEXT: int := 16384
  const MAX_CIPHERTEXT: int := 16640
  const OVERHEAD: int := 16
  const SEQ_MOD: int := 0x1_0000_0000_0000_0000

  type u64 = x: int | 0 <= x < 0x1_0000_0000_0000_0000

  datatype Error =
    | Eof | UnexpectedEof | RecordTooLarge | EmptyInnerPlaintext | OpenFailed
    | BadOuterType(typ: byte) | PeerAlert | UnexpectedRecord(typ: byte)

  /** An AEAD instance bound to its key. */
  datatype Aead = Aead(seal: (Bytes, Bytes, Bytes) -> Bytes, open: (Bytes, Bytes, Bytes) -> Option<Bytes>) {
    /** Opening inverts sealing under the same nonce and header; the tag is 16 bytes. */
    ghost predicate Lawful() {
      forall nonce: Bytes, aad: Bytes, plain: Bytes ::
        open(nonce, aad, seal(nonce, aad, plain)) == Some(plain) && |seal(nonce, aad, plain)| == |plain| + OVERHEAD
    }
  }

  /** One direction's keys: recordKeys. */
  datatype Keys = Keys(aead: Aead, iv: Bytes, seqNo: u64)

  // ----- framing ---------------------------------------------------------

  function Header(typ: byte, length: int): Bytes {
    [typ, 3, 3] + U16Bytes(length)
  }

  function WriteRecord(typ: byte, fragment: Bytes): Result<Bytes, Error> {
    if |fragment| > MAX_CIPHERTEXT then Err(RecordTooLarge) else Ok(Header(typ, |fragment|) + fragment)
  }

  /** io.ReadFull: the n next bytes and the rest of the stream. */
  function ReadFull(wire: Bytes, n: nat): Result<(Bytes, Bytes), Error> {
    if |wire| >= n then Ok((wire[..n], wire[n..]))
    else if wire == [] then Err(Eof) else Err(UnexpectedEof)
  }

  /** Header, fragment and the rest of the stream. */
  function ReadRecord(wire: Bytes): (r: Result<(Bytes, Bytes, Bytes), Error>)
    ensures r.Ok? ==> |r.value.0| == 5 && |r.value.2| < |wire|
    ensures r == Err(RecordTooLarge) ==> |wire| >= 5
  {
    var (header, rest) :- ReadFull(wire, 5);
    var length := U16At(header, 3);
    if length > MAX_CIPHERTEXT then Err(RecordTooLarge) else
    var (fragment, rest') :- ReadFull(rest, length);
    Ok((header, fragment, rest'))
  }

  /** Reading a framed fragment returns it and leaves what followed, for every
      length the writer accepts. */
  lemma FramingRoundTrip(typ: byte, fragment: Bytes, rest: Bytes)
    requires WriteRecord(typ, fragment).Ok?
    ensures ReadRecord(WriteRecord(typ, fragment).value + rest) == Ok((Header(typ, |fragment|), fragment, rest))
  {
    var wire := WriteRecord(typ, fragment).value + rest;
    assert wire[..5] == Header(typ, |fragment|);
    assert wire[5..] == fragment + rest;
    assert (fragment + rest)[..|fragment|] == fragment && (fragment + rest)[|fragment|..] == rest;
  }

  // ----- nonces ----------------------------------------------------------

  function XorBytes(a: Bytes, b: Bytes): (r: Bytes)
    requires |a| == |b|
    ensures |r| == |a| && forall i :: 0 <= i < |a| ==> r[i] == Xor(a[i], b[i])
  {
    if a == [] then [] else
    XorByte(a[0], b[0]);
    [Xor(a[0], b[0])] + XorBytes(a[1..], b[1..])
  }

  lemma XorByte(a: byte, b: byte)
    ensures Xor(a, b) < 256
  {
    Pow2Add(0, 8);
    XorBound(a, b, 8);
  }

  /** The sequence number, padded on the left to 12 bytes, XOR the static IV. */
  function NonceForSeq(iv: Bytes, seqNo: u64): (nonce: Bytes)
    requires |iv| == 12
    ensures |nonce| == 12
  {
    XorBytes([0, 0, 0, 0] + BeBytes(seqNo, 8), iv)
  }

  /** Distinct sequence numbers give distinct nonces. */
  lemma NonceInjective(iv: Bytes, m: u64, n: u64)
    requires |iv| == 12 && NonceForSeq(iv, m) == NonceForSeq(iv, n)
    ensures m == n
  {
    var a, b := BeBytes(m, 8), BeBytes(n, 8);
    forall i | 0 <= i < 8 ensures a[i] == b[i] {
      assert NonceForSeq(iv, m)[4 + i] == NonceForSeq(iv, n)[4 + i];
      XorCancels(a[i], iv[4 + i]);
      XorCancels(b[i], iv[4 + i]);
    }
    assert a == b;
    SeqValue(m);
    SeqValue(n);
  }

  lemma SeqValue(n: u64)
    ensures BeInt(BeBytes(n, 8)) == n
  {
    hide Pow2, BeBytes, BeInt;
    BeRoundTrip(n, 8);
    Pow2Add(8, 8);
    Pow2Add(16, 16);
    Pow2Add(32, 32);
    DivModUnique(n, Pow2(64), 0, n);
  }

  // ----- sealing ---------------------------------------------------------

  function NextSeq(seqNo: u64): u64 {
    (seqNo + 1) % SEQ_MOD
  }

  /** The wire record and the keys after it. */
  function SealRecord(k: Keys, innerType: byte, plaintext: Bytes): Result<(Bytes, Keys), Error>
    requires |k.iv| == 12
  {
    var inner := plaintext + [innerType];
    var length := |inner| + OVERHEAD;
    if length > MAX_CIPHERTEXT then Err(RecordTooLarge) else
    var header := Header(APPLICATION_DATA, length);
    Ok((header + k.aead.seal(NonceForSeq(k.iv, k.seqNo), header, inner), k.(seqNo := NextSeq(k.seqNo))))
  }

  /** The inner plaintext without its trailing zeros. */
  function StripZeros(inner: Bytes): (r: Bytes)
    ensures r <= inner && (r != [] ==> r[|r| - 1] != 0)
    ensures forall i :: |r| <= i < |inner| ==> inner[i] == 0
  {
    if inner != [] && inner[|inner| - 1] == 0 then StripZeros(inner[..|inner| - 1]) else inner
  }

  function OpenRecord(k: Keys, header: Bytes, ciphertext: Bytes): Result<(byte, Bytes, Keys), Error>
    requires |k.iv| == 12
  {
    match k.aead.open(NonceForSeq(k.iv, k.seqNo), header, ciphertext)
    case None => Err(OpenFailed)
    case Some(inner) =>
      var s := StripZeros(inner);
      if s == [] then Err(EmptyInnerPlaintext)
      else Ok((s[|s| - 1], s[..|s| - 1], k.(seqNo := NextSeq(k.seqNo))))
  }

  /** With equal keys on both ends, a sealed record passes the reader's limit and
      opens to its type and plaintext, both counters advance together, and
      nothing of the following bytes is touched. Type 0 alone is lost: it
      reads as padding. */
  lemma SealOpen(k: Keys, innerType: byte, plaintext: Bytes, rest: Bytes)
    requires |k.iv| == 12 && k.aead.Lawful() && |plaintext| <= MAX_CIPHERTEXT - OVERHEAD - 1
    ensures var sealed := SealRecord(k, innerType, plaintext);
      && sealed.Ok?
      && var r := ReadRecord(sealed.value.0 + rest);
      && r.Ok? && r.value.2 == rest && r.value.0[0] == APPLICATION_DATA
      && (OpenRecord(k, r.value.0, r.value.1) == Ok((innerType, plaintext, sealed.value.1)) <==> innerType != 0)
  {
    var inner := plaintext + [innerType];
    var header := Header(APPLICATION_DATA, |inner| + OVERHEAD);
    var body := k.aead.seal(NonceForSeq(k.iv, k.seqNo), header, inner);
    assert k.aead.open(NonceForSeq(k.iv, k.seqNo), header, body) == Some(inner);
    FramingRoundTrip(APPLICATION_DATA, body, rest);
    assert inner[..|inner| - 1] == plaintext;
    var s := StripZeros(inner);
    if innerType != 0 {
      assert s == inner;
    }
  }

  // ----- the loops of the source -----------------------------------------

  method NonceLoop(iv: Bytes, seqNo: u64) returns (nonce: Bytes)
    requires |iv| == 12
    ensures nonce == NonceForSeq(iv, seqNo)
  {
    var buf := new byte[12](i => 0);
    var be := BeBytes(seqNo, 8);
    for i := 0 to 8
      invariant forall j :: 0 <= j < 12 ==> buf[j] == if 4 <= j < 4 + i then be[j - 4] else 0
    {
      buf[4 + i] := be[i];
    }
    ghost var padded := buf[..];
    for i := 0 to 12
      invariant forall j :: 0 <= j < i ==> buf[j] == Xor(padded[j], iv[j])
      invariant forall j :: i <= j < 12 ==> buf[j] == padded[j]
    {
      XorByte(buf[i], iv[i]);
      buf[i] := Xor(buf[i], iv[i]);
    }
    nonce := buf[..];
    assert padded == [0, 0, 0, 0] + be;
  }

  /** recordKeys: the counter moves on every successful Seal or Open. */
  class RecordKeys {
    const aead: Aead
    const iv: Bytes
    var seqNo: u64

    ghost predicate Valid() {
      |iv| == 12
    }

    ghost function State(): Keys
      reads this
    {
      Keys(aead, iv, seqNo)
    }

    constructor (aead: Aead, iv: Bytes)
      requires |iv| == 12
      ensures Valid() && State() == Keys(aead, iv, 0)
    {
      this.aead, this.iv, seqNo := aead, iv, 0;
    }

    method Seal(innerType: byte, plaintext: Bytes) returns (r: Result<Bytes, Error>)
      requires Valid()
      modifies this
      ensures match SealRecord(old(State()), innerType, plaintext)
        case Ok((wire, k)) => r == Ok(wire) && State() == k
        case Err(e) => r == Err(e) && State() == old(State())
    {
      var inner := plaintext + [innerType];
      var ciphertextLen := |inner| + OVERHEAD;
      if ciphertextLen > MAX_CIPHERTEXT {
        return Err(RecordTooLarge);
      }
      var header := Header(APPLICATION_DATA, ciphertextLen);
      var nonce := NonceLoop(iv, seqNo);
      var sealed := aead.seal(nonce, header, inner);
      seqNo := NextSeq(seqNo);
      r := Ok(header + sealed);
    }

    method Open(header: Bytes, ciphertext: Bytes) returns (r: Result<(byte, Bytes), Error>)
      requires Valid()
      modifies this
      ensures match OpenRecord(old(State()), header, ciphertext)
        case Ok((typ, plaintext, k)) => r == Ok((typ, plaintext)) && State() == k
        case Err(e) => r == Err(e) && State() == old(State())
    {
      var nonce := NonceLoop(iv, seqNo);
      var result := aead.open(nonce, header, ciphertext);
      if result.None? {
        return Err(OpenFailed);
      }
      var inner := result.value;
      var end := |inner| - 1;
      while end >= 0 && inner[end] == 0
        invariant -1 <= end < |inner|
        invariant StripZeros(inner[..end + 1]) == StripZeros(inner)
      {
        assert inner[..end + 1][..end] == inner[..end];
        end := end - 1;
      }
      assert inner[..|inner|] == inner;
      if end < 0 {
        return Err(EmptyInnerPlaintext);
      }
      assert inner[..end + 1][..end] == inner[..end];
      seqNo := NextSeq(seqNo);
      r := Ok((inner[end], inner[..end]));
    }
  }
}
