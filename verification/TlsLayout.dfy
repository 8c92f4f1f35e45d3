/** What the record layer puts on the wire and takes off it, byte by byte, in
    the terms of sections 5.1 to 5.4 of RFC 8446. */
module TlsLayout {
  import opened Seq32
  import opened Wrappers
  import opened Bits
  import opened Wire
  import opened TlsRecord
  import M = TlsModel

  predicate AllZero(s: Bytes) {
    forall i :: 0 <= i < |s| ==> s[i] == 0
  }

  /** The nonce: the first four bytes are the IV's, and XOR of the rest with the
      IV's is the sequence number, big-endian. */
  lemma NonceLayout(iv: Bytes, n: u64)
    requires |iv| == 12
    ensures var nonce := NonceForSeq(iv, n);
      nonce[..4] == iv[..4] && BeInt(XorBytes(nonce[4..], iv[4..])) == n
  {
    var nonce, be := NonceForSeq(iv, n), BeBytes(n, 8);
    forall i | 0 <= i < 4 ensures nonce[i] == iv[i] {
      XorZero(iv[i]);
    }
    forall i | 0 <= i < 8 ensures Xor(nonce[4 + i], iv[4 + i]) == be[i] {
      XorCancels(be[i], iv[4 + i]);
    }
    assert XorBytes(nonce[4..], iv[4..]) == be;
    SeqValue(n);
  }

  /** A record is read exactly when the stream begins with five header bytes and
      as many more as the last two of them say, within the limit. */
  lemma FramingIff(wire: Bytes, header: Bytes, fragment: Bytes, rest: Bytes)
    ensures ReadRecord(wire) == Ok((header, fragment, rest)) <==>
      && wire == header + fragment + rest && |header| == 5
      && |fragment| == BeInt(header[3..5]) && |fragment| <= 16640
  {
    hide BeInt;
    if |wire| >= 5 {
      U16IsBe(wire[..5], 3);
      var length: nat := U16At(wire[..5], 3);
      assert wire == wire[..5] + wire[5..];
      if length <= |wire| - 5 {
        assert wire[5..] == wire[5..][..length] + wire[5..][length..];
      }
    }
    if wire == header + fragment + rest && |header| == 5 {
      assert wire[..5] == header && wire[5..] == fragment + rest;
      assert (fragment + rest)[..|fragment|] == fragment && (fragment + rest)[|fragment|..] == rest;
    }
  }

  /** A written record: its type, version 0x0303, the length of what follows. */
  lemma WrittenLayout(typ: byte, fragment: Bytes)
    ensures WriteRecord(typ, fragment).Err? <==> |fragment| > 16640
    ensures |fragment| <= 16640 ==> var wire := WriteRecord(typ, fragment).value;
      && |wire| == 5 + |fragment| && wire[5..] == fragment
      && wire[0] == typ && BeInt(wire[1..3]) == 0x0303 && BeInt(wire[3..5]) == |fragment|
  {
    if |fragment| <= MAX_CIPHERTEXT {
      var wire := WriteRecord(typ, fragment).value;
      U16IsBe(wire, 1);
      U16IsBe(wire, 3);
    }
  }

  /** The AEAD opens the fragment to these bytes under the nonce of the counter. */
  predicate Opens(k: Keys, header: Bytes, ciphertext: Bytes, inner: Bytes)
    requires |k.iv| == 12
  {
    k.aead.open(NonceForSeq(k.iv, k.seqNo), header, ciphertext) == Some(inner)
  }

  /** A sealed record is an application data record around the plaintext with its
      type behind it, sealed under the nonce of the counter with the header as
      additional data; the counter moves by one. */
  lemma SealedLayout(k: Keys, innerType: byte, plaintext: Bytes)
    requires |k.iv| == 12 && k.aead.Lawful()
    ensures SealRecord(k, innerType, plaintext) == Err(RecordTooLarge) <==> |plaintext| + 17 > 16640
    ensures |plaintext| + 17 <= 16640 ==> var r := SealRecord(k, innerType, plaintext);
      && r.Ok? && var (wire, k1) := r.value;
      && WriteRecord(APPLICATION_DATA, wire[5..]) == Ok(wire)
      && Opens(k, wire[..5], wire[5..], plaintext + [innerType])
      && wire[5..] == k.aead.seal(NonceForSeq(k.iv, k.seqNo), wire[..5], plaintext + [innerType])
      && k1 == k.(seqNo := (k.seqNo + 1) % 0x1_0000_0000_0000_0000)
  {
    hide NonceForSeq;
    var inner := plaintext + [innerType];
    var (header, nonce) := (Header(APPLICATION_DATA, |inner| + OVERHEAD), NonceForSeq(k.iv, k.seqNo));
    var wire := header + k.aead.seal(nonce, header, inner);
    assert k.aead.open(nonce, header, k.aead.seal(nonce, header, inner)) == Some(inner);
    assert wire[..5] == header && wire[5..] == k.aead.seal(nonce, header, inner);
  }

  /** Opening gives a type and plaintext exactly when what the AEAD opens is the
      plaintext, the nonzero type and any zeros; the counter then moves by one. */
  lemma OpenIff(k: Keys, header: Bytes, ciphertext: Bytes, typ: byte, plaintext: Bytes)
    requires |k.iv| == 12
    ensures OpenRecord(k, header, ciphertext) == Ok((typ, plaintext, k.(seqNo := NextSeq(k.seqNo)))) <==>
      typ != 0 && exists pad :: AllZero(pad) && Opens(k, header, ciphertext, plaintext + [typ] + pad)
  {
    hide NonceForSeq, NextSeq;
    var result := k.aead.open(NonceForSeq(k.iv, k.seqNo), header, ciphertext);
    if OpenRecord(k, header, ciphertext) == Ok((typ, plaintext, k.(seqNo := NextSeq(k.seqNo)))) {
      var inner := result.value;
      var s := StripZeros(inner);
      assert inner == s + inner[|s|..] && s == s[..|s| - 1] + [s[|s| - 1]];
      assert AllZero(inner[|s|..]);
    }
    if pad :| AllZero(pad) && typ != 0 && Opens(k, header, ciphertext, plaintext + [typ] + pad) {
      Stripped(plaintext + [typ], pad);
    }
  }

  lemma Stripped(s: Bytes, pad: Bytes)
    requires AllZero(pad) && (s != [] ==> s[|s| - 1] != 0)
    ensures StripZeros(s + pad) == s
  {
    var r := StripZeros(s + pad);
    assert s == (s + pad)[..|s|];
  }

  /** What opens to nothing but zeros, or does not open, is refused. */
  lemma OpenRefused(k: Keys, header: Bytes, ciphertext: Bytes)
    requires |k.iv| == 12
    ensures var (r, result) := (OpenRecord(k, header, ciphertext),
                                k.aead.open(NonceForSeq(k.iv, k.seqNo), header, ciphertext));
      && (r == Err(OpenFailed) <==> result.None?)
      && (r == Err(EmptyInnerPlaintext) <==> result.Some? && AllZero(result.value))
  {
    hide NonceForSeq, NextSeq;
    var result := k.aead.open(NonceForSeq(k.iv, k.seqNo), header, ciphertext);
    if result.Some? && AllZero(result.value) {
      assert [] + result.value == result.value;
      Stripped([], result.value);
    }
  }

  /** A handshake message announces the length of its body in three bytes. */
  lemma MessageLength(msg: Bytes)
    requires |msg| >= 4
    ensures M.BodyLen(msg) == BeInt(msg[1..4])
  {
    var three := msg[1..4];
    U16IsBe(three, 0);
    assert three[..2] == three[0..2] && three == three[..2] + [msg[3]];
    hide BeInt;
    LastByte(three);
  }

  lemma LastByte(bytes: Bytes)
    requires bytes != []
    ensures BeInt(bytes) == 256 * BeInt(bytes[..|bytes| - 1]) + bytes[|bytes| - 1]
  {
  }
}
