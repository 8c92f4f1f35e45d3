/** What a client can check: it parses the server's four encrypted messages by
    section 4 of RFC 8446 and finds the certificate, a signature and a Finished
    over the transcripts of sections 4.4.1 to 4.4.4. */
module TlsClient {
  import opened Seq32
  import opened Wrappers
  import opened Wire
  import opened HelloModel
  import opened HelloGrammar
  import opened TlsFraming
  import opened TlsModel
  import opened TlsMessages
  import opened TlsHandshakeModel
  import opened TlsHandshake
  import opened TlsRecord

  // ----- parsers ---------------------------------------------------------

  function TakeVec24(b: Bytes): Parsed<(Bytes, Bytes)> {
    if |b| < 3 then Err(Truncated) else
    var a: int := b[0];
    TakeBytes(b[3..], a * 65536 + U16At(b, 1))
  }

  /** The one certificate of a chain of one without extensions. */
  function ReadCertificate(body: Bytes): Parsed<Bytes> {
    var (context, b1) :- TakeVec8(body);
    var (list, b2) :- TakeVec24(b1);
    var (cert, l1) :- TakeVec24(list);
    var (exts, l2) :- TakeVec16(l1);
    if context == [] && b2 == [] && exts == [] && l2 == [] then Ok(cert) else Err(TrailingBytes)
  }

  /** Scheme and signature. */
  function ReadCertificateVerify(body: Bytes): Parsed<(u16, Bytes)> {
    var (scheme, b1) :- TakeU16(body);
    var (signature, b2) :- TakeVec16(b1);
    if b2 == [] then Ok((scheme, signature)) else Err(TrailingBytes)
  }

  /** The block of extensions. */
  function ReadEncryptedExtensions(body: Bytes): Parsed<Bytes> {
    var (exts, rest) :- TakeVec16(body);
    if rest == [] then Ok(exts) else Err(TrailingBytes)
  }

  lemma Vec24Read(body: Bytes, rest: Bytes)
    requires |body| <= U24_MAX
    ensures TakeVec24(Vec24(body) + rest) == Ok((body, rest))
  {
    var (b, n) := (Vec24(body) + rest, |body|);
    assert b[..3] == U24Bytes(n) && b[3..] == body + rest;
    hide Vec24;
    U24Value(n);
    BytesIff(b[3..], |body|, body, rest);
  }

  lemma CertificateRoundTrip(cert: Certificate)
    ensures ReadCertificate(CertificateBody(cert)) == Ok(cert)
  {
    hide TakeVec8, TakeVec24, TakeVec16, Vec8, Vec16, Vec24;
    Vec24Width(cert);
    var list := Vec24(cert) + [0, 0];
    Vec24Read(cert, [0, 0]);
    Vec24Read(list, []);
    assert Vec24(list) + [] == Vec24(list);
    EmptyBlocks(Vec24(list));
    Vec8Iff(CertificateBody(cert), [], Vec24(list));
    Vec16Iff([0, 0], [], []);
  }

  lemma Vec24Width(body: Bytes)
    ensures |Vec24(body)| == 3 + |body|
  {
  }

  lemma EmptyBlocks(rest: Bytes)
    ensures [0] + rest == Vec8([]) + rest && [0, 0] == Vec16([]) + []
  {
  }

  lemma CertificateVerifyRoundTrip(signature: Signature)
    ensures ReadCertificateVerify(CertificateVerifyBody(signature)) == Ok((ECDSA_P256_SHA256, signature))
  {
    hide TakeU16, TakeVec16, Vec16, U16Bytes;
    U16Iff(CertificateVerifyBody(signature), ECDSA_P256_SHA256, Vec16(signature));
    assert Vec16(signature) + [] == Vec16(signature);
    Vec16Iff(Vec16(signature), signature, []);
  }

  lemma NoExtensions()
    ensures ReadEncryptedExtensions([0, 0]) == Ok([])
  {
    EmptyBlocks([]);
    Vec16Iff([0, 0], [], []);
  }

  // ----- the flight ------------------------------------------------------

  /** The body of a message of this type. */
  function BodyOf(msg: Bytes, typ: byte): Parsed<Bytes> {
    match ParseHandshake(msg)
    case None => Err(Truncated)
    case Some((t, body)) => if t == typ then Ok(body) else Err(TrailingBytes)
  }

  function ExtensionsIn(msg: Bytes): Parsed<Bytes> {
    var body :- BodyOf(msg, 8);
    ReadEncryptedExtensions(body)
  }

  function CertificateIn(msg: Bytes): Parsed<Bytes> {
    var body :- BodyOf(msg, 11);
    ReadCertificate(body)
  }

  function SignatureIn(msg: Bytes): Parsed<(u16, Bytes)> {
    var body :- BodyOf(msg, 15);
    ReadCertificateVerify(body)
  }

  /** What each of the four messages holds, given the transcript before them. */
  ghost predicate FlightHolds(flight: seq<Bytes>, before: Bytes, cert: Certificate, secrets: Secrets, x: Crypto) {
    && |flight| == 4
    && ExtensionsIn(flight[0]) == Ok([])
    && CertificateIn(flight[1]) == Ok(cert)
    && (exists signature: Signature ::
          && x.sign(x.hash(before + flight[0] + flight[1])) == Some(signature)
          && SignatureIn(flight[2]) == Ok((0x0403, signature)))
    && BodyOf(flight[3], 20) == Ok(x.verifyData(secrets.server, x.hash(before + Concat(flight[..3]))))
  }

  lemma FlightParses(cert: Certificate, s: Session, x: Crypto)
    requires Flies(cert, s, x)
    ensures FlightHolds(Flight(cert, s, x), s.transcript, cert, s.secrets, x)
  {
    hide MarshalHandshake, ParseHandshake, CertificateBody, CertificateVerifyBody, ReadCertificate,
      ReadCertificateVerify, ReadEncryptedExtensions;
    var flight := Flight(cert, s, x);
    var t2 := s.transcript + flight[0] + flight[1];
    ConcatThree(s.transcript, flight);
    var signature := x.sign(x.hash(t2)).value;
    CertificateWidth(cert, signature);
    HandshakeIff(flight[0], ENCRYPTED_EXTENSIONS, [0, 0]);
    HandshakeIff(flight[1], CERTIFICATE, CertificateBody(cert));
    HandshakeIff(flight[2], CERTIFICATE_VERIFY, CertificateVerifyBody(signature));
    HandshakeIff(flight[3], FINISHED, x.verifyData(s.secrets.server, x.hash(t2 + flight[2])));
    NoExtensions();
    CertificateRoundTrip(cert);
    CertificateVerifyRoundTrip(signature);
  }

  /** Before it, in the clear, the ChangeCipherSpec record of appendix D.4 of RFC 8446. */
  lemma CompatibilityRecord(k: Keys, flight: seq<Bytes>)
    requires |k.iv| == 12 && |flight| == 4
    ensures CanSend(true, FlightRecs(flight)[0])
    ensures SendRec(Some(k), FlightRecs(flight)[0]) == ([20, 3, 3, 0, 1, 1], Some(k))
  {
    assert U16Bytes(1) == [0, 1];
    assert Header(20, 1) + [1] == [20, 3, 3, 0, 1, 1];
  }

  lemma CertificateWidth(cert: Certificate, signature: Signature)
    ensures |CertificateBody(cert)| <= U24_MAX && |CertificateVerifyBody(signature)| <= U24_MAX
  {
  }

  lemma ConcatThree(before: Bytes, flight: seq<Bytes>)
    requires |flight| == 4
    ensures before + Concat(flight[..3]) == before + flight[0] + flight[1] + flight[2]
  {
    ConcatAppend([], flight[0]);
    ConcatAppend([flight[0]], flight[1]);
    ConcatAppend([flight[0], flight[1]], flight[2]);
    hide Concat;
    assert [] + [flight[0]] == [flight[0]] && [flight[0]] + [flight[1]] == [flight[0], flight[1]];
    assert flight[..3] == [flight[0], flight[1]] + [flight[2]];
  }

  /** Everything a client checks of a server that answers its hello: the secret comes
      from the first x25519 share it sent, the handshake secrets from the transcript of the two
      hellos, each message is over all that went before it, and so are the
      client's own Finished and the application secrets. */
  lemma ClientChecks(cert: Certificate, draws: Draws, x: Crypto, ch: Bytes)
    requires Greets(ch, draws) && Flies(cert, SessionOf(ch, draws, x), x)
    ensures var s := SessionOf(ch, draws, x);
      var flight := Flight(cert, s, x);
      var (hellos, all) := (ch + AnswerTo(ch, draws), ch + AnswerTo(ch, draws) + Concat(flight));
      && SharedFrom(ParseClientHello(ch[HEADER_LEN..]).value, draws, s.shared)
      && s.secrets == x.handshakeSecrets(s.shared, x.hash(hellos))
      && FlightHolds(flight, hellos, cert, s.secrets, x)
      && BodyOf(ClientFinished(cert, draws, x, ch), 20) == Ok(x.verifyData(s.secrets.client, x.hash(all)))
      && (forall c ::
            var app := x.applicationSecrets(s.shared, x.hash(all));
            Switched(c, FlownSession(cert, draws, x, ch), x)
            == c.(readKeys := Some(KeysFrom(app.client, x)), writeKeys := Some(KeysFrom(app.server, x))))
  {
    hide Greets, Flies, Flight, AnswerTo, MarshalHandshake, ParseHandshake, FlightHolds, Concat, X.Shared,
      ParseClientHello, KeysFrom;
    var s := SessionOf(ch, draws, x);
    FlightParses(cert, s, x);
    ShareIsFirst(ch, draws, x);
    HandshakeIff(ClientFinished(cert, draws, x, ch), FINISHED,
      x.verifyData(s.secrets.client, x.hash(FlownSession(cert, draws, x, ch).transcript)));
  }

  /** The secret of the server's key and the first x25519 share of the hello. */
  ghost predicate SharedFrom(h: ClientHello, draws: Draws, secret: Bytes) {
    exists i: nat :: IsFirst(h.keyShares, X25519_GROUP, i) && |h.keyShares[i].keyExchange| == 32
      && X.Shared(draws.serverPriv, h.keyShares[i].keyExchange) == Ok(secret)
  }

  lemma ShareIsFirst(ch: Bytes, draws: Draws, x: Crypto)
    requires Greets(ch, draws)
    ensures SharedFrom(ParseClientHello(ch[HEADER_LEN..]).value, draws, SessionOf(ch, draws, x).shared)
  {
    hide ParseClientHello, X.Shared, AnswerTo, FindKeyShare;
    var h := ParseClientHello(ch[HEADER_LEN..]).value;
    var i: nat :| IsFirst(h.keyShares, X25519_GROUP, i) && |h.keyShares[i].keyExchange| == 32;
    FindIff(h.keyShares, X25519_GROUP, h.keyShares[i].keyExchange);
  }
}
