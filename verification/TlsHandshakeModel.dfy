/** The server's handshake of tls/handshake.go on values: ClientHello in,
    ServerHello out, first key switch, the encrypted flight, the client's
    Finished, second key switch. */
module TlsHandshakeModel {
  import opened Seq32
  import opened Wrappers
  import opened TlsRecord
  import opened Wire
  import opened TlsModel
  import opened TlsMessages
  import opened HelloModel
  import X = X25519

  type Iv = b: Bytes | |b| == 12 witness X.Zeros(12)
  type Digest = b: Bytes | |b| == 32 witness X.Zeros(32)
  type Certificate = b: Bytes | |b| + 9 <= U24_MAX
  type Signature = b: Bytes | |b| <= 0xFFFF

  datatype Secrets = Secrets(client: Bytes, server: Bytes)

  /** The library calls: transcript hash, the two stages of the key schedule,
      Finished values, traffic keys and the certificate's signing key. */
  datatype Crypto = Crypto(
    hash: Bytes -> Bytes,
    handshakeSecrets: (Bytes, Bytes) -> Secrets,
    applicationSecrets: (Bytes, Bytes) -> Secrets,
    verifyData: (Bytes, Bytes) -> Digest,
    aeadFor: Bytes -> Aead,
    ivFor: Bytes -> Iv,
    sign: Bytes -> Option<Signature>)

  /** The random draws of one handshake. */
  datatype Draws = Draws(serverPriv: X.Key, serverRandom: X.Key)

  datatype HsError =
    | NoIdentity | Io(io: Error) | WrongMessage(typ: byte) | BadHello(hello: HelloError)
    | Unsupported(policy: PolicyError) | ZeroShared | SignFailed | FinishedMismatch | LeftoverBytes

  /** A step's connection, with its result or the error that ends the handshake. */
  datatype Outcome<+T> = Done(conn: Conn, value: T) | Fail(conn: Conn, error: HsError) {
    predicate IsFailure() { Fail? }
    function PropagateFailure<U>(): Outcome<U>
      requires Fail?
    {
      Fail(conn, error)
    }
    function Extract(): (Conn, T)
      requires Done?
    {
      (conn, value)
    }
  }

  /** What the handshake carries along: the transcript so far and the ECDHE secret. */
  datatype Session = Session(transcript: Bytes, shared: Bytes, secrets: Secrets)

  /** newRecordKeysFromSecret: fresh keys start at sequence number 0. */
  function KeysFrom(secret: Bytes, x: Crypto): (k: Keys)
    ensures |k.iv| == 12 && k.seqNo == 0
  {
    Keys(x.aeadFor(secret), x.ivFor(secret), 0)
  }

  // ----- the messages ----------------------------------------------------

  function ServerHelloMsg(sessionId: Bytes, draws: Draws): Bytes
    requires |sessionId| <= 32
  {
    MarshalHandshake(SERVER_HELLO, ServerHello(draws.serverRandom, sessionId,
      X.Product(draws.serverPriv, X.BASE_POINT)))
  }

  function EncryptedExtensionsMsg(): Bytes {
    MarshalHandshake(ENCRYPTED_EXTENSIONS, [0, 0])
  }

  function CertificateMsg(cert: Certificate): Bytes {
    MarshalHandshake(CERTIFICATE, CertificateBody(cert))
  }

  function CertificateVerifyMsg(signature: Signature): Bytes {
    MarshalHandshake(CERTIFICATE_VERIFY, CertificateVerifyBody(signature))
  }

  function FinishedMsg(verify: Digest): Bytes {
    MarshalHandshake(FINISHED, verify)
  }

  // ----- the steps -------------------------------------------------------

  function Receive(c: Conn): (r: Outcome<Bytes>)
    requires c.Valid()
    ensures r.conn.Valid() && (r.Done? ==> |r.value| >= HEADER_LEN)
  {
    match ReadMessage(c)
    case (c1, Ok(msg)) => Done(c1, msg)
    case (c1, Err(e)) => Fail(c1, Io(e))
  }

  function WritePlain(c: Conn, typ: byte, msg: Bytes): (r: Outcome<()>)
    requires c.Valid()
    ensures r.conn.Valid() && r.conn.writeKeys == c.writeKeys
  {
    match WriteRecord(typ, msg)
    case Err(e) => Fail(c, Io(e))
    case Ok(wire) => Done(c.(out := c.out + wire), ())
  }

  function WriteSealed(c: Conn, msg: Bytes): (r: Outcome<()>)
    requires c.Valid() && c.writeKeys.Some?
    ensures r.conn.Valid() && r.conn.writeKeys.Some?
  {
    match SealRecord(c.writeKeys.value, HANDSHAKE, msg)
    case Err(e) => Fail(c, Io(e))
    case Ok((wire, k)) => Done(c.(out := c.out + wire, writeKeys := Some(k)), ())
  }

  /** Steps 1 to 4: up to the handshake-traffic keys. */
  function Greet(c: Conn, draws: Draws, x: Crypto): (r: Outcome<Session>)
    requires c.Valid()
    ensures r.conn.Valid() && (r.Done? ==> r.conn.writeKeys.Some?)
  {
    var (c1, ch) :- Receive(c);
    if ch[0] != CLIENT_HELLO then Fail(c1, WrongMessage(ch[0])) else
    var parsed := ParseClientHello(ch[HEADER_LEN..]);
    if parsed.Err? then Fail(c1, BadHello(parsed.error)) else
    var hello := parsed.value;
    if Policy(hello).Some? then Fail(c1, Unsupported(Policy(hello).value)) else
    var shared := X.Shared(draws.serverPriv, FindKeyShare(hello.keyShares, X25519_GROUP));
    if shared.Err? then Fail(c1, ZeroShared) else
    SessionIdFits(ch[HEADER_LEN..]);
    var sh := ServerHelloMsg(hello.sessionId, draws);
    var (c2, _) :- WritePlain(c1, HANDSHAKE, sh);
    var transcript := ch + sh;
    var secrets := x.handshakeSecrets(shared.value, x.hash(transcript));
    Done(c2.(readKeys := Some(KeysFrom(secrets.client, x)), writeKeys := Some(KeysFrom(secrets.server, x))),
         Session(transcript, shared.value, secrets))
  }

  /** The session id length that appendU8Vector relies on. */
  lemma SessionIdFits(body: Bytes)
    requires ParseClientHello(body).Ok?
    ensures |ParseClientHello(body).value.sessionId| <= 32
  {
    hide TakeU16, TakeBytes, TakeVec8, TakeVec16, U16s, ParseExtensions;
    var (version, b1) := TakeU16(body).value;
    var (random, b2) := TakeBytes(b1, 32).value;
    var (sid, b3) := TakeVec8(b2).value;
    var (cs, b4) := TakeVec16(b3).value;
    var (comp, b5) := TakeVec8(b4).value;
    var (exts, b6) := TakeVec16(b5).value;
    ExtensionsKeep(exts, {}, ClientHello(version, random, sid, U16s(cs), [], [], [], [], []));
  }

  /** Extensions leave the fixed fields alone. */
  lemma {:induction false} ExtensionsKeep(b: Bytes, seen: set<u16>, out: ClientHello)
    requires ParseExtensions(b, seen, out).Ok?
    ensures var r := ParseExtensions(b, seen, out).value;
      r.legacyVersion == out.legacyVersion && r.random == out.random && r.sessionId == out.sessionId
      && r.cipherSuites == out.cipherSuites
    decreases |b|
  {
    if b != [] {
      var (typ, rest) := TakeU16(b).value;
      var (data, rest') := TakeVec16(rest).value;
      ExtensionsKeep(rest', seen + {typ}, ApplyExt(typ, data, out).value);
    }
  }

  /** Steps 5 to 9: ChangeCipherSpec and the four encrypted messages; the first
      two writes are small constants and cannot fail. */
  function SendFlight(c: Conn, cert: Certificate, s: Session, x: Crypto): (r: Outcome<Session>)
    requires c.Valid() && c.writeKeys.Some?
    ensures r.conn.Valid()
  {
    var ee := EncryptedExtensionsMsg();
    var c1 := WriteSealed(WritePlain(c, CHANGE_CIPHER_SPEC, [1]).conn, ee).conn;
    var cm := CertificateMsg(cert);
    var (c2, _) :- WriteSealed(c1, cm);
    var t2 := s.transcript + ee + cm;
    var signature := x.sign(x.hash(t2));
    if signature.None? then Fail(c2, SignFailed) else
    var cv := CertificateVerifyMsg(signature.value);
    var (c3, _) :- WriteSealed(c2, cv);
    var fin := FinishedMsg(x.verifyData(s.secrets.server, x.hash(t2 + cv)));
    var (c4, _) :- WriteSealed(c3, fin);
    Done(c4, s.(transcript := t2 + cv + fin))
  }

  /** Steps 10 to 12: the client's Finished and the application-traffic keys. */
  function Finish(c: Conn, s: Session, x: Crypto): (r: Outcome<()>)
    requires c.Valid()
    ensures r.conn.Valid()
  {
    var sum := x.hash(s.transcript);
    var (c1, msg) :- Receive(c);
    if msg[0] != FINISHED then Fail(c1, WrongMessage(msg[0])) else
    if msg[HEADER_LEN..] != x.verifyData(s.secrets.client, sum) then Fail(c1, FinishedMismatch) else
    var app := x.applicationSecrets(s.shared, sum);
    var c2 := c1.(readKeys := Some(KeysFrom(app.client, x)), writeKeys := Some(KeysFrom(app.server, x)));
    if c2.hsBuf != [] then Fail(c2, LeftoverBytes) else Done(c2, ())
  }

  function RunHandshake(c: Conn, identity: Option<Certificate>, draws: Draws, x: Crypto): (r: Outcome<()>)
    requires c.Valid()
    ensures r.conn.Valid()
  {
    if identity.None? then Fail(c, NoIdentity) else
    var (c1, s) :- Greet(c, draws, x);
    var (c2, s') :- SendFlight(c1, identity.value, s, x);
    Finish(c2, s', x)
  }
}
