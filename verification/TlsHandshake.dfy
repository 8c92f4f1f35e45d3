/** The whole handshake: exactly when it completes, what it leaves behind, and
    what the client reads. */
module TlsHandshake {
  import opened Seq32
  import opened Wrappers
  import opened TlsRecord
  import opened Wire
  import opened TlsModel
  import opened TlsFraming
  import opened TlsMessages
  import opened HelloModel
  import opened TlsHandshakeModel

  // ----- receiving exactly -----------------------------------------------

  /** Handshake records whose last byte is a handshake byte. */
  predicate EndsFull(recs: seq<Rec>) {
    HandshakeOnly(recs) && recs != [] && recs[|recs| - 1].typ == HANDSHAKE && recs[|recs| - 1].data != []
  }

  lemma {:induction false} FullHasBytes(recs: seq<Rec>)
    requires EndsFull(recs)
    ensures HandshakeBytes(recs) != []
  {
    if |recs| > 1 {
      FullHasBytes(recs[1..]);
    }
  }

  /** Messages sent in records of their own are all received, and the transport
      and the keys stand exactly behind them. */
  lemma ReceiveAll(c: Conn, k: Option<Keys>, recs: seq<Rec>, rest: Bytes, msgs: seq<Bytes>)
    requires c.Valid() && c.readKeys == k && (k.Some? ==> k.value.aead.Lawful())
    requires KeysOk(k) && (forall r :: r in recs ==> CanSend(k.Some?, r)) && EndsFull(recs)
    requires c.hsBuf == [] && c.raw == SendAll(k, recs).0 + rest
    requires AllMessages(msgs) && HandshakeBytes(recs) == Concat(msgs)
    ensures ReadMessages(c, |msgs|) == (c.(raw := rest, readKeys := SendAll(k, recs).1), msgs)
  {
    hide ReadMessage, HandshakeBytes, Concat, SendAll, IsMessage, ReadMessages, Yields, CanSend, AllMessages;
    YieldsSent(c, k, recs, rest);
    assert Concat(msgs) + [] == Concat(msgs);
    assert [] + HandshakeBytes(recs) == HandshakeBytes(recs);
    var j := MessagesThrough(c, recs, rest, SendAll(k, recs).1, msgs, []);
    if j < |recs| {
      FullSuffix(recs, j);
      assert false;
    }
    ReadMessagesFrame(c, |msgs|);
    NothingLeft(ReadMessages(c, |msgs|).0, recs[j..], rest, SendAll(k, recs).1);
  }

  lemma FullSuffix(recs: seq<Rec>, j: nat)
    requires EndsFull(recs) && j < |recs|
    ensures HandshakeBytes(recs[j..]) != []
  {
    FullHasBytes(recs[j..]);
  }

  lemma NothingLeft(c: Conn, recs: seq<Rec>, rest: Bytes, keys: Option<Keys>)
    requires c.Valid() && recs == [] && Yields(c, recs, rest, keys)
    ensures HandshakeBytes(recs) == [] && c.raw == rest && c.readKeys == keys
  {
  }

  lemma {:induction false} ReadMessagesFrame(c: Conn, n: nat)
    requires c.Valid()
    ensures var d := ReadMessages(c, n).0; d.out == c.out && d.writeKeys == c.writeKeys && d.inAppData == c.inAppData
    decreases n
  {
    hide ReadMessage;
    if n > 0 && ReadMessage(c).1.Ok? {
      ReadMessagesFrame(ReadMessage(c).0, n - 1);
    }
  }

  /** Records up to the one that completes the message, and the bytes that one
      carries behind it; `buf` is what the buffer held before. */
  predicate Completes(buf: Bytes, recs: seq<Rec>, msg: Bytes, tail: Bytes) {
    && HandshakeOnly(recs) && IsMessage(msg)
    && buf + HandshakeBytes(recs) == msg + tail
    && (recs != [] ==> |buf + HandshakeBytes(recs[..|recs| - 1])| < |msg|)
  }

  lemma {:induction false} HandshakeSplit(recs: seq<Rec>, j: nat)
    requires j <= |recs|
    ensures HandshakeBytes(recs) == HandshakeBytes(recs[..j]) + HandshakeBytes(recs[j..])
    decreases j
  {
    if j > 0 {
      HandshakeSplit(recs[1..], j - 1);
      assert recs[..j][1..] == recs[1..][..j - 1] && recs[j..] == recs[1..][j - 1..];
      Assoc(if recs[0].typ == HANDSHAKE then recs[0].data else [], HandshakeBytes(recs[1..][..j - 1]),
        HandshakeBytes(recs[j..]));
    } else {
      assert recs[0..] == recs;
    }
  }

  /** A message completed by a prefix of the records was completed by all of them only at the end. */
  lemma CompletedAtEnd(buf: Bytes, recs: seq<Rec>, msg: Bytes, tail: Bytes, j: nat, left: Bytes)
    requires Completes(buf, recs, msg, tail) && j <= |recs| && left + HandshakeBytes(recs[j..]) == tail
    ensures j == |recs|
  {
    hide HandshakeBytes, IsMessage, HandshakeOnly;
    HandshakeSplit(recs, j);
    if j < |recs| {
      InitLonger(recs, j);
    }
  }

  lemma InitLonger(recs: seq<Rec>, j: nat)
    requires j < |recs|
    ensures |HandshakeBytes(recs[..j])| <= |HandshakeBytes(recs[..|recs| - 1])|
  {
    var init := recs[..|recs| - 1];
    HandshakeSplit(init, j);
    assert init[..j] == recs[..j];
  }

  /** The message is received, nothing is read behind the record that completes
      it, and exactly that record's remaining bytes stay in the buffer. */
  lemma ReceiveWith(c: Conn, k: Option<Keys>, recs: seq<Rec>, rest: Bytes, msg: Bytes, tail: Bytes)
    requires c.Valid() && c.readKeys == k && (k.Some? ==> k.value.aead.Lawful())
    requires KeysOk(k) && (forall r :: r in recs ==> CanSend(k.Some?, r)) && Completes(c.hsBuf, recs, msg, tail)
    requires c.raw == SendAll(k, recs).0 + rest
    ensures Receive(c) == Done(c.(raw := rest, readKeys := SendAll(k, recs).1, hsBuf := tail), msg)
  {
    hide ReadMessage, HandshakeBytes, SendAll, IsMessage, Yields, CanSend;
    YieldsSent(c, k, recs, rest);
    var j := NextMessage(c, recs, rest, SendAll(k, recs).1, msg, tail);
    var d := ReadMessage(c).0;
    CompletedAtEnd(c.hsBuf, recs, msg, tail, j, d.hsBuf);
    NothingLeft(d, recs[j..], rest, SendAll(k, recs).1);
    assert d.hsBuf + [] == d.hsBuf;
  }

  /** Whatever is received announces exactly its body. */
  lemma {:induction false} ReceivedIsMessage(c: Conn)
    requires c.Valid() && ReadMessage(c).1.Ok?
    ensures IsMessage(ReadMessage(c).1.value)
    decreases |c.raw|
  {
    hide ReadRec;
    if TakeMessage(c.hsBuf).None? {
      var (c1, r) := ReadRec(c);
      if r.Ok? && r.value.typ == CHANGE_CIPHER_SPEC {
        ReceivedIsMessage(c1);
      } else if r.Ok? && r.value.typ == HANDSHAKE {
        ReceivedIsMessage(c1.(hsBuf := c1.hsBuf + r.value.data));
      }
    }
  }

  // ----- the server's messages -------------------------------------------

  /** The share that goes into the secret. */
  function ShareOf(h: ClientHello): X.Key
    requires Acceptable(h)
  {
    PolicyIff(h);
    FindKeyShare(h.keyShares, X25519_GROUP)
  }

  /** The hello is one this server can answer. */
  ghost predicate Greets(ch: Bytes, draws: Draws) {
    && |ch| >= HEADER_LEN && ch[0] == CLIENT_HELLO
    && ParseClientHello(ch[HEADER_LEN..]).Ok?
    && var hello := ParseClientHello(ch[HEADER_LEN..]).value;
      Acceptable(hello) && X.Shared(draws.serverPriv, ShareOf(hello)).Ok?
  }

  /** The ServerHello that answers it. */
  function AnswerTo(ch: Bytes, draws: Draws): Bytes
    requires Greets(ch, draws)
  {
    SessionIdFits(ch[HEADER_LEN..]);
    ServerHelloMsg(ParseClientHello(ch[HEADER_LEN..]).value.sessionId, draws)
  }

  function SessionOf(ch: Bytes, draws: Draws, x: Crypto): Session
    requires Greets(ch, draws)
  {
    var hello := ParseClientHello(ch[HEADER_LEN..]).value;
    var shared := X.Shared(draws.serverPriv, ShareOf(hello)).value;
    var transcript := ch + AnswerTo(ch, draws);
    Session(transcript, shared, x.handshakeSecrets(shared, x.hash(transcript)))
  }

  /** The certificate fits a record and the transcript up to it can be signed. */
  predicate Flies(cert: Certificate, s: Session, x: Crypto) {
    && |cert| <= MAX_CIPHERTEXT - OVERHEAD - 14
    && var signature := x.sign(x.hash(s.transcript + EncryptedExtensionsMsg() + CertificateMsg(cert)));
      signature.Some? && |signature.value| <= MAX_CIPHERTEXT - OVERHEAD - 9
  }

  /** EncryptedExtensions, Certificate, CertificateVerify, Finished. */
  function Flight(cert: Certificate, s: Session, x: Crypto): (msgs: seq<Bytes>)
    requires Flies(cert, s, x)
    ensures |msgs| == 4
  {
    var t2 := s.transcript + EncryptedExtensionsMsg() + CertificateMsg(cert);
    var cv := CertificateVerifyMsg(x.sign(x.hash(t2)).value);
    [EncryptedExtensionsMsg(), CertificateMsg(cert), cv, FinishedMsg(x.verifyData(s.secrets.server, x.hash(t2 + cv)))]
  }

  /** The transcript once the flight is out. */
  function AfterFlight(cert: Certificate, s: Session, x: Crypto): Bytes
    requires Flies(cert, s, x)
  {
    s.transcript + Concat(Flight(cert, s, x))
  }

  function FlightRecs(flight: seq<Bytes>): seq<Rec>
    requires |flight| == 4
  {
    [Rec(CHANGE_CIPHER_SPEC, [1]), Rec(HANDSHAKE, flight[0]), Rec(HANDSHAKE, flight[1]),
     Rec(HANDSHAKE, flight[2]), Rec(HANDSHAKE, flight[3])]
  }

  lemma MarshalIsMessage(typ: byte, body: Bytes)
    requires |body| <= U24_MAX
    ensures IsMessage(MarshalHandshake(typ, body)) && |MarshalHandshake(typ, body)| == 4 + |body|
    ensures MarshalHandshake(typ, body)[0] == typ
  {
    HandshakeIff(MarshalHandshake(typ, body), typ, body);
  }

  lemma AnswerFits(ch: Bytes, draws: Draws)
    requires Greets(ch, draws)
    ensures IsMessage(AnswerTo(ch, draws)) && 4 <= |AnswerTo(ch, draws)| <= 122
    ensures AnswerTo(ch, draws)[0] == SERVER_HELLO
    ensures ReadServerHello(AnswerTo(ch, draws)[HEADER_LEN..])
      == Ok((draws.serverRandom, ParseClientHello(ch[HEADER_LEN..]).value.sessionId,
        X.Product(draws.serverPriv, X.BASE_POINT)))
  {
    hide ParseClientHello, ServerHello, X.Product, ReadServerHello, Acceptable, X.Shared, X.Zeros;
    var sid := ParseClientHello(ch[HEADER_LEN..]).value.sessionId;
    SessionIdFits(ch[HEADER_LEN..]);
    var share := X.Product(draws.serverPriv, X.BASE_POINT);
    ServerHelloRoundTrip(draws.serverRandom, sid, share);
    var body := ServerHello(draws.serverRandom, sid, share);
    MarshalIsMessage(SERVER_HELLO, body);
    assert AnswerTo(ch, draws)[4..] == body;
  }

  lemma FlightFits(cert: Certificate, s: Session, x: Crypto)
    requires Flies(cert, s, x)
    ensures AllMessages(Flight(cert, s, x))
    ensures forall i :: 0 <= i < 4 ==> 0 < |Flight(cert, s, x)[i]| <= MAX_CIPHERTEXT - OVERHEAD - 1
  {
    hide IsMessage;
    var flight := Flight(cert, s, x);
    MarshalIsMessage(ENCRYPTED_EXTENSIONS, [0, 0]);
    MarshalIsMessage(CERTIFICATE, CertificateBody(cert));
    var t2 := s.transcript + EncryptedExtensionsMsg() + CertificateMsg(cert);
    MarshalIsMessage(CERTIFICATE_VERIFY, CertificateVerifyBody(x.sign(x.hash(t2)).value));
    MarshalIsMessage(FINISHED, x.verifyData(s.secrets.server, x.hash(t2 + flight[2])));
  }

  // ----- the three stages ------------------------------------------------

  /** A server connection before the handshake. */
  predicate Untouched(c: Conn) {
    c.readKeys == None && c.writeKeys == None && c.hsBuf == []
  }

  /** The first stage on any wire at all. */
  lemma GreetAny(c: Conn, draws: Draws, x: Crypto)
    requires c.Valid()
    ensures var r := Receive(c);
      && (Greet(c, draws, x).Done? <==> r.Done? && Greets(r.value, draws))
      && (r.Done? && Greets(r.value, draws) ==>
            var s := SessionOf(r.value, draws, x);
            && CanSend(false, Rec(HANDSHAKE, AnswerTo(r.value, draws)))
            && Greet(c, draws, x) == Done(r.conn.(out := r.conn.out
              + SendRec(None, Rec(HANDSHAKE, AnswerTo(r.value, draws))).0,
                 readKeys := Some(KeysFrom(s.secrets.client, x)), writeKeys := Some(KeysFrom(s.secrets.server, x))), s))
  {
    hide ParseClientHello, X.Shared, X.Product, Acceptable, Receive, ServerHelloMsg;
    var ch := if Receive(c).Done? then Receive(c).value[HEADER_LEN..] else [];
    if ParseClientHello(ch).Ok? {
      PolicyIff(ParseClientHello(ch).value);
    }
    if Receive(c).Done? && Greets(Receive(c).value, draws) {
      AnswerFits(Receive(c).value, draws);
    }
  }

  lemma GreetExact(c: Conn, draws: Draws, x: Crypto, ch: Bytes, recs: seq<Rec>, early: Bytes, rest: Bytes)
    requires Untouched(c) && Completes([], recs, ch, early)
    requires (forall r :: r in recs ==> CanSend(false, r)) && c.raw == SendAll(None, recs).0 + rest
    ensures Greet(c, draws, x).Done? <==> Greets(ch, draws)
    ensures Greets(ch, draws) ==>
      var s := SessionOf(ch, draws, x);
      && CanSend(false, Rec(HANDSHAKE, AnswerTo(ch, draws)))
      && Greet(c, draws, x) == Done(c.(raw := rest, hsBuf := early,
           out := c.out + SendRec(None, Rec(HANDSHAKE, AnswerTo(ch, draws))).0,
           readKeys := Some(KeysFrom(s.secrets.client, x)), writeKeys := Some(KeysFrom(s.secrets.server, x))), s)
  {
    hide Greet, Greets, SessionOf, AnswerTo, Receive, SendAll, SendRec, Completes;
    ReceiveWith(c, None, recs, rest, ch, early);
    PlainKeys(recs);
    GreetAny(c, draws, x);
  }

  lemma {:induction false} PlainKeys(recs: seq<Rec>)
    requires forall r :: r in recs ==> CanSend(false, r)
    ensures SendAll(None, recs).1 == None
  {
  }

  /** Sealing one message is sending one handshake record. */
  lemma SealedIsSent(c: Conn, msg: Bytes)
    requires c.Valid() && c.writeKeys.Some?
    ensures WriteSealed(c, msg).Done? <==> |msg| <= MAX_CIPHERTEXT - OVERHEAD - 1
    ensures WriteSealed(c, msg).Done? ==>
      && CanSend(true, Rec(HANDSHAKE, msg))
      && var (wire, k) := SendRec(c.writeKeys, Rec(HANDSHAKE, msg));
      WriteSealed(c, msg) == Done(c.(out := c.out + wire, writeKeys := k), ())
  {
    hide NonceForSeq;
  }

  lemma FlightExact(c: Conn, cert: Certificate, s: Session, x: Crypto)
    requires c.Valid() && c.writeKeys.Some?
    ensures SendFlight(c, cert, s, x).Done? <==> Flies(cert, s, x)
    ensures Flies(cert, s, x) ==>
      var recs := FlightRecs(Flight(cert, s, x));
      && (forall r :: r in recs ==> CanSend(true, r))
      && SendFlight(c, cert, s, x) == Done(c.(out := c.out + SendAll(c.writeKeys, recs).0,
           writeKeys := SendAll(c.writeKeys, recs).1), s.(transcript := AfterFlight(cert, s, x)))
  {
    hide SealRecord, WriteSealed, U24Bytes, Vec24, Vec16, U16Bytes, CertificateBody, CertificateVerifyBody,
      MarshalHandshake;
    Lengths(cert, s, x);
    var ccs := Rec(CHANGE_CIPHER_SPEC, [1]);
    var (ee, cm) := (EncryptedExtensionsMsg(), CertificateMsg(cert));
    var c0 := WritePlain(c, CHANGE_CIPHER_SPEC, [1]).conn;
    SealedIsSent(c0, ee);
    var c1 := WriteSealed(c0, ee).conn;
    SealedIsSent(c1, cm);
    var c2 := WriteSealed(c1, cm).conn;
    var t2 := s.transcript + ee + cm;
    var signature := x.sign(x.hash(t2));
    if signature.Some? {
      var cv := CertificateVerifyMsg(signature.value);
      SealedIsSent(c2, cv);
      var c3 := WriteSealed(c2, cv).conn;
      var fin := FinishedMsg(x.verifyData(s.secrets.server, x.hash(t2 + cv)));
      SealedIsSent(c3, fin);
      if Flies(cert, s, x) {
        FlightFits(cert, s, x);
        FiveSends(c.writeKeys, c.out, ccs, Rec(HANDSHAKE, ee), Rec(HANDSHAKE, cm), Rec(HANDSHAKE, cv),
          Rec(HANDSHAKE, fin));
        ConcatFour(s.transcript, ee, cm, cv, fin);
      }
    }
  }

  lemma Lengths(cert: Certificate, s: Session, x: Crypto)
    ensures |EncryptedExtensionsMsg()| == 6 && |CertificateMsg(cert)| == 13 + |cert|
    ensures forall signature: Signature :: |CertificateVerifyMsg(signature)| == 8 + |signature|
    ensures forall verify: Digest :: |FinishedMsg(verify)| == 36
  {
  }

  /** One more record behind those already sent. */
  lemma {:induction false} SendSnoc(k: Option<Keys>, recs: seq<Rec>, r: Rec)
    requires KeysOk(k) && (forall q :: q in recs ==> CanSend(k.Some?, q)) && CanSend(k.Some?, r)
    ensures var (w, k1) := SendAll(k, recs); var (wire, k2) := SendRec(k1, r);
      SendAll(k, recs + [r]) == (w + wire, k2)
    decreases |recs|
  {
    hide SendRec, CanSend;
    if recs == [] {
      assert [] + [r] == [r] && [r][1..] == [];
      assert SendRec(k, r).0 + [] == [] + SendRec(k, r).0;
    } else {
      assert (recs + [r])[1..] == recs[1..] + [r];
      var k1 := SendRec(k, recs[0]).1;
      SendSnoc(k1, recs[1..], r);
      Assoc(SendRec(k, recs[0]).0, SendAll(k1, recs[1..]).0, SendRec(SendAll(k1, recs[1..]).1, r).0);
    }
  }

  lemma FiveSends(k: Option<Keys>, out: Bytes, a: Rec, b: Rec, c: Rec, d: Rec, e: Rec)
    requires KeysOk(k) && CanSend(k.Some?, a) && CanSend(k.Some?, b) && CanSend(k.Some?, c)
    requires CanSend(k.Some?, d) && CanSend(k.Some?, e)
    ensures var (wa, ka) := SendRec(k, a); var (wb, kb) := SendRec(ka, b); var (wc, kc) := SendRec(kb, c);
      var (wd, kd) := SendRec(kc, d); var (we, ke) := SendRec(kd, e);
      var all := SendAll(k, [a, b, c, d, e]);
      out + all.0 == out + wa + wb + wc + wd + we && all.1 == ke
  {
    hide SendRec, CanSend, SendAll;
    NoneSent(k, out);
    OneMore(k, out, [], a, [a]);
    OneMore(k, out, [a], b, [a, b]);
    OneMore(k, out, [a, b], c, [a, b, c]);
    OneMore(k, out, [a, b, c], d, [a, b, c, d]);
    OneMore(k, out, [a, b, c, d], e, [a, b, c, d, e]);
  }

  lemma NoneSent(k: Option<Keys>, out: Bytes)
    requires KeysOk(k)
    ensures out + SendAll(k, []).0 == out && SendAll(k, []).1 == k
  {
  }

  lemma OneMore(k: Option<Keys>, out: Bytes, recs: seq<Rec>, r: Rec, list: seq<Rec>)
    requires KeysOk(k) && (forall q :: q in recs ==> CanSend(k.Some?, q)) && CanSend(k.Some?, r) && list == recs + [r]
    ensures forall q :: q in list ==> CanSend(k.Some?, q)
    ensures var (w, k1) := SendAll(k, recs); var (wire, k2) := SendRec(k1, r);
      out + SendAll(k, list).0 == out + w + wire && SendAll(k, list).1 == k2
  {
    hide SendRec, CanSend, SendAll;
    SendSnoc(k, recs, r);
    Assoc(out, SendAll(k, recs).0, SendRec(SendAll(k, recs).1, r).0);
  }

  lemma ConcatFour(start: Bytes, a: Bytes, b: Bytes, c: Bytes, d: Bytes)
    ensures Concat([a, b, c, d]) == a + (b + (c + d))
    ensures start + Concat([a, b, c, d]) == start + a + b + c + d
  {
    assert [a, b, c, d][1..] == [b, c, d] && [b, c, d][1..] == [c, d] && [c, d][1..] == [d] && [d][1..] == [];
    assert Concat([d]) == d;
    assert Concat([c, d]) == c + d;
    assert Concat([b, c, d]) == b + (c + d);
    assert Concat([a, b, c, d]) == a + (b + (c + d));
  }

  /** The connection after the second key switch. */
  function Switched(c: Conn, s: Session, x: Crypto): Conn {
    var app := x.applicationSecrets(s.shared, x.hash(s.transcript));
    c.(readKeys := Some(KeysFrom(app.client, x)), writeKeys := Some(KeysFrom(app.server, x)))
  }

  /** The last stage on any wire at all: the client's message must be the Finished,
      with nothing behind it in the buffer; the keys are switched before that is seen. */
  lemma FinishAny(c: Conn, s: Session, x: Crypto)
    requires c.Valid()
    ensures var (r, want) := (Receive(c), FinishedMsg(x.verifyData(s.secrets.client, x.hash(s.transcript))));
      if r.Done? && r.value == want then
        var d := Switched(r.conn, s, x);
        Finish(c, s, x) == if r.conn.hsBuf == [] then Done(d, ()) else Fail(d, LeftoverBytes)
      else Finish(c, s, x).Fail?
  {
    hide ReadMessage, MarshalHandshake, IsMessage;
    if Receive(c).Done? {
      ReceivedIsMessage(c);
      var (fin, v) := (Receive(c).value, x.verifyData(s.secrets.client, x.hash(s.transcript)));
      HandshakeIff(fin, FINISHED, v);
      MessageParses(fin);
    }
  }

  lemma MessageParses(msg: Bytes)
    requires IsMessage(msg)
    ensures ParseHandshake(msg) == Some((msg[0], msg[HEADER_LEN..]))
  {
  }

  lemma FinishExact(c: Conn, s: Session, x: Crypto, fin: Bytes, recs: seq<Rec>, extra: Bytes, rest: Bytes)
    requires c.Valid() && c.readKeys.Some? && c.readKeys.value.aead.Lawful() && Completes(c.hsBuf, recs, fin, extra)
    requires (forall r :: r in recs ==> CanSend(true, r)) && c.raw == SendAll(c.readKeys, recs).0 + rest
    ensures var d := Switched(c.(raw := rest, hsBuf := extra), s, x);
      if fin == FinishedMsg(x.verifyData(s.secrets.client, x.hash(s.transcript)))
      then Finish(c, s, x) == if extra == [] then Done(d, ()) else Fail(d, LeftoverBytes)
      else Finish(c, s, x).Fail?
  {
    hide Receive, SendAll, Finish, FinishedMsg, Completes;
    ReceiveWith(c, c.readKeys, recs, rest, fin, extra);
    FinishAny(c, s, x);
  }

  // ----- the theorem -----------------------------------------------------

  ghost predicate LawfulCrypto(x: Crypto) {
    forall secret :: x.aeadFor(secret).Lawful()
  }

  function ClientKeys(ch: Bytes, draws: Draws, x: Crypto): Keys
    requires Greets(ch, draws)
  {
    KeysFrom(SessionOf(ch, draws, x).secrets.client, x)
  }

  function ServerKeys(ch: Bytes, draws: Draws, x: Crypto): Keys
    requires Greets(ch, draws)
  {
    KeysFrom(SessionOf(ch, draws, x).secrets.server, x)
  }

  /** The client's side of the wire, cut into records at will: its hello, with
      `early` behind it in the record that completes it; then, under its handshake
      keys, a message of any kind that `early` may have begun, with `extra` behind
      it in the record that completes it; then `rest`. */
  ghost predicate ClientSends(c: Conn, draws: Draws, x: Crypto, ch: Bytes, chRecs: seq<Rec>, early: Bytes,
                              fin: Bytes, finRecs: seq<Rec>, extra: Bytes, rest: Bytes) {
    && Completes([], chRecs, ch, early) && (forall r :: r in chRecs ==> CanSend(false, r))
    && Completes(early, finRecs, fin, extra) && (forall r :: r in finRecs ==> CanSend(true, r))
    && SendAll(None, chRecs).0 <= c.raw
    && (Greets(ch, draws) ==>
          c.raw == SendAll(None, chRecs).0 + (SendAll(Some(ClientKeys(ch, draws, x)), finRecs).0 + rest))
  }

  /** What must hold for the handshake to complete. */
  ghost predicate Agrees(identity: Option<Certificate>, draws: Draws, x: Crypto, ch: Bytes, fin: Bytes) {
    && identity.Some? && Greets(ch, draws)
    && var s := SessionOf(ch, draws, x);
    && Flies(identity.value, s, x)
    && fin == FinishedMsg(x.verifyData(s.secrets.client, x.hash(AfterFlight(identity.value, s, x))))
  }

  lemma WireFits(cert: Certificate, draws: Draws, x: Crypto, ch: Bytes)
    requires Greets(ch, draws) && Flies(cert, SessionOf(ch, draws, x), x)
    ensures CanSend(false, Rec(HANDSHAKE, AnswerTo(ch, draws)))
    ensures forall r :: r in FlightRecs(Flight(cert, SessionOf(ch, draws, x), x)) ==> CanSend(true, r)
  {
    hide Greets, Flies, SessionOf, AnswerTo, Flight, IsMessage;
    AnswerFits(ch, draws);
    FlightFits(cert, SessionOf(ch, draws, x), x);
  }

  /** The server's bytes: ServerHello in the clear, the rest under the handshake keys. */
  function ServerWire(cert: Certificate, draws: Draws, x: Crypto, ch: Bytes): Bytes
    requires Greets(ch, draws) && Flies(cert, SessionOf(ch, draws, x), x)
  {
    WireFits(cert, draws, x, ch);
    SendRec(None, Rec(HANDSHAKE, AnswerTo(ch, draws))).0
      + SendAll(Some(ServerKeys(ch, draws, x)), FlightRecs(Flight(cert, SessionOf(ch, draws, x), x))).0
  }

  /** The session once the server's flight is out. */
  function FlownSession(cert: Certificate, draws: Draws, x: Crypto, ch: Bytes): Session
    requires Greets(ch, draws) && Flies(cert, SessionOf(ch, draws, x), x)
  {
    var s := SessionOf(ch, draws, x);
    s.(transcript := AfterFlight(cert, s, x))
  }

  /** The handshake completes exactly when the hello is one the server can answer,
      its flight can be sent and signed, the client's message is the Finished
      over the transcript through the server's own, and no byte stands behind it
      in the record that completes it. Nothing but the client's two flights is
      read, and both directions have fresh application keys; they have them even
      when the handshake then fails for bytes left over. */
  lemma CompletesIff(c: Conn, identity: Option<Certificate>, draws: Draws, x: Crypto, ch: Bytes, chRecs: seq<Rec>,
                     early: Bytes, fin: Bytes, finRecs: seq<Rec>, extra: Bytes, rest: Bytes)
    requires Untouched(c) && LawfulCrypto(x) && ClientSends(c, draws, x, ch, chRecs, early, fin, finRecs, extra, rest)
    ensures RunHandshake(c, identity, draws, x).Done? <==> Agrees(identity, draws, x, ch, fin) && extra == []
    ensures Agrees(identity, draws, x, ch, fin) ==>
      var d := Switched(c.(raw := rest, hsBuf := extra, out := c.out + ServerWire(identity.value, draws, x, ch)),
                        FlownSession(identity.value, draws, x, ch), x);
      RunHandshake(c, identity, draws, x) == if extra == [] then Done(d, ()) else Fail(d, LeftoverBytes)
  {
    hide Completes, HandshakeBytes, Greet, SendFlight, Finish, Greets, Flies, SessionOf, AfterFlight, SendAll, AnswerTo,
      FlightRecs, Flight, MarshalHandshake, SendRec, CanSend;
    var (w, n) := (SendAll(None, chRecs).0, |SendAll(None, chRecs).0|);
    assert c.raw == w + c.raw[n..];
    GreetExact(c, draws, x, ch, chRecs, early, c.raw[n..]);
    if identity.Some? && Greets(ch, draws) {
      var (c1, s) := (Greet(c, draws, x).conn, SessionOf(ch, draws, x));
      FlightExact(c1, identity.value, s, x);
      if Flies(identity.value, s, x) {
        var (c2, s2) := (SendFlight(c1, identity.value, s, x).conn, FlownSession(identity.value, draws, x, ch));
        assert c.raw[n..] == SendAll(c2.readKeys, finRecs).0 + rest;
        FinishExact(c2, s2, x, fin, finRecs, extra, rest);
        var recs := FlightRecs(Flight(identity.value, s, x));
        Assoc(c.out, SendRec(None, Rec(HANDSHAKE, AnswerTo(ch, draws))).0,
          SendAll(Some(ServerKeys(ch, draws, x)), recs).0);
      }
    }
  }

  /** On any wire whatever, a completed handshake had an answerable hello and the
      right Finished, wrote the server's messages and left nothing in the buffer. */
  lemma CompletedAgrees(c: Conn, identity: Option<Certificate>, draws: Draws, x: Crypto) returns (ch: Bytes, fin: Bytes)
    requires c.Valid() && RunHandshake(c, identity, draws, x).Done?
    ensures Agrees(identity, draws, x, ch, fin)
    ensures var d := RunHandshake(c, identity, draws, x).conn;
      d == Switched(c.(raw := d.raw, hsBuf := [], inAppData := d.inAppData,
                       out := c.out + ServerWire(identity.value, draws, x, ch)),
                    FlownSession(identity.value, draws, x, ch), x)
  {
    hide Greet, SendFlight, Finish, Greets, Flies, SessionOf, AfterFlight, SendAll, AnswerTo, FlightRecs, Flight,
      FinishedMsg, SendRec, CanSend, ReadMessage;
    GreetAny(c, draws, x);
    ch := Receive(c).value;
    var (c1, s) := (Greet(c, draws, x).conn, SessionOf(ch, draws, x));
    FlightExact(c1, identity.value, s, x);
    var c2 := SendFlight(c1, identity.value, s, x).conn;
    FinishAny(c2, FlownSession(identity.value, draws, x, ch), x);
    fin := Receive(c2).value;
    var recs := FlightRecs(Flight(identity.value, s, x));
    Assoc(c.out, SendRec(None, Rec(HANDSHAKE, AnswerTo(ch, draws))).0, SendAll(Some(ServerKeys(ch, draws, x)), recs).0);
  }

  /** The key switch does not look at the buffer. What stood behind the ClientHello,
      read in the clear, is still there, and with what the records behind the
      switch bring it makes up the client's message and the bytes behind that: the
      records opened under the handshake keys bring all of it exactly when nothing
      stood behind the hello, and none of the message when a whole one did. */
  lemma KeySwitchIff(c: Conn, draws: Draws, x: Crypto, ch: Bytes, chRecs: seq<Rec>, early: Bytes,
                     fin: Bytes, finRecs: seq<Rec>, extra: Bytes, rest: Bytes)
    requires Untouched(c) && ClientSends(c, draws, x, ch, chRecs, early, fin, finRecs, extra, rest) && Greets(ch, draws)
    ensures Greet(c, draws, x).conn.hsBuf == early && Greet(c, draws, x).conn.readKeys == Some(ClientKeys(ch, draws, x))
    ensures early + HandshakeBytes(finRecs) == fin + extra
    ensures HandshakeBytes(finRecs) == fin + extra <==> early == []
    ensures if |early| < |fin| then fin == early + HandshakeBytes(finRecs)[..|fin| - |early|] else fin <= early
  {
    hide Greet, Greets, HandshakeBytes, SendAll, SendRec, SessionOf, AnswerTo;
    var n := |SendAll(None, chRecs).0|;
    assert c.raw == SendAll(None, chRecs).0 + c.raw[n..];
    GreetExact(c, draws, x, ch, chRecs, early, c.raw[n..]);
    SplitFirst(early, HandshakeBytes(finRecs), fin, extra);
  }

  lemma SplitFirst(a: Bytes, b: Bytes, m: Bytes, t: Bytes)
    requires a + b == m + t
    ensures if |a| < |m| then |m| - |a| <= |b| && m == a + b[..|m| - |a|] else m <= a
    ensures b == m + t <==> a == []
  {
    assert |a| + |b| == |m| + |t|;
    assert (a + b)[..|m|] == m;
    if |a| < |m| {
      assert (a + b)[..|m|] == a + b[..|m| - |a|];
    } else {
      assert (a + b)[..|m|] == a[..|m|];
    }
    assert a == [] ==> a + b == b;
  }

  lemma FlightBytes(flight: seq<Bytes>)
    requires |flight| == 4 && flight[3] != []
    ensures EndsFull(FlightRecs(flight)) && HandshakeBytes(FlightRecs(flight)) == Concat(flight)
  {
    var recs := FlightRecs(flight);
    OneEach(flight, recs[1..]);
    assert [] + Concat(flight) == Concat(flight);
    assert HandshakeBytes(recs) == [] + HandshakeBytes(recs[1..]);
    hide HandshakeBytes, Concat;
  }

  /** One record for each message. */
  lemma {:induction false} OneEach(msgs: seq<Bytes>, recs: seq<Rec>)
    requires |recs| == |msgs| && forall i :: 0 <= i < |msgs| ==> recs[i] == Rec(HANDSHAKE, msgs[i])
    ensures HandshakeBytes(recs) == Concat(msgs)
  {
    if msgs != [] {
      OneEach(msgs[1..], recs[1..]);
    }
  }

  /** The client reads the ServerHello in the clear, then, with the server's
      handshake keys, exactly the four messages, and stands behind them. */
  lemma ClientReads(d: Conn, cert: Certificate, draws: Draws, x: Crypto, ch: Bytes, rest: Bytes)
    requires Untouched(d) && LawfulCrypto(x) && Greets(ch, draws) && Flies(cert, SessionOf(ch, draws, x), x)
    requires d.raw == ServerWire(cert, draws, x, ch) + rest
    ensures var k := ServerKeys(ch, draws, x);
      var flight := Flight(cert, SessionOf(ch, draws, x), x);
      var hello := Receive(d);
      && hello.Done? && hello.value == AnswerTo(ch, draws)
      && (forall r :: r in FlightRecs(flight) ==> CanSend(true, r))
      && ReadMessages(hello.conn.(readKeys := Some(k)), 4)
        == (d.(raw := rest, readKeys := SendAll(Some(k), FlightRecs(flight)).1), flight)
  {
    hide Greets, Flies, SessionOf, AnswerTo, Flight, ReadMessages, Receive, FlightRecs, CanSend, SendAll, SendRec;
    var (k, s, answer) := (ServerKeys(ch, draws, x), SessionOf(ch, draws, x), AnswerTo(ch, draws));
    var flight := Flight(cert, s, x);
    WireFits(cert, draws, x, ch);
    var sealed := SendAll(Some(k), FlightRecs(flight)).0;
    Assoc(SendRec(None, Rec(HANDSHAKE, answer)).0, sealed, rest);
    ReadsAnswer(d, draws, ch, sealed + rest);
    ReadsFlight(d.(raw := sealed + rest, readKeys := Some(k)), k, cert, s, x, rest);
  }

  lemma ReadsAnswer(d: Conn, draws: Draws, ch: Bytes, rest: Bytes)
    requires Untouched(d) && Greets(ch, draws) && CanSend(false, Rec(HANDSHAKE, AnswerTo(ch, draws)))
    requires d.raw == SendRec(None, Rec(HANDSHAKE, AnswerTo(ch, draws))).0 + rest
    ensures Receive(d) == Done(d.(raw := rest), AnswerTo(ch, draws))
  {
    hide IsMessage, Greets, AnswerTo, Receive, CanSend, SendAll, SendRec, ReadServerHello, ParseClientHello, X.Product,
      Completes;
    var answer := AnswerTo(ch, draws);
    AnswerFits(ch, draws);
    assert [] + answer == answer + [];
    OneRecord(None, [], answer, answer, []);
    PlainKeys([Rec(HANDSHAKE, answer)]);
    ReceiveWith(d, None, [Rec(HANDSHAKE, answer)], rest, answer, []);
  }

  lemma ReadsFlight(d: Conn, k: Keys, cert: Certificate, s: Session, x: Crypto, rest: Bytes)
    requires |k.iv| == 12 && k.aead.Lawful() && d.writeKeys == None && d.readKeys == Some(k) && d.hsBuf == []
    requires Flies(cert, s, x) && forall r :: r in FlightRecs(Flight(cert, s, x)) ==> CanSend(true, r)
    requires d.raw == SendAll(Some(k), FlightRecs(Flight(cert, s, x))).0 + rest
    ensures var flight := Flight(cert, s, x);
      ReadMessages(d, 4) == (d.(raw := rest, readKeys := SendAll(Some(k), FlightRecs(flight)).1), flight)
  {
    hide IsMessage, HandshakeBytes, EndsFull, Flies, Flight, ReadMessages, Concat, FlightRecs, CanSend, SendAll;
    FlightFits(cert, s, x);
    FlightBytes(Flight(cert, s, x));
    ReceiveAll(d, Some(k), FlightRecs(Flight(cert, s, x)), rest, Flight(cert, s, x));
  }

  /** The rest of a message that `begun` began, and a tail, in one record. */
  lemma OneRecord(k: Option<Keys>, begun: Bytes, data: Bytes, msg: Bytes, tail: Bytes)
    requires KeysOk(k) && IsMessage(msg) && begun + data == msg + tail && |begun| < |msg|
      && CanSend(k.Some?, Rec(HANDSHAKE, data))
    ensures var recs := [Rec(HANDSHAKE, data)];
      && Completes(begun, recs, msg, tail) && (forall r :: r in recs ==> CanSend(k.Some?, r))
      && SendAll(k, recs).0 == SendRec(k, recs[0]).0
  {
    hide SendRec, IsMessage;
    var recs := [Rec(HANDSHAKE, data)];
    assert recs[..|recs| - 1] == [] && HandshakeBytes([]) == [] && begun + [] == begun;
    assert recs[1..] == [] && data + [] == data;
    var wire := SendRec(k, recs[0]).0;
    assert wire + [] == wire;
  }

  function ClientFinished(cert: Certificate, draws: Draws, x: Crypto, ch: Bytes): (msg: Bytes)
    requires Greets(ch, draws) && Flies(cert, SessionOf(ch, draws, x), x)
    ensures |msg| == 36
  {
    FinishedMsg(x.verifyData(SessionOf(ch, draws, x).secrets.client,
      x.hash(FlownSession(cert, draws, x, ch).transcript)))
  }

  lemma FinishedIsMessage(cert: Certificate, draws: Draws, x: Crypto, ch: Bytes)
    requires Greets(ch, draws) && Flies(cert, SessionOf(ch, draws, x), x)
    ensures IsMessage(ClientFinished(cert, draws, x, ch))
  {
    hide Greets, Flies, SessionOf, AfterFlight, IsMessage;
    MarshalIsMessage(FINISHED,
      x.verifyData(SessionOf(ch, draws, x).secrets.client, x.hash(FlownSession(cert, draws, x, ch).transcript)));
  }

  /** The sealed records of a client that sent the first n bytes of its Finished before. */
  function LateRecs(fin: Bytes, n: nat): seq<Rec>
    requires n <= |fin|
  {
    if n < |fin| then [Rec(HANDSHAKE, fin[n..])] else []
  }

  /** The bytes of a client that puts the first n bytes of its Finished behind its
      hello, in the clear, and the others under its handshake keys. */
  function CutWire(cert: Certificate, draws: Draws, x: Crypto, ch: Bytes, n: nat): Bytes
    requires Greets(ch, draws) && Flies(cert, SessionOf(ch, draws, x), x) && n <= 36 && |ch| + n <= MAX_CIPHERTEXT
  {
    hide Greets, Flies, SessionOf, ClientFinished;
    SplitWire(ClientKeys(ch, draws, x), ch, ClientFinished(cert, draws, x, ch), n)
  }

  function SplitWire(k: Keys, ch: Bytes, fin: Bytes, n: nat): Bytes
    requires |k.iv| == 12 && |fin| == 36 && n <= 36 && |ch| + n <= MAX_CIPHERTEXT
  {
    SendRec(None, Rec(HANDSHAKE, ch + fin[..n])).0 + SendAll(Some(k), LateRecs(fin, n)).0
  }

  /** An honest client always completes (n = 0); so does one that begins its
      Finished in the clear, or sends all of it so, which section 5.1 of RFC 8446 forbids. */
  lemma AnyCutCompletes(cert: Certificate, draws: Draws, x: Crypto, ch: Bytes, n: nat, rest: Bytes)
    requires LawfulCrypto(x) && IsMessage(ch) && n <= 36 && |ch| + n <= MAX_CIPHERTEXT
    requires Greets(ch, draws) && Flies(cert, SessionOf(ch, draws, x), x)
    ensures var c := Conn(CutWire(cert, draws, x, ch, n) + rest, [], None, None, [], []);
      RunHandshake(c, Some(cert), draws, x).Done? && RunHandshake(c, Some(cert), draws, x).conn.raw == rest
  {
    var c := Conn(CutWire(cert, draws, x, ch, n) + rest, [], None, None, [], []);
    var fin := ClientFinished(cert, draws, x, ch);
    var (early, k) := (fin[..n], ClientKeys(ch, draws, x));
    FinishedIsMessage(cert, draws, x, ch);
    assert CanSend(false, Rec(HANDSHAKE, ch + early));
    LateCompletes(k, fin, n);
    hide Greets, Flies, SessionOf, AfterFlight, RunHandshake, ClientFinished, IsMessage, SendRec, SendAll, CanSend,
      Completes, LateRecs;
    assert [] + (ch + early) == ch + early;
    OneRecord(None, [], ch + early, ch, early);
    Assoc(SendRec(None, Rec(HANDSHAKE, ch + early)).0, SendAll(Some(k), LateRecs(fin, n)).0, rest);
    CompletesIff(c, Some(cert), draws, x, ch, [Rec(HANDSHAKE, ch + early)], early, fin, LateRecs(fin, n), [], rest);
  }

  lemma LateCompletes(k: Keys, fin: Bytes, n: nat)
    requires |k.iv| == 12 && IsMessage(fin) && n <= |fin| <= MAX_PLAINTEXT
    ensures Completes(fin[..n], LateRecs(fin, n), fin, []) && forall r :: r in LateRecs(fin, n) ==> CanSend(true, r)
  {
    hide IsMessage;
    if n < |fin| {
      assert fin[..n] + fin[n..] == fin + [];
      OneRecord(Some(k), fin[..n], fin[n..], fin, []);
    } else {
      assert fin[..n] + [] == fin + [];
    }
  }

  /** Handshake and stream together: once it completed, the server reads exactly
      what a client that derived the same keys writes. */
  lemma ThenStream(c: Conn, identity: Option<Certificate>, draws: Draws, x: Crypto, ch: Bytes, chRecs: seq<Rec>,
                   early: Bytes, fin: Bytes, finRecs: seq<Rec>, writes: seq<Bytes>, sizes: seq<nat>)
    requires Untouched(c) && c.inAppData == [] && LawfulCrypto(x) && Agrees(identity, draws, x, ch, fin)
      && AllPositive(sizes)
    requires var s := FlownSession(identity.value, draws, x, ch);
      ClientSends(c, draws, x, ch, chRecs, early, fin, finRecs, [],
                  WriteMany(KeysFrom(x.applicationSecrets(s.shared, x.hash(s.transcript)).client, x), writes).0)
    ensures RunHandshake(c, identity, draws, x).Done?
    ensures var (d, parts, ok) := ReadMany(RunHandshake(c, identity, draws, x).conn, sizes);
      && Concat(parts) <= Concat(writes) && (!ok ==> Concat(parts) == Concat(writes))
  {
    hide RunHandshake, ReadMany, WriteMany, Concat, SessionOf, AfterFlight, ServerWire, ClientSends, FlownSession;
    var s := FlownSession(identity.value, draws, x, ch);
    var k := KeysFrom(x.applicationSecrets(s.shared, x.hash(s.transcript)).client, x);
    CompletesIff(c, identity, draws, x, ch, chRecs, early, fin, finRecs, [], WriteMany(k, writes).0);
    StreamRoundTrip(RunHandshake(c, identity, draws, x).conn, k, writes, sizes);
  }

  /** A client with the same secrets reads the server's five messages from d, and behind
      them, with the application keys of the server's side, what the server writes. */
  ghost predicate ReadsBack(d: Conn, cert: Certificate, draws: Draws, x: Crypto, ch: Bytes, writes: seq<Bytes>,
                            sizes: seq<nat>)
    requires Greets(ch, draws) && Flies(cert, SessionOf(ch, draws, x), x) && d.Valid() && AllPositive(sizes)
  {
    var (s, hello) := (FlownSession(cert, draws, x, ch), Receive(d));
    && hello.Done? && hello.value == AnswerTo(ch, draws)
    && var (e, msgs) := ReadMessages(hello.conn.(readKeys := Some(ServerKeys(ch, draws, x))), 4);
    && msgs == Flight(cert, SessionOf(ch, draws, x), x)
    && var k := KeysFrom(x.applicationSecrets(s.shared, x.hash(s.transcript)).server, x);
    && var (_, parts, ok) := ReadMany(e.(readKeys := Some(k)), sizes);
    Concat(parts) <= Concat(writes) && (!ok ==> Concat(parts) == Concat(writes))
  }

  /** The other direction, whatever the client sent: from all that a completed server
      puts on the wire, its messages and its writes, a client with the same secrets
      reads the messages and then exactly what was written. */
  lemma ThenStreamBack(c: Conn, identity: Option<Certificate>, draws: Draws, x: Crypto, writes: seq<Bytes>, d: Conn,
                       sizes: seq<nat>) returns (ch: Bytes)
    requires c.Valid() && c.out == [] && LawfulCrypto(x) && RunHandshake(c, identity, draws, x).Done?
    requires Untouched(d) && d.inAppData == [] && AllPositive(sizes)
    ensures identity.Some? && Greets(ch, draws) && Flies(identity.value, SessionOf(ch, draws, x), x)
    ensures var done := RunHandshake(c, identity, draws, x).conn;
      && done.writeKeys.Some? && KeysOk(done.writeKeys)
      && (d.raw == done.out + WriteMany(done.writeKeys.value, writes).0 ==>
            ReadsBack(d, identity.value, draws, x, ch, writes, sizes))
  {
    hide RunHandshake, ReadMany, WriteMany, Concat, SessionOf, AfterFlight, ServerWire, Greets, Flies, Receive,
      ReadMessages, AnswerTo, Flight;
    var fin: Bytes;
    ch, fin := CompletedAgrees(c, identity, draws, x);
    var (cert, done) := (identity.value, RunHandshake(c, identity, draws, x).conn);
    assert [] + ServerWire(cert, draws, x, ch) == ServerWire(cert, draws, x, ch);
    var app := WriteMany(done.writeKeys.value, writes).0;
    if d.raw == done.out + app {
      ClientReads(d, cert, draws, x, ch, app);
      var k := done.writeKeys.value;
      var e := ReadMessages(Receive(d).conn.(readKeys := Some(ServerKeys(ch, draws, x))), 4).0;
      StreamRoundTrip(e.(readKeys := Some(k)), k, writes, sizes);
    }
  }
}
