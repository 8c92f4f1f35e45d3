/** The connection object of tls/conn.go. The transport is the bytes it will
    still deliver and the bytes written to it. */
module TlsConnections {
  import opened Seq32
  import opened Wrappers
  import opened TlsRecord
  import opened Wire
  import M = TlsModel
  import H = TlsHandshakeModel
  import P = TlsMessages
  import HelloModel
  import HelloParser
  import X = X25519

  class TlsConn {
    const identity: Option<H.Certificate>
    const crypto: H.Crypto
    var rawIn: Bytes
    var rawOut: Bytes
    var readKeys: RecordKeys?
    var writeKeys: RecordKeys?
    var inAppData: Bytes
    var hsBuf: Bytes
    var handshakeDone: bool
    var handshakeErr: Option<H.HsError>

    ghost predicate Valid()
      reads this
    {
      && (handshakeDone ==> writeKeys != null) && !(handshakeDone && handshakeErr.Some?)
      && (readKeys != null ==> readKeys.Valid()) && (writeKeys != null ==> writeKeys.Valid())
      && (readKeys != null ==> readKeys != writeKeys)
    }

    ghost function Keys(k: RecordKeys?): Option<TlsRecord.Keys>
      reads k
    {
      if k == null then None else Some(k.State())
    }

    ghost function State(): (c: M.Conn)
      requires Valid()
      reads this, readKeys, writeKeys
      ensures c.Valid()
    {
      M.Conn(rawIn, rawOut, Keys(readKeys), Keys(writeKeys), hsBuf, inAppData)
    }

    /** Server. */
    constructor (rawIn: Bytes, identity: Option<H.Certificate>, crypto: H.Crypto)
      ensures Valid() && State() == M.Conn(rawIn, [], None, None, [], []) && !handshakeDone && handshakeErr == None
      ensures this.identity == identity && this.crypto == crypto
    {
      this.identity, this.crypto, handshakeDone, handshakeErr := identity, crypto, false, None;
      this.rawIn, rawOut, readKeys, writeKeys, inAppData, hsBuf := rawIn, [], null, null, [], [];
    }

    /** One record, decrypted once there are read keys. */
    method ReadRecord() returns (r: Result<M.Rec, Error>)
      requires Valid()
      modifies `rawIn, readKeys
      ensures Valid() && (State(), r) == M.ReadRec(old(State()))
      ensures r.Ok? ==> |rawIn| < |old(rawIn)|
    {
      var rec := TlsRecord.ReadRecord(rawIn);
      if rec.Err? {
        rawIn := if rec.error.RecordTooLarge? then rawIn[5..] else [];
        return Err(rec.error);
      }
      var (header, fragment, rest) := rec.value;
      rawIn := rest;
      if readKeys == null {
        return Ok(M.Rec(header[0], fragment));
      }
      if header[0] == CHANGE_CIPHER_SPEC {
        return Ok(M.Rec(CHANGE_CIPHER_SPEC, fragment));
      }
      if header[0] != APPLICATION_DATA {
        return Err(BadOuterType(header[0]));
      }
      var result := readKeys.Open(header, fragment);
      r := match result case Err(e) => Err(e) case Ok((typ, plaintext)) => Ok(M.Rec(typ, plaintext));
    }

    method TakeBufferedHandshake() returns (r: Option<Bytes>)
      requires Valid()
      modifies `hsBuf
      ensures match M.TakeMessage(old(hsBuf))
        case None => r == None && hsBuf == old(hsBuf)
        case Some((msg, rest)) => r == Some(msg) && hsBuf == rest
    {
      if |hsBuf| < M.HEADER_LEN {
        return None;
      }
      var total := M.HEADER_LEN + M.BodyLen(hsBuf);
      if |hsBuf| < total {
        return None;
      }
      r := Some(hsBuf[..total]);
      hsBuf := hsBuf[total..];
    }

    method ReadHandshakeMessage() returns (r: Result<Bytes, Error>)
      requires Valid()
      modifies `rawIn, `hsBuf, readKeys
      ensures Valid() && (State(), r) == M.ReadMessage(old(State()))
    {
      while true
        invariant Valid() && M.ReadMessage(State()) == M.ReadMessage(old(State()))
        modifies `rawIn, `hsBuf, readKeys
        decreases |rawIn|
      {
        var msg := TakeBufferedHandshake();
        if msg.Some? {
          return Ok(msg.value);
        }
        var rec := ReadRecord();
        if rec.Err? {
          return Err(rec.error);
        }
        var typ := rec.value.typ;
        if typ == CHANGE_CIPHER_SPEC {
          continue;
        } else if typ == HANDSHAKE {
          hsBuf := hsBuf + rec.value.data;
        } else if typ == ALERT {
          return Err(PeerAlert);
        } else {
          return Err(UnexpectedRecord(typ));
        }
      }
    }

    /** The loop of Read, once the handshake is done. */
    method ReadAppData(n: nat) returns (r: Result<Bytes, Error>)
      requires Valid()
      modifies `rawIn, `inAppData, readKeys
      ensures Valid() && (State(), r) == M.ReadApp(old(State()), n)
    {
      while |inAppData| == 0
        invariant Valid() && M.ReadApp(State(), n) == M.ReadApp(old(State()), n)
        modifies `rawIn, `inAppData, readKeys
        decreases |rawIn|
      {
        var rec := ReadRecord();
        if rec.Err? {
          return Err(rec.error);
        }
        var typ := rec.value.typ;
        if typ == APPLICATION_DATA {
          inAppData := rec.value.data;
        } else if typ == ALERT {
          return Err(PeerAlert);
        } else if typ == HANDSHAKE {
          continue;
        } else {
          return Err(UnexpectedRecord(typ));
        }
      }
      var k := if n <= |inAppData| then n else |inAppData|;
      r := Ok(inAppData[..k]);
      inAppData := inAppData[k..];
    }

    /** The loop of Write, once the handshake is done: chunks of at most 16384 bytes, each sealed and written out. */
    method WriteAppData(p: Bytes) returns (written: nat)
      requires Valid() && writeKeys != null
      modifies `rawOut, writeKeys
      ensures Valid() && written == |p|
      ensures var (wire, k) := M.WriteApp(old(writeKeys.State()), p);
        State() == old(State()).(out := old(rawOut) + wire, writeKeys := Some(k))
    {
      hide M.WriteApp;
      written := 0;
      ghost var k0 := writeKeys.State();
      ghost var sent: Bytes := [];
      ghost var whole := M.WriteApp(k0, p);
      assert p[0..] == p && [] + whole.0 == whole.0;
      while written < |p|
        invariant Valid() && written <= |p| && rawOut == old(rawOut) + sent
        invariant var rest := M.WriteApp(writeKeys.State(), p[written..]); whole == (sent + rest.0, rest.1)
        modifies `rawOut, writeKeys
      {
        var chunk := p[written..];
        if |chunk| > MAX_PLAINTEXT {
          chunk := chunk[..MAX_PLAINTEXT];
        }
        M.WriteChunk(sent, writeKeys.State(), p[written..]);
        var sealed := writeKeys.Seal(APPLICATION_DATA, chunk);
        assert sealed.Ok?;  // the chunk is small enough
        assert p[written..][|chunk|..] == p[written + |chunk|..];
        sent := sent + sealed.value;
        rawOut := rawOut + sealed.value;
        written := written + |chunk|;
      }
      M.WriteNothing(writeKeys.State());
      assert p[written..] == [];
    }

    // ----- the handshake -------------------------------------------------

    method WritePlainRecord(typ: byte, msg: Bytes) returns (failed: Option<H.HsError>)
      requires Valid()
      modifies `rawOut
      ensures Valid() && H.WritePlain(old(State()), typ, msg) == Outcome(State(), failed)
    {
      var wire := TlsRecord.WriteRecord(typ, msg);
      if wire.Err? {
        return Some(H.Io(wire.error));
      }
      rawOut := rawOut + wire.value;
      return None;
    }

    ghost function Outcome(c: M.Conn, failed: Option<H.HsError>): H.Outcome<()> {
      if failed.Some? then H.Fail(c, failed.value) else H.Done(c, ())
    }

    ghost function OutcomeOf<T>(c: M.Conn, r: Result<T, H.HsError>): H.Outcome<T> {
      match r case Ok(v) => H.Done(c, v) case Err(e) => H.Fail(c, e)
    }

    method WriteEncryptedHandshake(msg: Bytes) returns (failed: Option<H.HsError>)
      requires Valid() && writeKeys != null
      modifies `rawOut, writeKeys
      ensures Valid() && H.WriteSealed(old(State()), msg) == Outcome(State(), failed)
    {
      var sealed := writeKeys.Seal(HANDSHAKE, msg);
      if sealed.Err? {
        return Some(H.Io(sealed.error));
      }
      rawOut := rawOut + sealed.value;
      return None;
    }

    /** Both directions get new key objects, with their counters at zero. */
    method SwitchKeys(client: Bytes, server: Bytes)
      requires Valid()
      modifies `readKeys, `writeKeys
      ensures Valid() && writeKeys != null && fresh(readKeys) && fresh(writeKeys)
      ensures State() == old(State()).(readKeys := Some(H.KeysFrom(client, crypto)),
        writeKeys := Some(H.KeysFrom(server, crypto)))
    {
      readKeys := new RecordKeys(crypto.aeadFor(client), crypto.ivFor(client));
      writeKeys := new RecordKeys(crypto.aeadFor(server), crypto.ivFor(server));
    }

    method Greet(draws: H.Draws) returns (r: Result<H.Session, H.HsError>)
      requires Valid() && !handshakeDone
      modifies `rawIn, `rawOut, `hsBuf, `readKeys, `writeKeys, readKeys
      ensures Valid() && H.Greet(old(State()), draws, crypto) == OutcomeOf(State(), r)
      ensures r.Ok? ==> fresh(readKeys) && fresh(writeKeys) && writeKeys != null
      ensures r.Err? ==> readKeys == old(readKeys) && writeKeys == old(writeKeys)
    {
      hide HelloModel.ParseClientHello, X.Shared, X.Product, M.ReadMessage;
      var got := ReadHandshakeMessage();
      if got.Err? {
        return Err(H.Io(got.error));
      }
      var ch := got.value;
      if ch[0] != P.CLIENT_HELLO {
        return Err(H.WrongMessage(ch[0]));
      }
      var parsed := HelloParser.ParseHello(ch[M.HEADER_LEN..]);
      if parsed.Err? {
        return Err(H.BadHello(parsed.error));
      }
      var hello := parsed.value;
      var policy := P.ValidateClientHello(hello);
      if policy.Some? {
        return Err(H.Unsupported(policy.value));
      }
      var serverPub := X.ScalarMult(draws.serverPriv, X.BASE_POINT);
      var clientShare := P.KeyShareLoop(hello.keyShares, P.X25519_GROUP);
      var shared := X.SharedSecret(draws.serverPriv, clientShare);
      if shared.Err? {
        return Err(H.ZeroShared);
      }
      H.SessionIdFits(ch[M.HEADER_LEN..]);
      var sh := P.MarshalHandshake(P.SERVER_HELLO, P.ServerHello(draws.serverRandom, hello.sessionId, serverPub));
      var failed := WritePlainRecord(HANDSHAKE, sh);
      if failed.Some? {
        return Err(failed.value);
      }
      var secrets := crypto.handshakeSecrets(shared.value, crypto.hash(ch + sh));
      SwitchKeys(secrets.client, secrets.server);
      return Ok(H.Session(ch + sh, shared.value, secrets));
    }

    method SendFlight(cert: H.Certificate, s: H.Session) returns (r: Result<H.Session, H.HsError>)
      requires Valid() && writeKeys != null
      modifies `rawOut, writeKeys
      ensures Valid() && H.SendFlight(old(State()), cert, s, crypto) == OutcomeOf(State(), r)
    {
      hide H.WriteSealed;
      var failed := WritePlainRecord(CHANGE_CIPHER_SPEC, [1]);
      var ee := H.EncryptedExtensionsMsg();
      failed := WriteEncryptedHandshake(ee);
      var cm := H.CertificateMsg(cert);
      failed := WriteEncryptedHandshake(cm);
      if failed.Some? {
        return Err(failed.value);
      }
      var t2 := s.transcript + ee + cm;
      var signature := crypto.sign(crypto.hash(t2));
      if signature.None? {
        return Err(H.SignFailed);
      }
      var cv := H.CertificateVerifyMsg(signature.value);
      failed := WriteEncryptedHandshake(cv);
      if failed.Some? {
        return Err(failed.value);
      }
      var fin := H.FinishedMsg(crypto.verifyData(s.secrets.server, crypto.hash(t2 + cv)));
      failed := WriteEncryptedHandshake(fin);
      if failed.Some? {
        return Err(failed.value);
      }
      return Ok(s.(transcript := t2 + cv + fin));
    }

    method Finish(s: H.Session) returns (failed: Option<H.HsError>)
      requires Valid() && !handshakeDone
      modifies `rawIn, `hsBuf, `readKeys, `writeKeys, readKeys
      ensures Valid() && H.Finish(old(State()), s, crypto) == Outcome(State(), failed)
      ensures failed.None? ==> writeKeys != null
      ensures (readKeys == old(readKeys) && writeKeys == old(writeKeys)) || (fresh(readKeys) && fresh(writeKeys))
    {
      hide M.ReadMessage;
      var sum := crypto.hash(s.transcript);
      var got := ReadHandshakeMessage();
      if got.Err? {
        return Some(H.Io(got.error));
      }
      if got.value[0] != P.FINISHED {
        return Some(H.WrongMessage(got.value[0]));
      }
      if got.value[M.HEADER_LEN..] != crypto.verifyData(s.secrets.client, sum) {
        return Some(H.FinishedMismatch);
      }
      var app := crypto.applicationSecrets(s.shared, sum);
      SwitchKeys(app.client, app.server);
      if hsBuf != [] {
        return Some(H.LeftoverBytes);
      }
      return None;
    }

    method RunHandshake(draws: H.Draws) returns (failed: Option<H.HsError>)
      requires Valid() && !handshakeDone
      modifies `rawIn, `rawOut, `hsBuf, `readKeys, `writeKeys, readKeys, writeKeys
      ensures Valid() && H.RunHandshake(old(State()), identity, draws, crypto) == Outcome(State(), failed)
      ensures failed.None? ==> writeKeys != null
      ensures fresh(readKeys) || readKeys == old(readKeys)
      ensures fresh(writeKeys) || writeKeys == old(writeKeys)
    {
      hide H.Greet, H.SendFlight, H.Finish;
      if identity.None? {
        return Some(H.NoIdentity);
      }
      var greeted := Greet(draws);
      if greeted.Err? {
        return Some(greeted.error);
      }
      var flown := SendFlight(identity.value, greeted.value);
      if flown.Err? {
        return Some(flown.error);
      }
      failed := Finish(flown.value);
    }

    /** The connection after Handshake, and its verdict: it runs once, and a
        failure is remembered. */
    ghost function Shaken(draws: H.Draws): H.Outcome<()>
      requires Valid()
      reads this, readKeys, writeKeys
    {
      if handshakeDone then H.Done(State(), ())
      else if handshakeErr.Some? then H.Fail(State(), handshakeErr.value)
      else H.RunHandshake(State(), identity, draws, crypto)
    }

    method Handshake(draws: H.Draws) returns (failed: Option<H.HsError>)
      requires Valid()
      modifies this, readKeys, writeKeys
      ensures Valid() && old(Shaken(draws)) == Outcome(State(), failed)
      ensures handshakeDone == failed.None? && handshakeErr == failed
      ensures fresh(readKeys) || readKeys == old(readKeys)
      ensures fresh(writeKeys) || writeKeys == old(writeKeys)
    {
      hide H.RunHandshake;
      if handshakeDone {
        return None;
      }
      if handshakeErr.Some? {
        return handshakeErr;
      }
      failed := RunHandshake(draws);
      if failed.Some? {
        handshakeErr := failed;
      } else {
        handshakeDone := true;
      }
    }

    method Read(n: nat, draws: H.Draws) returns (r: Result<Bytes, H.HsError>)
      requires Valid()
      modifies this, readKeys, writeKeys
      ensures Valid()
      ensures match old(Shaken(draws))
        case Fail(c, e) => r == Err(e) && State() == c
        case Done(c, _) => State() == M.ReadApp(c, n).0 && r == IoResult(M.ReadApp(c, n).1)
    {
      hide H.RunHandshake, M.ReadApp;
      if !handshakeDone {
        var failed := Handshake(draws);
        if failed.Some? {
          return Err(failed.value);
        }
      }
      var got := ReadAppData(n);
      r := IoResult(got);
    }

    function IoResult<T>(r: Result<T, Error>): Result<T, H.HsError> {
      match r case Ok(v) => Ok(v) case Err(e) => Err(H.Io(e))
    }

    ghost function Written(c: M.Conn, p: Bytes): M.Conn
      requires c.Valid() && c.writeKeys.Some?
    {
      var (wire, k) := M.WriteApp(c.writeKeys.value, p);
      c.(out := c.out + wire, writeKeys := Some(k))
    }

    method Write(p: Bytes, draws: H.Draws) returns (r: Result<nat, H.HsError>)
      requires Valid()
      modifies this, readKeys, writeKeys
      ensures Valid()
      ensures match old(Shaken(draws))
        case Fail(c, e) => r == Err(e) && State() == c
        case Done(c, _) => r == Ok(|p|) && c.Valid() && c.writeKeys.Some? && State() == Written(c, p)
    {
      hide H.RunHandshake, M.WriteApp;
      if !handshakeDone {
        var failed := Handshake(draws);
        if failed.Some? {
          return Err(failed.value);
        }
      }
      var written := WriteAppData(p);
      r := Ok(written);
    }
  }
}
