/** The TLS connection of tls/conn.go as functions on values: reading a record
    in either epoch, reassembling handshake messages, application reads and writes. */
module TlsModel {
  import opened Seq32
  import opened Wrappers
  import opened TlsRecord
  import opened Wire

  const HEADER_LEN: int := 4

  /** `raw` is what the transport will still deliver, `out` what was written to it. */
  datatype Conn = Conn(
    raw: Bytes, out: Bytes, readKeys: Option<Keys>, writeKeys: Option<Keys>, hsBuf: Bytes, inAppData: Bytes) {
    predicate Valid() {
      (readKeys.Some? ==> |readKeys.value.iv| == 12) && (writeKeys.Some? ==> |writeKeys.value.iv| == 12)
    }
  }

  /** A record as the layers above see it. */
  datatype Rec = Rec(typ: byte, data: Bytes)

  /** One record: decrypted once there are read keys, except ChangeCipherSpec. */
  function ReadRec(c: Conn): (r: (Conn, Result<Rec, Error>))
    requires c.Valid()
    ensures r.0.Valid() && (r.1.Ok? ==> |r.0.raw| < |c.raw|)
    ensures r.0.hsBuf == c.hsBuf && r.0.inAppData == c.inAppData && r.0.out == c.out && r.0.writeKeys == c.writeKeys
  {
    match ReadRecord(c.raw)
    case Err(e) => (c.(raw := if e.RecordTooLarge? then c.raw[5..] else []), Err(e))
    case Ok((header, fragment, rest)) =>
      var c1 := c.(raw := rest);
      if c.readKeys.None? || header[0] == CHANGE_CIPHER_SPEC then (c1, Ok(Rec(header[0], fragment)))
      else if header[0] != APPLICATION_DATA then (c1, Err(BadOuterType(header[0])))
      else match OpenRecord(c.readKeys.value, header, fragment)
        case Err(e) => (c1, Err(e))
        case Ok((typ, plaintext, k)) => (c1.(readKeys := Some(k)), Ok(Rec(typ, plaintext)))
  }

  // ----- handshake messages ----------------------------------------------

  function BodyLen(bytes: Bytes): nat
    requires |bytes| >= HEADER_LEN
  {
    var a: int := bytes[1];
    var b: int := bytes[2];
    a * 65536 + b * 256 + bytes[3]
  }

  /** The first complete message of the buffer, and what follows it. */
  function TakeMessage(buf: Bytes): (r: Option<(Bytes, Bytes)>)
    ensures r.Some? ==> |r.value.0| >= HEADER_LEN && r.value.0 + r.value.1 == buf
  {
    if |buf| < HEADER_LEN then None else
    var total := HEADER_LEN + BodyLen(buf);
    if |buf| < total then None else Some((buf[..total], buf[total..]))
  }

  function ReadMessage(c: Conn): (r: (Conn, Result<Bytes, Error>))
    requires c.Valid()
    ensures r.0.Valid() && (r.1.Ok? ==> |r.1.value| >= HEADER_LEN)
    ensures r.0.out == c.out && r.0.writeKeys == c.writeKeys && r.0.inAppData == c.inAppData
    decreases |c.raw|
  {
    match TakeMessage(c.hsBuf)
    case Some((msg, rest)) => (c.(hsBuf := rest), Ok(msg))
    case None =>
      var (c1, r) := ReadRec(c);
      match r
      case Err(e) => (c1, Err(e))
      case Ok(rec) =>
        if rec.typ == CHANGE_CIPHER_SPEC then ReadMessage(c1)
        else if rec.typ == HANDSHAKE then ReadMessage(c1.(hsBuf := c1.hsBuf + rec.data))
        else if rec.typ == ALERT then (c1, Err(PeerAlert))
        else (c1, Err(UnexpectedRecord(rec.typ)))
  }

  /** n messages in a row; stops at the first error. */
  function ReadMessages(c: Conn, n: nat): (r: (Conn, seq<Bytes>))
    requires c.Valid()
    ensures r.0.Valid()
    decreases n
  {
    if n == 0 then (c, []) else
    var (c1, r) := ReadMessage(c);
    if r.Err? then (c1, []) else
    var (c2, msgs) := ReadMessages(c1, n - 1);
    (c2, [r.value] + msgs)
  }

  // ----- application data ------------------------------------------------

  /** Reads records until there is application data; the rest of a record waits. */
  function ReadApp(c: Conn, n: nat): (r: (Conn, Result<Bytes, Error>))
    requires c.Valid()
    ensures r.0.Valid()
    decreases |c.raw|
  {
    if c.inAppData != [] then
      var k := if n <= |c.inAppData| then n else |c.inAppData|;
      (c.(inAppData := c.inAppData[k..]), Ok(c.inAppData[..k]))
    else
      var (c1, r) := ReadRec(c);
      match r
      case Err(e) => (c1, Err(e))
      case Ok(rec) =>
        if rec.typ == APPLICATION_DATA then ReadApp(c1.(inAppData := rec.data), n)
        else if rec.typ == HANDSHAKE then ReadApp(c1, n)
        else if rec.typ == ALERT then (c1, Err(PeerAlert))
        else (c1, Err(UnexpectedRecord(rec.typ)))
  }

  function ChunkOf(data: Bytes): Bytes {
    if |data| > MAX_PLAINTEXT then data[..MAX_PLAINTEXT] else data
  }

  /** The records of one Write, and the keys after it: no chunk is too large to seal. */
  function WriteApp(k: Keys, data: Bytes): (r: (Bytes, Keys))
    requires |k.iv| == 12
    ensures r.1.iv == k.iv && r.1.aead == k.aead
    decreases |data|
  {
    if data == [] then ([], k) else
    var chunk := ChunkOf(data);
    var (wire, k1) := SealRecord(k, APPLICATION_DATA, chunk).value;
    var (rest, k2) := WriteApp(k1, data[|chunk|..]);
    (wire + rest, k2)
  }

  lemma WriteNothing(k: Keys)
    requires |k.iv| == 12
    ensures WriteApp(k, []) == ([], k)
  {
  }

  /** Taking the first chunk off a write. */
  lemma WriteChunk(sent: Bytes, k: Keys, data: Bytes)
    requires |k.iv| == 12 && data != []
    ensures var (wire, k1) := SealRecord(k, APPLICATION_DATA, ChunkOf(data)).value;
      var (w, w1) := (WriteApp(k, data), WriteApp(k1, data[|ChunkOf(data)|..]));
      (sent + w.0, w.1) == (sent + wire + w1.0, w1.1)
  {
    var (wire, k1) := SealRecord(k, APPLICATION_DATA, ChunkOf(data)).value;
    var rest := WriteApp(k1, data[|ChunkOf(data)|..]).0;
    assert sent + (wire + rest) == sent + wire + rest;
  }
}
