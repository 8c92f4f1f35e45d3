/** Streams over records: handshake messages and application data come through
    whole, however the record layer cuts them, in the plaintext epoch and under keys. */
module TlsFraming {
  import opened Seq32
  import opened Wrappers
  import opened TlsRecord
  import opened Wire
  import opened TlsModel

  /** Reading c's transport gives exactly these records; then `rest` is left and
      the read keys are `keys`. */
  ghost predicate Yields(c: Conn, recs: seq<Rec>, rest: Bytes, keys: Option<Keys>)
    requires c.Valid()
    decreases |recs|
  {
    if recs == [] then c.raw == rest && c.readKeys == keys
    else ReadRec(c).1 == Ok(recs[0]) && Yields(ReadRec(c).0, recs[1..], rest, keys)
  }

  /** The buffers above the record layer play no part in reading records. */
  lemma {:induction false} YieldsFrame(c: Conn, d: Conn, recs: seq<Rec>, rest: Bytes, keys: Option<Keys>)
    requires c.Valid() && d.Valid() && Yields(c, recs, rest, keys) && d.raw == c.raw && d.readKeys == c.readKeys
    ensures Yields(d, recs, rest, keys)
    decreases |recs|
  {
    if recs != [] {
      YieldsFrame(ReadRec(c).0, ReadRec(d).0, recs[1..], rest, keys);
    }
  }

  // ----- writers ---------------------------------------------------------

  /** A record under keys k, or before keys; ChangeCipherSpec is never sealed. */
  function SendRec(k: Option<Keys>, r: Rec): (w: (Bytes, Option<Keys>))
    requires KeysOk(k) && CanSend(k.Some?, r)
    ensures w.1.Some? <==> k.Some?
    ensures k.Some? ==> w.1.value.iv == k.value.iv && w.1.value.aead == k.value.aead
  {
    if k.None? || r.typ == CHANGE_CIPHER_SPEC then (WriteRecord(r.typ, r.data).value, k)
    else
      var (wire, k1) := SealRecord(k.value, r.typ, r.data).value;
      (wire, Some(k1))
  }

  predicate KeysOk(k: Option<Keys>) {
    k.Some? ==> |k.value.iv| == 12
  }

  predicate CanSend(keyed: bool, r: Rec) {
    if !keyed || r.typ == CHANGE_CIPHER_SPEC then |r.data| <= MAX_CIPHERTEXT
    else |r.data| <= MAX_CIPHERTEXT - OVERHEAD - 1 && r.typ != 0
  }

  function SendAll(k: Option<Keys>, recs: seq<Rec>): (w: (Bytes, Option<Keys>))
    requires KeysOk(k) && forall r :: r in recs ==> CanSend(k.Some?, r)
    ensures w.1.Some? <==> k.Some?
    ensures k.Some? ==> w.1.value.iv == k.value.iv && w.1.value.aead == k.value.aead
    decreases |recs|
  {
    if recs == [] then ([], k) else
    var (wire, k1) := SendRec(k, recs[0]);
    var (rest, k2) := SendAll(k1, recs[1..]);
    (wire + rest, k2)
  }

  /** A reader with the writer's keys reads one record back, in lockstep. */
  lemma ReadsBack(c: Conn, k: Option<Keys>, r: Rec, rest: Bytes)
    requires c.Valid() && CanSend(k.Some?, r) && c.readKeys == k && (k.Some? ==> k.value.aead.Lawful())
    requires c.raw == SendRec(k, r).0 + rest
    ensures ReadRec(c) == (c.(raw := rest, readKeys := SendRec(k, r).1), Ok(r))
  {
    hide StripZeros, NonceForSeq;
    if k.None? || r.typ == CHANGE_CIPHER_SPEC {
      FramingRoundTrip(r.typ, r.data, rest);
    } else {
      SealOpen(k.value, r.typ, r.data, rest);
    }
  }

  lemma {:induction false} YieldsSent(c: Conn, k: Option<Keys>, recs: seq<Rec>, rest: Bytes)
    requires c.Valid() && c.readKeys == k && (k.Some? ==> k.value.aead.Lawful())
    requires KeysOk(k) && forall r :: r in recs ==> CanSend(k.Some?, r)
    requires c.raw == SendAll(k, recs).0 + rest
    ensures Yields(c, recs, rest, SendAll(k, recs).1)
    decreases |recs|
  {
    hide ReadRec, SendRec;
    if recs != [] {
      var (wire, k1) := SendRec(k, recs[0]);
      var tail := SendAll(k1, recs[1..]).0 + rest;
      assert c.raw == wire + tail;
      ReadsBack(c, k, recs[0], tail);
      YieldsSent(c.(raw := tail, readKeys := k1), k1, recs[1..], rest);
    }
  }

  // ----- handshake messages ----------------------------------------------

  function HandshakeBytes(recs: seq<Rec>): Bytes {
    if recs == [] then []
    else (if recs[0].typ == HANDSHAKE then recs[0].data else []) + HandshakeBytes(recs[1..])
  }

  predicate HandshakeOnly(recs: seq<Rec>) {
    forall r :: r in recs ==> r.typ == HANDSHAKE || r.typ == CHANGE_CIPHER_SPEC
  }

  /** A message: its header announces exactly its body. */
  predicate IsMessage(msg: Bytes) {
    |msg| >= HEADER_LEN && |msg| == HEADER_LEN + BodyLen(msg)
  }

  predicate AllMessages(msgs: seq<Bytes>) {
    forall i :: 0 <= i < |msgs| ==> IsMessage(msgs[i])
  }

  /** The buffer holds the message once its last byte is there, and not before. */
  lemma TakeIff(buf: Bytes, more: Bytes, msg: Bytes, tail: Bytes)
    requires IsMessage(msg) && buf + more == msg + tail
    ensures TakeMessage(buf) == if |buf| < |msg| then None else Some((msg, buf[|msg|..]))
    ensures |buf| >= |msg| ==> buf[|msg|..] + more == tail
  {
    if |buf| >= HEADER_LEN {
      assert forall i :: 0 <= i < HEADER_LEN ==> (buf + more)[i] == buf[i] && (msg + tail)[i] == msg[i];
    }
    if |buf| >= |msg| {
      assert (buf + more)[..|msg|] == buf[..|msg|] && (msg + tail)[..|msg|] == msg;
      assert (buf + more)[|msg|..] == buf[|msg|..] + more && (msg + tail)[|msg|..] == tail;
    }
  }

  /** The next message comes out whatever the cut; only the records it needs are
      read, and exactly the undelivered bytes stay behind. */
  lemma {:induction false} NextMessage(c: Conn, recs: seq<Rec>, rest: Bytes, keys: Option<Keys>, msg: Bytes,
                                       tail: Bytes)
    returns (j: nat)
    requires c.Valid() && Yields(c, recs, rest, keys) && HandshakeOnly(recs)
    requires IsMessage(msg) && c.hsBuf + HandshakeBytes(recs) == msg + tail
    ensures j <= |recs|
    ensures var (d, r) := ReadMessage(c);
      && r == Ok(msg) && Yields(d, recs[j..], rest, keys) && d.hsBuf + HandshakeBytes(recs[j..]) == tail
      && (j > 0 ==> |c.hsBuf + HandshakeBytes(recs[..j - 1])| < |msg|)
    decreases |recs|
  {
    hide ReadRec, TakeMessage;
    TakeIff(c.hsBuf, HandshakeBytes(recs), msg, tail);
    if |c.hsBuf| >= |msg| {
      j := 0;
      YieldsFrame(c, c.(hsBuf := c.hsBuf[|msg|..]), recs, rest, keys);
      assert recs[0..] == recs;
    } else {
      assert c.hsBuf + [] == c.hsBuf;
      var c1 := ReadRec(c).0;
      var data := if recs[0].typ == HANDSHAKE then recs[0].data else [];
      var d := c1.(hsBuf := c.hsBuf + data);
      assert c.hsBuf + HandshakeBytes(recs) == d.hsBuf + HandshakeBytes(recs[1..]);
      YieldsFrame(c1, d, recs[1..], rest, keys);
      var i := NextMessage(d, recs[1..], rest, keys, msg, tail);
      j := i + 1;
      assert recs[1..][i..] == recs[j..];
      assert c.hsBuf + [] == c.hsBuf;
      assert recs[..i] == if i == 0 then [] else [recs[0]] + recs[1..][..i - 1];
    }
  }

  lemma {:induction false} MessagesThrough(c: Conn, recs: seq<Rec>, rest: Bytes, keys: Option<Keys>,
                                           msgs: seq<Bytes>, tail: Bytes) returns (j: nat)
    requires c.Valid() && Yields(c, recs, rest, keys) && HandshakeOnly(recs)
    requires AllMessages(msgs) && c.hsBuf + HandshakeBytes(recs) == Concat(msgs) + tail
    ensures j <= |recs|
    ensures var (d, got) := ReadMessages(c, |msgs|);
      got == msgs && Yields(d, recs[j..], rest, keys) && d.hsBuf + HandshakeBytes(recs[j..]) == tail
    decreases |msgs|
  {
    hide ReadMessage, HandshakeBytes, IsMessage, Yields;
    if msgs == [] {
      j := 0;
      assert recs[0..] == recs;
      assert Concat(msgs) + tail == tail;
    } else {
      ConcatFirst(msgs, tail);
      var i := NextMessage(c, recs, rest, keys, msgs[0], Concat(msgs[1..]) + tail);
      var k := MessagesThrough(ReadMessage(c).0, recs[i..], rest, keys, msgs[1..], tail);
      j := i + k;
      assert recs[i..][k..] == recs[j..];
    }
  }

  lemma ConcatFirst(msgs: seq<Bytes>, tail: Bytes)
    requires msgs != []
    ensures Concat(msgs) + tail == msgs[0] + (Concat(msgs[1..]) + tail)
  {
  }

  /** Framing independence, in either epoch: for any messages, any cut of their
      bytes into records (empty ones too) with ChangeCipherSpec records anywhere
      between, the messages come out in order, nothing is left in the buffer,
      and the transport and the keys stand right after the last record read. */
  lemma FramingIndependence(c: Conn, k: Option<Keys>, recs: seq<Rec>, rest: Bytes, msgs: seq<Bytes>)
    requires c.Valid() && c.readKeys == k && (k.Some? ==> k.value.aead.Lawful())
    requires KeysOk(k) && (forall r :: r in recs ==> CanSend(k.Some?, r)) && HandshakeOnly(recs)
    requires c.hsBuf == [] && c.raw == SendAll(k, recs).0 + rest
    requires AllMessages(msgs) && HandshakeBytes(recs) == Concat(msgs)
    ensures var (d, got) := ReadMessages(c, |msgs|);
      && got == msgs && d.hsBuf == []
      && exists j ::
           0 <= j <= |recs| && HandshakeBytes(recs[j..]) == [] && Yields(d, recs[j..], rest, SendAll(k, recs).1)
  {
    hide ReadMessages, HandshakeBytes, Concat, SendAll, Yields, IsMessage, AllMessages, HandshakeOnly, KeysOk, CanSend;
    YieldsSent(c, k, recs, rest);
    assert Concat(msgs) + [] == Concat(msgs);
    assert [] + HandshakeBytes(recs) == HandshakeBytes(recs);
    var j := MessagesThrough(c, recs, rest, SendAll(k, recs).1, msgs, []);
    NothingIn(ReadMessages(c, |msgs|).0.hsBuf, HandshakeBytes(recs[j..]));
  }

  lemma NothingIn(a: Bytes, b: Bytes)
    requires a + b == []
    ensures a == [] && b == []
  {
    assert |a + b| == |a| + |b|;
  }

  // ----- application data ------------------------------------------------

  function AppBytes(recs: seq<Rec>): Bytes {
    if recs == [] then []
    else (if recs[0].typ == APPLICATION_DATA then recs[0].data else []) + AppBytes(recs[1..])
  }

  /** Application data, and the post-handshake messages a reader skips. */
  predicate AppOnly(recs: seq<Rec>) {
    forall r :: r in recs ==> r.typ == APPLICATION_DATA || r.typ == HANDSHAKE
  }

  /** What a reader of c will still deliver, and its keys after that. */
  ghost predicate Pending(c: Conn, recs: seq<Rec>, keys: Option<Keys>, pending: Bytes)
    requires c.Valid()
  {
    AppOnly(recs) && Yields(c, recs, [], keys) && pending == c.inAppData + AppBytes(recs)
  }

  /** A read with room returns at least one byte while any are pending, takes them
      from the front, stops short only at the end of a record, and reports the
      end only when all were delivered. */
  lemma {:induction false} ReadAppStep(c: Conn, recs: seq<Rec>, keys: Option<Keys>, pending: Bytes, n: nat)
    returns (recs': seq<Rec>, pending': Bytes)
    requires c.Valid() && Pending(c, recs, keys, pending) && n > 0
    ensures var (d, r) := ReadApp(c, n);
      if pending == [] then r == Err(Eof) && d.readKeys == keys
      else
        && r.Ok? && 0 < |r.value| <= n && pending == r.value + pending' && Pending(d, recs', keys, pending')
        && (|r.value| == n || d.inAppData == [])
    decreases |recs|
  {
    hide ReadRec;
    if c.inAppData != [] {
      var d := ReadApp(c, n).0;
      YieldsFrame(c, d, recs, [], keys);
      recs', pending' := recs, d.inAppData + AppBytes(recs);
      assert c.inAppData == ReadApp(c, n).1.value + d.inAppData;
    } else if recs == [] {
      recs', pending' := [], [];
      EndOfStream(c);
    } else {
      var c1 := ReadRec(c).0;
      var d := if recs[0].typ == APPLICATION_DATA then c1.(inAppData := recs[0].data) else c1;
      YieldsFrame(c1, d, recs[1..], [], keys);
      assert pending == d.inAppData + AppBytes(recs[1..]);
      recs', pending' := ReadAppStep(d, recs[1..], keys, pending, n);
    }
  }

  lemma EndOfStream(c: Conn)
    requires c.Valid() && c.raw == []
    ensures ReadRec(c).1 == Err(Eof) && ReadRec(c).0.readKeys == c.readKeys
  {
  }

  // ----- what stops a reader ---------------------------------------------

  /** The error for a record that does not belong here. */
  function Refusal(typ: byte): Error {
    if typ == ALERT then PeerAlert else UnexpectedRecord(typ)
  }

  /** Records that bring no application data, and then one of another kind: the read
      fails with that record's error. */
  lemma {:induction false} ReadAppStops(c: Conn, recs: seq<Rec>, r: Rec, rest: Bytes, keys: Option<Keys>, n: nat)
    requires c.Valid() && c.inAppData == [] && Yields(c, recs + [r], rest, keys)
    requires AppOnly(recs) && AppBytes(recs) == [] && r.typ != APPLICATION_DATA && r.typ != HANDSHAKE
    ensures ReadApp(c, n).1 == Err(Refusal(r.typ))
    decreases |recs|
  {
    hide ReadRec;
    var all := recs + [r];
    if recs == [] {
      assert all[0] == r;
    } else {
      assert all[0] == recs[0] && all[1..] == recs[1..] + [r];
      var c1 := ReadRec(c).0;
      NothingIn(if recs[0].typ == APPLICATION_DATA then recs[0].data else [], AppBytes(recs[1..]));
      var d := if recs[0].typ == APPLICATION_DATA then c1.(inAppData := recs[0].data) else c1;
      YieldsFrame(c1, d, all[1..], rest, keys);
      ReadAppStops(d, recs[1..], r, rest, keys, n);
    }
  }

  /** A message still incomplete when a record of another kind comes is never
      returned; what was received of it stays in the buffer. */
  lemma {:induction false} ReadMessageStops(c: Conn, recs: seq<Rec>, r: Rec, rest: Bytes, keys: Option<Keys>)
    requires c.Valid() && Yields(c, recs + [r], rest, keys) && HandshakeOnly(recs)
    requires r.typ != HANDSHAKE && r.typ != CHANGE_CIPHER_SPEC && Incomplete(c.hsBuf + HandshakeBytes(recs))
    ensures var (d, got) := ReadMessage(c);
      got == Err(Refusal(r.typ)) && d.hsBuf == c.hsBuf + HandshakeBytes(recs) && d.raw == rest
    decreases |recs|
  {
    hide ReadRec, TakeMessage;
    var all := recs + [r];
    IncompleteFront(c.hsBuf, HandshakeBytes(recs));
    if recs == [] {
      assert all[0] == r && all[1..] == [] && c.hsBuf + [] == c.hsBuf;
    } else {
      assert all[0] == recs[0] && all[1..] == recs[1..] + [r];
      var c1 := ReadRec(c).0;
      var data := if recs[0].typ == HANDSHAKE then recs[0].data else [];
      var d := c1.(hsBuf := c.hsBuf + data);
      assert c.hsBuf + HandshakeBytes(recs) == d.hsBuf + HandshakeBytes(recs[1..]);
      assert recs[0].typ != HANDSHAKE ==> c.hsBuf + data == c.hsBuf;
      YieldsFrame(c1, d, all[1..], rest, keys);
      ReadMessageStops(d, recs[1..], r, rest, keys);
    }
  }

  /** A proper part of a message: its header, or what the header announces, is not all there. */
  predicate Incomplete(buf: Bytes) {
    |buf| < HEADER_LEN || |buf| < HEADER_LEN + BodyLen(buf)
  }

  lemma IncompleteFront(buf: Bytes, more: Bytes)
    requires Incomplete(buf + more)
    ensures TakeMessage(buf) == None
  {
    if |buf| >= HEADER_LEN {
      assert forall i :: 0 <= i < HEADER_LEN ==> (buf + more)[i] == buf[i];
    }
  }

  /** Under keys a record is opened only if its outer type is application data;
      ChangeCipherSpec passes, any other type is refused and the keys stay. */
  lemma OuterTypes(c: Conn, typ: byte, fragment: Bytes, rest: Bytes)
    requires c.Valid() && c.readKeys.Some? && |fragment| <= MAX_CIPHERTEXT
    requires c.raw == WriteRecord(typ, fragment).value + rest && typ != APPLICATION_DATA
    ensures ReadRec(c) == (c.(raw := rest),
                           if typ == CHANGE_CIPHER_SPEC then Ok(Rec(typ, fragment)) else Err(BadOuterType(typ)))
  {
    FramingRoundTrip(typ, fragment, rest);
  }

  predicate AllPositive(sizes: seq<nat>) {
    forall i :: 0 <= i < |sizes| ==> sizes[i] > 0
  }

  /** Reads with the given buffer sizes, until the first error. */
  function ReadMany(c: Conn, sizes: seq<nat>): (Conn, seq<Bytes>, bool)
    requires c.Valid()
    decreases |sizes|
  {
    if sizes == [] then (c, [], true) else
    var (d, r) := ReadApp(c, sizes[0]);
    if r.Err? then (d, [], false) else
    var (e, parts, ok) := ReadMany(d, sizes[1..]);
    (e, [r.value] + parts, ok)
  }

  lemma {:induction false} ReadManyStep(c: Conn, recs: seq<Rec>, keys: Option<Keys>, pending: Bytes, sizes: seq<nat>)
    returns (left: Bytes)
    requires c.Valid() && Pending(c, recs, keys, pending) && AllPositive(sizes)
    ensures var (d, parts, ok) := ReadMany(c, sizes);
      && pending == Concat(parts) + left && (!ok ==> left == [] && d.readKeys == keys)
      && (ok ==> |parts| == |sizes|) && (forall p :: p in parts ==> p != [])
    decreases |sizes|
  {
    hide ReadApp;
    if sizes == [] {
      left := pending;
      assert [] + pending == pending;
    } else {
      var recs1, pending1 := ReadAppStep(c, recs, keys, pending, sizes[0]);
      var (d, r) := ReadApp(c, sizes[0]);
      if r.Ok? {
        left := ReadManyStep(d, recs1, keys, pending1, sizes[1..]);
        var parts := ReadMany(d, sizes[1..]).1;
        assert ([r.value] + parts)[1..] == parts;
        assert r.value + (Concat(parts) + left) == r.value + Concat(parts) + left;
      } else {
        left := [];
      }
    }
  }

  // ----- the writer's side -----------------------------------------------

  function ChunkRecs(data: Bytes): (recs: seq<Rec>)
    ensures AppOnly(recs) && forall r :: r in recs ==> 0 < |r.data| <= MAX_PLAINTEXT && r.typ == APPLICATION_DATA
    decreases |data|
  {
    if data == [] then [] else
    var chunk := ChunkOf(data);
    [Rec(APPLICATION_DATA, chunk)] + ChunkRecs(data[|chunk|..])
  }

  /** Every chunk is full but the last. */
  lemma {:induction false} ChunkSizes(data: Bytes)
    ensures (|ChunkRecs(data)| - 1) * 16384 < |data| <= |ChunkRecs(data)| * 16384
    ensures forall i :: 0 <= i < |ChunkRecs(data)| - 1 ==> |ChunkRecs(data)[i].data| == 16384
    decreases |data|
  {
    if data != [] {
      var chunk := ChunkOf(data);
      var (recs, more) := (ChunkRecs(data), ChunkRecs(data[|chunk|..]));
      ChunkSizes(data[|chunk|..]);
      assert recs == [Rec(APPLICATION_DATA, chunk)] + more;
      forall i | 0 <= i < |recs| - 1 ensures |recs[i].data| == MAX_PLAINTEXT {
        assert i > 0 ==> recs[i] == more[i - 1];
      }
    }
  }

  lemma {:induction false} ChunksCarry(k: Keys, data: Bytes)
    requires |k.iv| == 12
    ensures var w := SendAll(Some(k), ChunkRecs(data));
      AppBytes(ChunkRecs(data)) == data && w == (WriteApp(k, data).0, Some(WriteApp(k, data).1))
    decreases |data|
  {
    if data != [] {
      var chunk := ChunkOf(data);
      var rest := data[|chunk|..];
      var k1 := SealRecord(k, APPLICATION_DATA, chunk).value.1;
      ChunksCarry(k1, rest);
      assert ChunkRecs(data)[1..] == ChunkRecs(rest);
      assert chunk + rest == data;
    }
  }

  function WriteMany(k: Keys, writes: seq<Bytes>): (Bytes, Keys)
    requires |k.iv| == 12
    decreases |writes|
  {
    if writes == [] then ([], k) else
    var (wire, k1) := WriteApp(k, writes[0]);
    var (rest, k2) := WriteMany(k1, writes[1..]);
    (wire + rest, k2)
  }

  function WriteRecs(writes: seq<Bytes>): (recs: seq<Rec>)
    ensures AppOnly(recs) && forall r :: r in recs ==> 0 < |r.data| <= MAX_PLAINTEXT && r.typ == APPLICATION_DATA
  {
    if writes == [] then [] else ChunkRecs(writes[0]) + WriteRecs(writes[1..])
  }

  lemma Assoc(a: Bytes, b: Bytes, c: Bytes)
    ensures a + (b + c) == a + b + c
  {
  }

  lemma {:induction false} SendAppend(k: Keys, a: seq<Rec>, b: seq<Rec>)
    requires |k.iv| == 12 && forall r :: r in a + b ==> CanSend(true, r)
    ensures (forall r :: r in a ==> CanSend(true, r)) && (forall r :: r in b ==> CanSend(true, r))
    ensures var (wa, k1) := SendAll(Some(k), a); var (wb, k2) := SendAll(k1, b);
      SendAll(Some(k), a + b) == (wa + wb, k2) && AppBytes(a + b) == AppBytes(a) + AppBytes(b)
    decreases |a|
  {
    if a == [] {
      assert a + b == b;
      assert [] + SendAll(Some(k), b).0 == SendAll(Some(k), b).0;
    } else {
      hide SendRec, CanSend;
      var (w, k1) := SendRec(Some(k), a[0]);
      assert (a + b)[1..] == a[1..] + b && (a + b)[0] == a[0];
      SendAppend(k1.value, a[1..], b);
      var (wa, ka) := SendAll(k1, a[1..]);
      Assoc(w, wa, SendAll(ka, b).0);
      Assoc(if a[0].typ == APPLICATION_DATA then a[0].data else [], AppBytes(a[1..]), AppBytes(b));
    }
  }

  lemma {:induction false} WritesCarry(k: Keys, writes: seq<Bytes>)
    requires |k.iv| == 12
    ensures AppBytes(WriteRecs(writes)) == Concat(writes)
    ensures SendAll(Some(k), WriteRecs(writes)) == (WriteMany(k, writes).0, Some(WriteMany(k, writes).1))
    decreases |writes|
  {
    if writes != [] {
      var k1 := WriteApp(k, writes[0]).1;
      ChunksCarry(k, writes[0]);
      WritesCarry(k1, writes[1..]);
      SendAppend(k, ChunkRecs(writes[0]), WriteRecs(writes[1..]));
    }
  }

  /** Application stream round trip: whatever was written, in whatever Write calls,
      a peer with the same keys reads in order, for every sequence of buffer
      sizes; when it sees the end of the stream it has read everything and its
      counter equals the writer's, and otherwise every read gave a byte or more. */
  lemma StreamRoundTrip(c: Conn, k: Keys, writes: seq<Bytes>, sizes: seq<nat>)
    requires c.Valid() && |k.iv| == 12 && k.aead.Lawful() && c.readKeys == Some(k) && c.inAppData == []
    requires c.raw == WriteMany(k, writes).0 && AllPositive(sizes)
    ensures var (d, parts, ok) := ReadMany(c, sizes);
      && Concat(parts) <= Concat(writes)
      && (!ok ==> Concat(parts) == Concat(writes) && d.readKeys == Some(WriteMany(k, writes).1))
      && (ok ==> |parts| == |sizes|) && (forall p :: p in parts ==> p != [])
  {
    hide ReadMany, WriteRecs, WriteMany, Pending, Concat;
    PendingWrites(c, k, writes);
    var left := ReadManyStep(c, WriteRecs(writes), Some(WriteMany(k, writes).1), Concat(writes), sizes);
  }

  lemma PendingWrites(c: Conn, k: Keys, writes: seq<Bytes>)
    requires c.Valid() && |k.iv| == 12 && k.aead.Lawful() && c.readKeys == Some(k) && c.inAppData == []
    requires c.raw == WriteMany(k, writes).0
    ensures Pending(c, WriteRecs(writes), Some(WriteMany(k, writes).1), Concat(writes))
  {
    hide SendAll, WriteMany, Yields, AppBytes;
    WritesCarry(k, writes);
    assert c.raw == c.raw + [];
    YieldsSent(c, Some(k), WriteRecs(writes), []);
    assert [] + Concat(writes) == Concat(writes);
  }
}
