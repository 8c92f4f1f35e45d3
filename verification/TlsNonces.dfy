/** No direction of a connection seals two records under one key and nonce:
    the writer's history over any sequence of seals and key switches. */
module TlsNonces {
  import opened Wrappers
  import opened Bits
  import opened TlsRecord
  import opened Wire
  import opened TlsModel
  import opened TlsFraming
  import opened TlsHandshakeModel
  import opened TlsHandshake

  /** One AEAD invocation: which key (by epoch) and which nonce. */
  datatype Use = Use(epoch: nat, nonce: Bytes)

  /** The writing half of a connection and every Seal it made. */
  datatype Writer = Writer(keys: Option<Keys>, epoch: nat, wire: Bytes, log: seq<Use>)

  datatype Act = Plain(rec: Rec) | Sealed(rec: Rec) | Switch(keys: Keys)

  const START: Writer := Writer(None, 0, [], [])

  /** Fresh keys: the only ones a connection ever installs (newRecordKeysFromSecret). */
  predicate ActOk(a: Act) {
    a.Switch? ==> |a.keys.iv| == 12 && a.keys.seqNo == 0
  }

  function Step(w: Writer, a: Act): (w': Writer)
    requires KeysOk(w.keys) && ActOk(a)
    ensures KeysOk(w'.keys)
  {
    match a
    case Plain(rec) =>
      if WriteRecord(rec.typ, rec.data).Err? then w else w.(wire := w.wire + WriteRecord(rec.typ, rec.data).value)
    case Switch(k) => w.(keys := Some(k), epoch := w.epoch + 1)
    case Sealed(rec) =>
      if w.keys.None? then w else
      match SealRecord(w.keys.value, rec.typ, rec.data)
      case Err(_) => w
      case Ok((wire, k)) => Writer(Some(k), w.epoch, w.wire + wire,
        w.log + [Use(w.epoch, NonceForSeq(w.keys.value.iv, w.keys.value.seqNo))])
  }

  predicate ActsOk(acts: seq<Act>) {
    forall i :: 0 <= i < |acts| ==> ActOk(acts[i])
  }

  function Run(w: Writer, acts: seq<Act>): (w': Writer)
    requires KeysOk(w.keys) && ActsOk(acts)
    ensures KeysOk(w'.keys)
    decreases |acts|
  {
    if acts == [] then w else Run(Step(w, acts[0]), acts[1..])
  }

  // ----- the history -----------------------------------------------------

  /** How many of these seals were made in an epoch. */
  function Count(log: seq<Use>, epoch: nat): (n: nat)
    ensures n <= |log|
  {
    if log == [] then 0 else Count(log[..|log| - 1], epoch) + if log[|log| - 1].epoch == epoch then 1 else 0
  }

  predicate NoReuse(log: seq<Use>) {
    forall i, j :: 0 <= i < j < |log| ==> log[i] != log[j]
  }

  /** Seal number i used the i-th sequence number of its epoch, modulo 2^64. */
  ghost predicate Numbered(log: seq<Use>, ivs: seq<Bytes>, i: nat)
    requires i < |log|
  {
    && log[i].epoch < |ivs| && |ivs[log[i].epoch]| == 12
    && log[i].nonce == NonceForSeq(ivs[log[i].epoch], Count(log[..i], log[i].epoch) % SEQ_MOD)
  }

  ghost predicate History(w: Writer, ivs: seq<Bytes>) {
    && |ivs| == w.epoch + 1
    && (w.keys.Some? ==> |w.keys.value.iv| == 12 && w.keys.value.iv == ivs[w.epoch]
                         && w.keys.value.seqNo == Count(w.log, w.epoch) % SEQ_MOD)
    && forall i :: 0 <= i < |w.log| ==> Numbered(w.log, ivs, i)
  }

  lemma NumberedFrame(log: seq<Use>, ivs: seq<Bytes>, more: seq<Use>, ivs': seq<Bytes>, i: nat)
    requires i < |log| && Numbered(log, ivs, i) && ivs <= ivs'
    ensures Numbered(log + more, ivs', i)
  {
    assert (log + more)[..i] == log[..i];
  }

  lemma {:induction false} CountNone(log: seq<Use>, epoch: nat)
    requires forall i :: 0 <= i < |log| ==> log[i].epoch != epoch
    ensures Count(log, epoch) == 0
  {
    if log != [] {
      CountNone(log[..|log| - 1], epoch);
    }
  }

  lemma StepHistory(w: Writer, ivs: seq<Bytes>, a: Act) returns (ivs': seq<Bytes>)
    requires ActOk(a) && History(w, ivs)
    ensures History(Step(w, a), ivs') && ivs <= ivs'
  {
    hide NonceForSeq, Numbered, Count;
    var w' := Step(w, a);
    ivs' := if a.Switch? then ivs + [a.keys.iv] else ivs;
    if a.Switch? {
      forall i | 0 <= i < |w.log| ensures Numbered(w.log, ivs', i) {
        NumberedFrame(w.log, ivs, [], ivs', i);
        assert w.log + [] == w.log;
      }
      NoneYet(w, ivs);
    } else if w'.log != w.log {
      var use := w'.log[|w.log|];
      assert w'.log == w.log + [use];
      forall i | 0 <= i < |w.log| ensures Numbered(w'.log, ivs, i) {
        NumberedFrame(w.log, ivs, [use], ivs, i);
      }
      LastNumbered(w.log, use, ivs, w.keys.value);
      NextNumber(w.log, use, w.keys.value);
    }
  }

  lemma NoneYet(w: Writer, ivs: seq<Bytes>)
    requires History(w, ivs)
    ensures Count(w.log, w.epoch + 1) == 0
  {
    forall i | 0 <= i < |w.log| ensures w.log[i].epoch != w.epoch + 1 {
      assert Numbered(w.log, ivs, i);
    }
    CountNone(w.log, w.epoch + 1);
  }

  lemma LastNumbered(log: seq<Use>, use: Use, ivs: seq<Bytes>, k: Keys)
    requires use.epoch < |ivs| && |k.iv| == 12 && ivs[use.epoch] == k.iv && k.seqNo == Count(log, use.epoch) % SEQ_MOD
    requires use.nonce == NonceForSeq(k.iv, k.seqNo)
    ensures Numbered(log + [use], ivs, |log|)
  {
    hide NonceForSeq, Count;
    var all := log + [use];
    assert all[..|log|] == log && all[|log|] == use;
  }

  lemma NextNumber(log: seq<Use>, use: Use, k: Keys)
    requires k.seqNo == Count(log, use.epoch) % SEQ_MOD
    ensures NextSeq(k.seqNo) == Count(log + [use], use.epoch) % SEQ_MOD
  {
    hide Count, NextSeq;
    CountLast(log, use);
    NextMod(Count(log, use.epoch));
  }

  lemma CountLast(log: seq<Use>, use: Use)
    ensures (log + [use])[..|log|] == log && Count(log + [use], use.epoch) == Count(log, use.epoch) + 1
  {
    assert (log + [use])[..|log|] == log;
  }

  lemma NextMod(n: nat)
    ensures NextSeq(n % SEQ_MOD) == (n + 1) % SEQ_MOD
  {
    var (q, r) := (n / SEQ_MOD, n % SEQ_MOD);
    if r + 1 == SEQ_MOD {
      DivModUnique(n + 1, SEQ_MOD, q + 1, 0);
    } else {
      DivModUnique(n + 1, SEQ_MOD, q, r + 1);
    }
  }

  lemma {:induction false} RunHistory(w: Writer, ivs: seq<Bytes>, acts: seq<Act>) returns (ivs': seq<Bytes>)
    requires ActsOk(acts) && History(w, ivs)
    ensures History(Run(w, acts), ivs')
    decreases |acts|
  {
    hide Step, History;
    ivs' := ivs;
    if acts != [] {
      HistoryOk(w, ivs);
      var mid := StepHistory(w, ivs, acts[0]);
      ivs' := RunHistory(Step(w, acts[0]), mid, acts[1..]);
    } else {
      HistoryOk(w, ivs);
    }
  }

  lemma HistoryOk(w: Writer, ivs: seq<Bytes>)
    requires History(w, ivs)
    ensures KeysOk(w.keys)
  {
  }

  // ----- counting --------------------------------------------------------

  /** Ranks grow along the log. */
  lemma {:induction false} CountMonotone(log: seq<Use>, epoch: nat, i: nat)
    requires i <= |log|
    ensures Count(log[..i], epoch) <= Count(log, epoch)
    ensures i < |log| && log[i].epoch == epoch ==> Count(log[..i], epoch) < Count(log, epoch)
    decreases |log|
  {
    if i == |log| {
      assert log[..i] == log;
    } else {
      var init := log[..|log| - 1];
      CountMonotone(init, epoch, i);
      assert init[..i] == log[..i];
    }
  }

  /** Every rank below the count is some seal's. */
  lemma {:induction false} AtRank(log: seq<Use>, epoch: nat, rank: nat) returns (i: nat)
    requires rank < Count(log, epoch)
    ensures i < |log| && log[i].epoch == epoch && Count(log[..i], epoch) == rank
  {
    var init := log[..|log| - 1];
    if rank < Count(init, epoch) {
      i := AtRank(init, epoch, rank);
      assert init[..i] == log[..i];
    } else {
      i := |log| - 1;
    }
  }

  lemma SameRankMod(a: nat, b: nat)
    requires a < b && a % SEQ_MOD == b % SEQ_MOD
    ensures b >= SEQ_MOD
  {
  }

  /** Over any run of the writer, whatever it sends and whenever it switches keys,
      no (key, nonce) pair is used twice exactly when no key sealed more than
      2^64 records. */
  lemma NoReuseIff(acts: seq<Act>)
    requires ActsOk(acts)
    ensures var log := Run(START, acts).log;
      NoReuse(log) <==> forall epoch :: Count(log, epoch) <= SEQ_MOD
  {
    hide Run, Count, NonceForSeq;
    var log := Run(START, acts).log;
    StartHistory();
    var ivs := RunHistory(START, [[]], acts);
    if epoch :| Count(log, epoch) > SEQ_MOD {
      var i := AtRank(log, epoch, 0);
      var j := AtRank(log, epoch, SEQ_MOD);
      assert Numbered(log, ivs, i) && Numbered(log, ivs, j);
      if i < j { assert log[i] == log[j]; } else { assert i != j && log[j] == log[i]; }
    } else {
      forall i, j | 0 <= i < j < |log| ensures log[i] != log[j] {
        if log[i] == log[j] {
          RepeatIsLong(log, ivs, i, j);
        }
      }
    }
  }

  lemma StartHistory()
    ensures History(START, [[]])
  {
  }

  lemma RepeatIsLong(log: seq<Use>, ivs: seq<Bytes>, i: nat, j: nat)
    requires i < j < |log| && log[i] == log[j] && Numbered(log, ivs, i) && Numbered(log, ivs, j)
    ensures Count(log, log[i].epoch) > SEQ_MOD
  {
    hide Count, NonceForSeq;
    var e := log[i].epoch;
    var (a, b) := (Count(log[..i], e), Count(log[..j], e));
    NonceInjective(ivs[e], a % SEQ_MOD, b % SEQ_MOD);
    CountMonotone(log[..j], e, i);
    assert log[..j][..i] == log[..i];
    SameRankMod(a, b);
    CountMonotone(log, e, j);
  }

  // ----- a whole connection ----------------------------------------------

  function ActsOf(recs: seq<Rec>): (acts: seq<Act>)
    ensures ActsOk(acts)
  {
    if recs == [] then []
    else [if recs[0].typ == CHANGE_CIPHER_SPEC then Plain(recs[0]) else Sealed(recs[0])] + ActsOf(recs[1..])
  }

  /** How many of these records are sealed. */
  function SealedCount(recs: seq<Rec>): (n: nat) {
    if recs == [] then 0 else (if recs[0].typ == CHANGE_CIPHER_SPEC then 0 else 1) + SealedCount(recs[1..])
  }

  /** Sending records under keys is a run of the writer that stays in its epoch. */
  lemma {:induction false} SendAllRuns(w: Writer, recs: seq<Rec>)
    requires KeysOk(w.keys) && w.keys.Some? && forall r :: r in recs ==> CanSend(true, r)
    ensures var w' := Run(w, ActsOf(recs));
      && w'.wire == w.wire + SendAll(w.keys, recs).0 && w'.keys == SendAll(w.keys, recs).1 && w'.epoch == w.epoch
      && forall e :: Count(w'.log, e) == Count(w.log, e) + if e == w.epoch then SealedCount(recs) else 0
    decreases |recs|
  {
    if recs == [] {
      assert w.wire + [] == w.wire;
    } else {
      SendOne(w, recs[0]);
      hide SendRec, Step, CanSend, Count;
      var acts := ActsOf(recs);
      assert acts[1..] == ActsOf(recs[1..]);
      var w1 := Step(w, acts[0]);
      SendAllRuns(w1, recs[1..]);
      Assoc(w.wire, SendRec(w.keys, recs[0]).0, SendAll(w1.keys, recs[1..]).0);
    }
  }

  lemma SendOne(w: Writer, r: Rec)
    requires KeysOk(w.keys) && w.keys.Some? && CanSend(true, r)
    ensures var w' := Step(w, ActsOf([r])[0]);
      && w'.wire == w.wire + SendRec(w.keys, r).0 && w'.keys == SendRec(w.keys, r).1 && w'.epoch == w.epoch
      && w'.keys.Some?
      && forall e :: Count(w'.log, e) == Count(w.log, e) + if e == w.epoch && r.typ != CHANGE_CIPHER_SPEC then 1 else 0
    ensures ActsOf([r])[0] == if r.typ == CHANGE_CIPHER_SPEC then Plain(r) else Sealed(r)
  {
    hide NonceForSeq;
    var w' := Step(w, ActsOf([r])[0]);
    if r.typ != CHANGE_CIPHER_SPEC {
      assert w'.log[..|w'.log| - 1] == w.log;
    }
  }

  lemma {:induction false} RunAppend(w: Writer, a: seq<Act>, b: seq<Act>)
    requires KeysOk(w.keys) && ActsOk(a) && ActsOk(b)
    ensures Run(w, a + b) == Run(Run(w, a), b)
    decreases |a|
  {
    hide Step;
    if a == [] {
      assert a + b == b;
    } else {
      assert (a + b)[1..] == a[1..] + b;
      RunAppend(Step(w, a[0]), a[1..], b);
    }
  }

  /** What a server connection does to its writer: its handshake, then its writes. */
  function ConnectionActs(cert: Certificate, draws: Draws, x: Crypto, ch: Bytes, appKeys: Keys, writes: seq<Bytes>)
    : (acts: seq<Act>)
    requires Greets(ch, draws) && Flies(cert, SessionOf(ch, draws, x), x) && |appKeys.iv| == 12 && appKeys.seqNo == 0
    ensures ActsOk(acts)
  {
    hide Greets, Flies, SessionOf, Opening, Flight, FlightRecs, ActsOk;
    InOrder(Opening(draws, x, ch), ActsOf(FlightRecs(Flight(cert, SessionOf(ch, draws, x), x))), appKeys,
      ActsOf(WriteRecs(writes)))
  }

  function InOrder(opening: seq<Act>, flight: seq<Act>, appKeys: Keys, app: seq<Act>): (acts: seq<Act>)
    requires ActsOk(opening) && ActsOk(flight) && |appKeys.iv| == 12 && appKeys.seqNo == 0 && ActsOk(app)
    ensures ActsOk(acts)
  {
    opening + flight + [Switch(appKeys)] + app
  }

  function Opening(draws: Draws, x: Crypto, ch: Bytes): (acts: seq<Act>)
    requires Greets(ch, draws)
    ensures ActsOk(acts)
  {
    [Plain(Rec(TlsRecord.HANDSHAKE, AnswerTo(ch, draws))), Switch(ServerKeys(ch, draws, x))]
  }

  /** Over a whole completed connection, whatever the client sent, the bytes on the
      wire are the handshake's and the writes', four records are sealed under the
      handshake keys, and no key and nonce come together twice exactly when the
      writes took at most 2^64 records. */
  lemma ConnectionNonces(c: Conn, identity: Option<Certificate>, draws: Draws, x: Crypto, writes: seq<Bytes>)
    returns (ch: Bytes)
    requires c.Valid() && c.out == [] && RunHandshake(c, identity, draws, x).Done?
    ensures var done := RunHandshake(c, identity, draws, x).conn;
      && identity.Some? && Greets(ch, draws) && Flies(identity.value, SessionOf(ch, draws, x), x)
      && done.writeKeys.Some? && KeysOk(done.writeKeys) && done.writeKeys.value.seqNo == 0
      && var w := Run(START, ConnectionActs(identity.value, draws, x, ch, done.writeKeys.value, writes));
      && w.wire == done.out + WriteMany(done.writeKeys.value, writes).0
      && (NoReuse(w.log) <==> |WriteRecs(writes)| <= SEQ_MOD)
  {
    hide Run, RunHandshake, Greets, Flies, SessionOf, AfterFlight, ServerWire, FinishedMsg, WriteMany, ConnectionActs,
      WriteRecs, NoReuse, SendAll, SendRec, Count;
    var fin: Bytes;
    ch, fin := CompletedAgrees(c, identity, draws, x);
    var done := RunHandshake(c, identity, draws, x).conn;
    assert [] + ServerWire(identity.value, draws, x, ch) == ServerWire(identity.value, draws, x, ch);
    var k := done.writeKeys.value;
    ActsRun(identity.value, draws, x, ch, k, writes);
    var acts := ConnectionActs(identity.value, draws, x, ch, k, writes);
    NoReuseIff(acts);
    var log := Run(START, acts).log;
    assert Count(log, 2) == |WriteRecs(writes)|;
  }

  lemma ActsRun(cert: Certificate, draws: Draws, x: Crypto, ch: Bytes, k: Keys, writes: seq<Bytes>)
    requires Greets(ch, draws) && Flies(cert, SessionOf(ch, draws, x), x) && |k.iv| == 12 && k.seqNo == 0
    ensures var w := Run(START, ConnectionActs(cert, draws, x, ch, k, writes));
      && w.wire == ServerWire(cert, draws, x, ch) + WriteMany(k, writes).0
      && forall e :: Count(w.log, e) == if e == 1 then 4 else if e == 2 then |WriteRecs(writes)| else 0
  {
    hide Greets, Flies, SessionOf, AnswerTo, Flight, FlightRecs, Run, SendAll, SendRec, WriteMany, WriteRecs, Count,
      CanSend, ActsOf;
    var recs := FlightRecs(Flight(cert, SessionOf(ch, draws, x), x));
    var (flight, app) := (ActsOf(recs), ActsOf(WriteRecs(writes)));
    var opening := Opening(draws, x, ch);
    WireFits(cert, draws, x, ch);
    RunAppend(START, opening + flight + [Switch(k)], app);
    RunAppend(START, opening + flight, [Switch(k)]);
    RunAppend(START, opening, flight);
    OpeningRuns(draws, x, ch);
    var w1 := Run(START, opening);
    SendAllRuns(w1, recs);
    FlightSealed(Flight(cert, SessionOf(ch, draws, x), x));
    var w2 := Run(w1, flight);
    var w3 := Run(w2, [Switch(k)]);
    SwitchRuns(w2, k);
    AppSends(writes);
    SendAllRuns(w3, WriteRecs(writes));
    WritesCarry(k, writes);
  }

  lemma OpeningRuns(draws: Draws, x: Crypto, ch: Bytes)
    requires Greets(ch, draws) && CanSend(false, Rec(TlsRecord.HANDSHAKE, AnswerTo(ch, draws)))
    ensures Run(START, Opening(draws, x, ch))
      == Writer(Some(ServerKeys(ch, draws, x)), 1, SendRec(None, Rec(TlsRecord.HANDSHAKE, AnswerTo(ch, draws))).0, [])
  {
    hide Greets, AnswerTo, SessionOf;
    PlainThenSwitch(Rec(TlsRecord.HANDSHAKE, AnswerTo(ch, draws)), ServerKeys(ch, draws, x));
  }

  lemma PlainThenSwitch(rec: Rec, k: Keys)
    requires CanSend(false, rec) && |k.iv| == 12 && k.seqNo == 0
    ensures Run(START, [Plain(rec), Switch(k)]) == Writer(Some(k), 1, SendRec(None, rec).0, [])
  {
    var (acts, wire) := ([Plain(rec), Switch(k)], SendRec(None, rec).0);
    var w := Step(START, acts[0]);
    assert acts[1..] == [Switch(k)];
    assert [] + wire == wire;
    SwitchRuns(w, k);
  }

  lemma SwitchRuns(w: Writer, k: Keys)
    requires KeysOk(w.keys) && |k.iv| == 12 && k.seqNo == 0
    ensures Run(w, [Switch(k)]) == w.(keys := Some(k), epoch := w.epoch + 1)
  {
    assert [Switch(k)][1..] == [];
  }

  lemma FlightSealed(flight: seq<Bytes>)
    requires |flight| == 4
    ensures SealedCount(FlightRecs(flight)) == 4
  {
    var recs := FlightRecs(flight);
    assert recs[1..][1..] == recs[2..] && recs[2..][1..] == recs[3..] && recs[3..][1..] == recs[4..]
      && recs[4..][1..] == [];
    assert SealedCount(recs[4..]) == 1;
    assert SealedCount(recs[3..]) == 2;
    assert SealedCount(recs[2..]) == 3;
    assert SealedCount(recs[1..]) == 4;
  }

  lemma AppSends(writes: seq<Bytes>)
    ensures forall r :: r in WriteRecs(writes) ==> CanSend(true, r)
    ensures SealedCount(WriteRecs(writes)) == |WriteRecs(writes)|
  {
    AllSealed(WriteRecs(writes));
  }

  lemma {:induction false} AllSealed(recs: seq<Rec>)
    requires forall r :: r in recs ==> r.typ == TlsRecord.APPLICATION_DATA
    ensures SealedCount(recs) == |recs|
  {
    if recs != [] {
      AllSealed(recs[1..]);
    }
  }
}
