/** The messages a server sends (tls/messages.go), and what it demands of a
    hello (tls/handshake.go). */
module TlsMessages {
  import opened Seq32
  import opened Wrappers
  import opened Wire
  import opened HelloModel
  import opened HelloGrammar
  import M = TlsModel

  const CLIENT_HELLO: byte := 1
  const SERVER_HELLO: byte := 2
  const ENCRYPTED_EXTENSIONS: byte := 8
  const CERTIFICATE: byte := 11
  const CERTIFICATE_VERIFY: byte := 15
  const FINISHED: byte := 20

  const TLS13: u16 := 0x0304
  const TLS12: u16 := 0x0303
  const X25519_GROUP: u16 := 0x001D
  const ECDSA_P256_SHA256: u16 := 0x0403
  const AES128_GCM_SHA256: u16 := 0x1301
  const U24_MAX: int := 0xFFFFFF

  // ----- framing of messages ---------------------------------------------

  function U24Bytes(n: int): Bytes {
    [n / 65536 % 256, n / 256 % 256, n % 256]
  }

  function MarshalHandshake(typ: byte, body: Bytes): Bytes
    requires |body| <= U24_MAX
  {
    [typ] + U24Bytes(|body|) + body
  }

  function ParseHandshake(msg: Bytes): Option<(byte, Bytes)> {
    if |msg| < 4 then None
    else if M.BodyLen(msg) != |msg| - 4 then None else Some((msg[0], msg[4..]))
  }

  /** parseHandshake undoes marshalHandshake and accepts nothing else. */
  lemma HandshakeIff(msg: Bytes, typ: byte, body: Bytes)
    ensures ParseHandshake(msg) == Some((typ, body)) <==> |body| <= U24_MAX && msg == MarshalHandshake(typ, body)
  {
    if |body| <= U24_MAX {
      Marshaled(typ, body);
    }
    if |msg| >= 4 && M.BodyLen(msg) == |msg| - 4 {
      Remarshaled(msg);
    }
    hide U24Bytes, M.BodyLen, MarshalHandshake;
  }

  lemma Marshaled(typ: byte, body: Bytes)
    requires |body| <= U24_MAX
    ensures ParseHandshake(MarshalHandshake(typ, body)) == Some((typ, body))
  {
    var (m, three) := (MarshalHandshake(typ, body), U24Bytes(|body|));
    assert m[1] == three[0] && m[2] == three[1] && m[3] == three[2];
    assert m[4..] == body;
    hide U24Bytes, MarshalHandshake;
    U24Value(|body|);
  }

  lemma U24Value(n: nat)
    requires n <= U24_MAX
    ensures var b := U24Bytes(n); |b| == 3 && b[0] * 65536 + U16At(b, 1) == n
  {
  }

  lemma Remarshaled(msg: Bytes)
    requires |msg| >= 4 && M.BodyLen(msg) == |msg| - 4
    ensures |msg| - 4 <= U24_MAX && msg == MarshalHandshake(msg[0], msg[4..])
  {
    U24Digits(msg[1], msg[2], msg[3]);
    assert msg == [msg[0]] + [msg[1], msg[2], msg[3]] + msg[4..];
  }

  lemma U24Digits(a: byte, b: byte, c: byte)
    ensures var n: int := a * 65536 + b * 256 + c; n / 65536 % 256 == a && n / 256 % 256 == b && n % 256 == c
  {
  }

  // ----- bodies ----------------------------------------------------------

  function ServerHello(random: Bytes, sessionId: Bytes, share: Bytes): (body: Bytes)
    requires |random| == 32 && |sessionId| <= 32 && |share| == 32
    ensures |body| == 86 + |sessionId|
  {
    U16Bytes(TLS12) + (random + (Vec8(sessionId) + (U16Bytes(AES128_GCM_SHA256)
      + ([0] + Vec16(ServerExtensions(share))))))
  }

  function ServerExtensions(share: Bytes): (exts: Bytes)
    requires |share| == 32
    ensures |exts| == 46
  {
    ExtensionsOf(share);
    ServerExtensionBlock(share)
  }

  function ServerExtensionBlock(share: Bytes): Bytes {
    WriteExts([Extension(SUPPORTED_VERSIONS, U16Bytes(TLS13)),
               Extension(KEY_SHARE, U16Bytes(X25519_GROUP) + Vec16(share))])
  }

  function Vec24(body: Bytes): Bytes {
    U24Bytes(|body|) + body
  }

  function CertificateBody(cert: Bytes): Bytes {
    [0] + Vec24(Vec24(cert) + [0, 0])
  }

  function CertificateVerifyBody(signature: Bytes): Bytes {
    U16Bytes(ECDSA_P256_SHA256) + Vec16(signature)
  }

  /** A client's reading of a ServerHello: random, session id and key share. */
  function ReadServerHello(body: Bytes): Parsed<(Bytes, Bytes, Bytes)> {
    var (version, b1) :- TakeU16(body);
    var (random, b2) :- TakeBytes(b1, 32);
    var (sid, b3) :- TakeVec8(b2);
    var (suite, b4) :- TakeU16(b3);
    var (comp, b5) :- TakeU8(b4);
    var (exts, b6) :- TakeVec16(b5);
    var share :- ReadServerExtensions(exts);
    if version == 0x0303 && suite == 0x1301 && comp == 0 && b6 == [] then Ok((random, sid, share))
    else Err(TrailingBytes)
  }

  function ReadServerExtensions(exts: Bytes): Parsed<Bytes> {
    var (typ, e1) :- TakeU16(exts);
    var (selected, e2) :- TakeVec16(e1);
    var (typ', e3) :- TakeU16(e2);
    var (entry, e4) :- TakeVec16(e3);
    var (group, k1) :- TakeU16(entry);
    var (share, k2) :- TakeVec16(k1);
    if e4 == [] && k2 == [] && typ == 43 && selected == [3, 4] && typ' == 51 && group == 0x001D
    then Ok(share) else Err(TrailingBytes)
  }

  /** A client reads back what the server put in, every block consumed. */
  lemma ServerHelloRoundTrip(random: Bytes, sessionId: Bytes, share: Bytes)
    requires |random| == 32 && |sessionId| <= 32 && |share| == 32
    ensures ReadServerHello(ServerHello(random, sessionId, share)) == Ok((random, sessionId, share))
  {
    hide TakeU16, TakeBytes, TakeVec8, TakeVec16, Vec16, U16Bytes, Vec8, ServerExtensions, ReadServerExtensions;
    var exts := ServerExtensions(share);
    ServerExtensionsRead(share);
    var b5 := Vec16(exts);
    var b4 := [0] + b5;
    var b3 := U16Bytes(AES128_GCM_SHA256) + b4;
    var b2 := Vec8(sessionId) + b3;
    var b1 := random + b2;
    U16Iff(ServerHello(random, sessionId, share), TLS12, b1);
    BytesIff(b1, 32, random, b2);
    Vec8Iff(b2, sessionId, b3);
    U16Iff(b3, AES128_GCM_SHA256, b4);
    assert b4[0] == 0 && b4[1..] == b5 && b5 + [] == b5;
    Vec16Iff(b5, exts, []);
  }

  lemma ServerExtensionsRead(share: Bytes)
    requires |share| == 32
    ensures ReadServerExtensions(ServerExtensions(share)) == Ok(share)
  {
    ExtensionsOf(share);
    VersionBytes();
    hide TakeU16, TakeVec16, Vec16, U16Bytes, ServerExtensionBlock, WriteExts;
    U16Iff(U16Bytes(X25519_GROUP) + Vec16(share), X25519_GROUP, Vec16(share));
    assert Vec16(share) + [] == Vec16(share);
    Vec16Iff(Vec16(share), share, []);
  }

  lemma VersionBytes()
    ensures U16Bytes(TLS13) == [3, 4]
  {
  }

  lemma ExtensionsOf(share: Bytes)
    requires |share| == 32
    ensures var entry := U16Bytes(X25519_GROUP) + Vec16(share);
      var second := WriteExts([Extension(KEY_SHARE, entry)]);
      var first := ServerExtensionBlock(share);
      && |first| == 46
      && TakeU16(first) == Ok((SUPPORTED_VERSIONS, Vec16(U16Bytes(TLS13)) + second))
      && TakeVec16(Vec16(U16Bytes(TLS13)) + second) == Ok((U16Bytes(TLS13), second))
      && TakeU16(second) == Ok((KEY_SHARE, Vec16(entry) + [])) && TakeVec16(Vec16(entry) + []) == Ok((entry, []))
  {
    var entry := U16Bytes(X25519_GROUP) + Vec16(share);
    var list := [Extension(SUPPORTED_VERSIONS, U16Bytes(TLS13)), Extension(KEY_SHARE, entry)];
    FirstExtension(list);
    assert list[1..] == [Extension(KEY_SHARE, entry)];
    FirstExtension(list[1..]);
    assert list[1..][1..] == [];
  }

  // ----- policy ----------------------------------------------------------

  /** The first share of the group; an empty one is as good as none (nil). */
  function FindKeyShare(shares: seq<KeyShare>, group: u16): Bytes {
    if shares == [] then []
    else if shares[0].group == group then shares[0].keyExchange else FindKeyShare(shares[1..], group)
  }

  /** The i-th share is the first of its group. */
  predicate IsFirst(shares: seq<KeyShare>, group: u16, i: nat) {
    i < |shares| && shares[i].group == group && forall j :: 0 <= j < i ==> shares[j].group != group
  }

  predicate HasGroup(shares: seq<KeyShare>, group: u16) {
    exists i :: 0 <= i < |shares| && shares[i].group == group
  }

  ghost predicate FirstIsEmpty(shares: seq<KeyShare>, group: u16) {
    exists i: nat :: IsFirst(shares, group, i) && shares[i].keyExchange == []
  }

  /** The exchange of the first share of the group, and nothing when no share has it. */
  lemma {:induction false} FindIff(shares: seq<KeyShare>, group: u16, exchange: Bytes)
    ensures FindKeyShare(shares, group) == exchange <==>
      (exists i: nat :: IsFirst(shares, group, i) && shares[i].keyExchange == exchange)
      || (!HasGroup(shares, group) && exchange == [])
  {
    if shares != [] {
      var rest := shares[1..];
      if shares[0].group == group {
        assert IsFirst(shares, group, 0);
      } else {
        FindIff(rest, group, exchange);
        assert HasGroup(rest, group) ==> HasGroup(shares, group) by {
          assert forall i :: 0 <= i < |rest| ==> rest[i] == shares[i + 1];
        }
        forall i: nat ensures IsFirst(rest, group, i) <==> IsFirst(shares, group, i + 1) {
          FirstBehind(shares, group, i);
        }
      }
    }
  }

  lemma FirstBehind(shares: seq<KeyShare>, group: u16, i: nat)
    requires shares != [] && shares[0].group != group
    ensures IsFirst(shares[1..], group, i) <==> IsFirst(shares, group, i + 1)
  {
    var rest := shares[1..];
    assert forall j :: 0 <= j < |rest| ==> rest[j] == shares[j + 1];
    if IsFirst(rest, group, i) {
      forall j | 0 <= j < i + 1 ensures shares[j].group != group {
        assert j > 0 ==> shares[j] == rest[j - 1];
      }
    }
  }

  datatype PolicyError = NoTls13 | NoSuite | NoGroup | NoScheme | NoShare | BadShareLength

  /** The hello offers the one version, suite, group and scheme of this server. */
  predicate Offers(h: ClientHello) {
    && TLS13 in h.supportedVersions && AES128_GCM_SHA256 in h.cipherSuites
    && X25519_GROUP in h.supportedGroups && ECDSA_P256_SHA256 in h.signatureAlgorithms
  }

  /** It offers them, and its first share of the group has the group's length. */
  ghost predicate Acceptable(h: ClientHello) {
    && Offers(h)
    && exists i: nat :: IsFirst(h.keyShares, X25519_GROUP, i) && |h.keyShares[i].keyExchange| == 32
  }

  method ContainsU16(haystack: seq<u16>, needle: u16) returns (r: bool)
    ensures r <==> needle in haystack
  {
    for i := 0 to |haystack|
      invariant needle !in haystack[..i]
    {
      if haystack[i] == needle {
        return true;
      }
    }
    return false;
  }

  method KeyShareLoop(shares: seq<KeyShare>, group: u16) returns (share: Bytes)
    ensures share == FindKeyShare(shares, group)
    ensures (exists i: nat :: IsFirst(shares, group, i) && shares[i].keyExchange == share)
      || (!HasGroup(shares, group) && share == [])
  {
    FindIff(shares, group, FindKeyShare(shares, group));
    for i := 0 to |shares|
      invariant FindKeyShare(shares[i..], group) == FindKeyShare(shares, group)
    {
      if shares[i].group == group {
        return shares[i].keyExchange;
      }
    }
    return [];
  }

  /** validateClientHello names the first thing missing, and nothing exactly when
      the hello is acceptable. */
  method ValidateClientHello(h: ClientHello) returns (r: Option<PolicyError>)
    ensures r == Policy(h)
  {
    var v := ContainsU16(h.supportedVersions, TLS13);
    if !v { return Some(NoTls13); }
    var c := ContainsU16(h.cipherSuites, AES128_GCM_SHA256);
    if !c { return Some(NoSuite); }
    var g := ContainsU16(h.supportedGroups, X25519_GROUP);
    if !g { return Some(NoGroup); }
    var s := ContainsU16(h.signatureAlgorithms, ECDSA_P256_SHA256);
    if !s { return Some(NoScheme); }
    var share := KeyShareLoop(h.keyShares, X25519_GROUP);
    if share == [] { return Some(NoShare); }
    if |share| != 32 { return Some(BadShareLength); }
    return None;
  }

  function Policy(h: ClientHello): Option<PolicyError> {
    if TLS13 !in h.supportedVersions then Some(NoTls13)
    else if AES128_GCM_SHA256 !in h.cipherSuites then Some(NoSuite)
    else if X25519_GROUP !in h.supportedGroups then Some(NoGroup)
    else if ECDSA_P256_SHA256 !in h.signatureAlgorithms then Some(NoScheme)
    else var share := FindKeyShare(h.keyShares, X25519_GROUP);
    if share == [] then Some(NoShare) else if |share| != 32 then Some(BadShareLength) else None
  }

  /** The complaint is about the first thing missing, and there is none exactly
      for an acceptable hello. */
  lemma PolicyIff(h: ClientHello)
    ensures Policy(h) == None <==> Acceptable(h)
    ensures Policy(h) == Some(NoTls13) <==> TLS13 !in h.supportedVersions
    ensures Policy(h) in {Some(NoTls13), Some(NoSuite)} <==>
      TLS13 !in h.supportedVersions || AES128_GCM_SHA256 !in h.cipherSuites
    ensures Policy(h) in {Some(NoTls13), Some(NoSuite), Some(NoGroup)} <==>
      TLS13 !in h.supportedVersions || AES128_GCM_SHA256 !in h.cipherSuites || X25519_GROUP !in h.supportedGroups
    ensures Policy(h) in {Some(NoTls13), Some(NoSuite), Some(NoGroup), Some(NoScheme)} <==> !Offers(h)
    ensures Policy(h) == Some(NoShare) <==>
      Offers(h) && (!HasGroup(h.keyShares, X25519_GROUP) || FirstIsEmpty(h.keyShares, X25519_GROUP))
  {
    FindIff(h.keyShares, X25519_GROUP, FindKeyShare(h.keyShares, X25519_GROUP));
    FindIff(h.keyShares, X25519_GROUP, []);
    forall i: nat | IsFirst(h.keyShares, X25519_GROUP, i)
      ensures FindKeyShare(h.keyShares, X25519_GROUP) == h.keyShares[i].keyExchange
    {
      FindIff(h.keyShares, X25519_GROUP, h.keyShares[i].keyExchange);
    }
  }
}
