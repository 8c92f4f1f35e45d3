/** The ClientHello grammar (section 4.1.2 of RFC 8446) and the parser of
    tls/messages.go as functions on the bytes a cursor has left. */
module HelloModel {
  import opened Seq32
  import opened Wrappers
  import opened Wire

  datatype HelloError = Truncated | TrailingBytes | SessionIdTooLong | OddLength | BadCompression | DuplicateExtension

  const SERVER_NAME: u16 := 0
  const SUPPORTED_GROUPS: u16 := 10
  const SIGNATURE_ALGORITHMS: u16 := 13
  const SUPPORTED_VERSIONS: u16 := 43
  const KEY_SHARE: u16 := 51
  const HOST_NAME: byte := 0

  type Parsed<T> = Result<T, HelloError>

  datatype KeyShare = KeyShare(group: u16, keyExchange: Bytes)

  datatype ClientHello = ClientHello(
    legacyVersion: u16, random: Bytes, sessionId: Bytes, cipherSuites: seq<u16>,
    serverName: Bytes, supportedVersions: seq<u16>, supportedGroups: seq<u16>,
    signatureAlgorithms: seq<u16>, keyShares: seq<KeyShare>)

  // ----- the cursor ------------------------------------------------------

  function TakeBytes(b: Bytes, n: nat): Parsed<(Bytes, Bytes)> {
    if |b| < n then Err(Truncated) else Ok((b[..n], b[n..]))
  }

  function TakeU8(b: Bytes): Parsed<(byte, Bytes)> {
    if |b| < 1 then Err(Truncated) else Ok((b[0], b[1..]))
  }

  function TakeU16(b: Bytes): Parsed<(u16, Bytes)> {
    if |b| < 2 then Err(Truncated) else Ok((U16At(b, 0), b[2..]))
  }

  function TakeVec8(b: Bytes): Parsed<(Bytes, Bytes)> {
    var (n, rest) :- TakeU8(b);
    TakeBytes(rest, n)
  }

  function TakeVec16(b: Bytes): Parsed<(Bytes, Bytes)> {
    var (n, rest) :- TakeU16(b);
    TakeBytes(rest, n)
  }

  // ----- parsers ---------------------------------------------------------

  function ParseU16s(b: Bytes): Parsed<seq<u16>> {
    if |b| % 2 != 0 then Err(OddLength) else Ok(U16s(b))
  }

  function U16s(b: Bytes): (r: seq<u16>)
    ensures |r| == |b| / 2 && forall i :: 0 <= i < |r| ==> r[i] == U16At(b, 2 * i)
  {
    if |b| < 2 then [] else [U16At(b, 0)] + U16s(b[2..])
  }

  function ParseVec16U16s(data: Bytes): Parsed<seq<u16>> {
    var (body, rest) :- TakeVec16(data);
    if rest != [] then Err(TrailingBytes) else ParseU16s(body)
  }

  function ParseVersions(data: Bytes): Parsed<seq<u16>> {
    var (body, rest) :- TakeVec8(data);
    if rest != [] then Err(TrailingBytes) else ParseU16s(body)
  }

  function ParseShareList(b: Bytes): Parsed<seq<KeyShare>>
    decreases |b|
  {
    if b == [] then Ok([]) else
    var (group, rest) :- TakeU16(b);
    var (key, rest') :- TakeVec16(rest);
    var more :- ParseShareList(rest');
    Ok([KeyShare(group, key)] + more)
  }

  function ParseKeyShares(data: Bytes): Parsed<seq<KeyShare>> {
    var (list, rest) :- TakeVec16(data);
    if rest != [] then Err(TrailingBytes) else ParseShareList(list)
  }

  /** The first host name; nothing behind it is looked at. */
  function FirstHostName(b: Bytes): Parsed<Bytes>
    decreases |b|
  {
    if b == [] then Ok([]) else
    var (nameType, rest) :- TakeU8(b);
    var (name, rest') :- TakeVec16(rest);
    if nameType == HOST_NAME then Ok(name) else FirstHostName(rest')
  }

  function ParseServerName(data: Bytes): Parsed<Bytes> {
    var (list, rest) :- TakeVec16(data);
    if rest != [] then Err(TrailingBytes) else FirstHostName(list)
  }

  /** One extension's effect on the result; unknown types have none. */
  function ApplyExt(typ: u16, data: Bytes, out: ClientHello): Parsed<ClientHello> {
    if typ == SERVER_NAME then
      var name :- ParseServerName(data); Ok(out.(serverName := name))
    else if typ == SUPPORTED_VERSIONS then
      var v :- ParseVersions(data); Ok(out.(supportedVersions := v))
    else if typ == SUPPORTED_GROUPS then
      var g :- ParseVec16U16s(data); Ok(out.(supportedGroups := g))
    else if typ == SIGNATURE_ALGORITHMS then
      var s :- ParseVec16U16s(data); Ok(out.(signatureAlgorithms := s))
    else if typ == KEY_SHARE then
      var ks :- ParseKeyShares(data); Ok(out.(keyShares := ks))
    else Ok(out)
  }

  function ParseExtensions(b: Bytes, seen: set<u16>, out: ClientHello): Parsed<ClientHello>
    decreases |b|
  {
    if b == [] then Ok(out) else
    var (typ, rest) :- TakeU16(b);
    var (data, rest') :- TakeVec16(rest);
    if typ in seen then Err(DuplicateExtension) else
    var out' :- ApplyExt(typ, data, out);
    ParseExtensions(rest', seen + {typ}, out')
  }

  /** The fields before the extension block. */
  function TakeFields(body: Bytes): Parsed<(ClientHello, Bytes)> {
    var (version, b1) :- TakeU16(body);
    var (random, b2) :- TakeBytes(b1, 32);
    var (sid, b3) :- TakeVec8(b2);
    if |sid| > 32 then Err(SessionIdTooLong) else
    var (cs, b4) :- TakeVec16(b3);
    if |cs| % 2 != 0 then Err(OddLength) else
    var (comp, b5) :- TakeVec8(b4);
    if comp != [0] then Err(BadCompression) else
    Ok((ClientHello(version, random, sid, U16s(cs), [], [], [], [], []), b5))
  }

  function ParseClientHello(body: Bytes): Parsed<ClientHello> {
    var (fields, tail) :- TakeFields(body);
    var (exts, rest) :- TakeVec16(tail);
    if rest != [] then Err(TrailingBytes) else ParseExtensions(exts, {}, fields)
  }

  // ----- the grammar -----------------------------------------------------

  datatype Extension = Extension(typ: u16, data: Bytes)

  datatype Hello = Hello(version: u16, random: Bytes, sessionId: Bytes, suites: seq<u16>, exts: seq<Extension>)

  function Vec8(body: Bytes): Bytes
    requires |body| < 256
  {
    [|body|] + body
  }

  function Vec16(body: Bytes): Bytes {
    U16Bytes(|body|) + body
  }

  function WriteU16s(xs: seq<u16>): (b: Bytes)
    ensures |b| == 2 * |xs|
  {
    if xs == [] then [] else U16Bytes(xs[0]) + WriteU16s(xs[1..])
  }

  function WriteShares(ks: seq<KeyShare>): Bytes {
    if ks == [] then [] else U16Bytes(ks[0].group) + Vec16(ks[0].keyExchange) + WriteShares(ks[1..])
  }

  function WriteExts(exts: seq<Extension>): Bytes {
    if exts == [] then [] else U16Bytes(exts[0].typ) + Vec16(exts[0].data) + WriteExts(exts[1..])
  }

  function WriteHello(h: Hello): Bytes
    requires |h.sessionId| <= 32
  {
    U16Bytes(h.version) + (h.random + (Vec8(h.sessionId)
      + (Vec16(WriteU16s(h.suites)) + (Vec8([0]) + Vec16(WriteExts(h.exts))))))
  }

  /** An extension the parser accepts; unknown ones may hold anything. */
  predicate ExtOk(e: Extension) {
    && (e.typ == SERVER_NAME ==> ParseServerName(e.data).Ok?)
    && (e.typ == SUPPORTED_VERSIONS ==> ParseVersions(e.data).Ok?)
    && (e.typ == SUPPORTED_GROUPS || e.typ == SIGNATURE_ALGORITHMS ==> ParseVec16U16s(e.data).Ok?)
    && (e.typ == KEY_SHARE ==> ParseKeyShares(e.data).Ok?)
  }

  predicate DistinctTypes(exts: seq<Extension>) {
    forall i, j :: 0 <= i < j < |exts| ==> exts[i].typ != exts[j].typ
  }

  predicate AllExtOk(exts: seq<Extension>) {
    forall i :: 0 <= i < |exts| ==> ExtOk(exts[i])
  }

  /** Fits the length prefixes; says nothing about the extensions' contents. */
  predicate Serializable(h: Hello) {
    |h.random| == 32 && |h.sessionId| <= 32 && |h.suites| <= 32767 && |WriteExts(h.exts)| < 65536
  }

  predicate WellFormed(h: Hello) {
    Serializable(h) && DistinctTypes(h.exts) && AllExtOk(h.exts)
  }

  /** The data of the extension of a type, if there is one. */
  function Lookup(exts: seq<Extension>, typ: u16): Option<Bytes> {
    if exts == [] then None
    else if exts[0].typ == typ then Some(exts[0].data) else Lookup(exts[1..], typ)
  }

  /** A field as its extension says, or as it was when there is none. */
  function Override<T>(data: Option<Bytes>, parse: Bytes -> Parsed<T>, default: T): T {
    if data.Some? && parse(data.value).Ok? then parse(data.value).value else default
  }

  /** The result after a list of extensions, each looked up by its type. */
  function Overlay(out: ClientHello, exts: seq<Extension>): ClientHello {
    ClientHello(
      out.legacyVersion, out.random, out.sessionId, out.cipherSuites,
      Override(Lookup(exts, SERVER_NAME), ParseServerName, out.serverName),
      Override(Lookup(exts, SUPPORTED_VERSIONS), ParseVersions, out.supportedVersions),
      Override(Lookup(exts, SUPPORTED_GROUPS), ParseVec16U16s, out.supportedGroups),
      Override(Lookup(exts, SIGNATURE_ALGORITHMS), ParseVec16U16s, out.signatureAlgorithms),
      Override(Lookup(exts, KEY_SHARE), ParseKeyShares, out.keyShares))
  }

  /** What the hello says. */
  function Fields(h: Hello): ClientHello {
    Overlay(ClientHello(h.version, h.random, h.sessionId, h.suites, [], [], [], [], []), h.exts)
  }
}
