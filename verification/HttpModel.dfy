/** The request reader of http/parse.go as functions on the bytes that the
    transport will still deliver. Strings are bytes, as in the source. */
module HttpModel {
  import opened Seq32
  import opened Wire
  import opened Wrappers

  const LF: byte := 10
  const CR: byte := 13
  const SP: byte := 32
  const TAB: byte := 9
  const COLON: byte := 58
  const SLASH: byte := 47
  const COMMA_SPACE: Bytes := [44, 32]
  /** "HTTP/", "HTTP/1.1", "host", "content-length", "POST", "PUT", "PATCH". */
  const HTTP_PREFIX: Bytes := [72, 84, 84, 80, 47]
  const HTTP_1_1: Bytes := [72, 84, 84, 80, 47, 49, 46, 49]
  const HOST: Bytes := [104, 111, 115, 116]
  const CONTENT_LENGTH: Bytes := [99, 111, 110, 116, 101, 110, 116, 45, 108, 101, 110, 103, 116, 104]
  const POST: Bytes := [80, 79, 83, 84]
  const PUT: Bytes := [80, 85, 84]
  const PATCH: Bytes := [80, 65, 84, 67, 72]

  const MAX_LINE: nat := 8192
  const MAX_HEADERS: nat := 100
  const MAX_BODY: nat := 1048576
  const INT_MAX: int := 0x7FFF_FFFF_FFFF_FFFF

  datatype HttpError =
    | Malformed | LengthRequired | PayloadTooLarge | VersionNotSupported | TooManyHeaders | Eof | UnexpectedEof

  type Parsed<T> = Result<T, HttpError>
  type Headers = map<Bytes, Bytes>

  datatype Request = Request(verb: Bytes, path: Bytes, version: Bytes, headers: Headers, body: Bytes)

  // ----- lines -----------------------------------------------------------

  function StripCr(buf: Bytes): Bytes {
    if buf != [] && buf[|buf| - 1] == CR then buf[..|buf| - 1] else buf
  }

  /** A line, and what follows it, when `buf` is already read. */
  function TakeLine(input: Bytes, buf: Bytes): (r: Parsed<(Bytes, Bytes)>)
    ensures r.Ok? ==> |r.value.1| < |input|
    decreases |input|
  {
    if |buf| >= MAX_LINE then Err(Malformed)
    else if input == [] then Err(if buf != [] then UnexpectedEof else Eof)
    else if input[0] == LF then Ok((StripCr(buf), input[1..]))
    else TakeLine(input[1..], buf + [input[0]])
  }

  // ----- characters and strings ------------------------------------------

  predicate IsTokenChar(c: byte) {
    c in {33, 35, 36, 37, 38, 39, 42, 43, 45, 46, 94, 95, 96, 124, 126} || 48 <= c <= 57 || 97 <= c <= 122
      || 65 <= c <= 90
  }

  predicate IsToken(s: Bytes) {
    s != [] && forall i :: 0 <= i < |s| ==> IsTokenChar(s[i])
  }

  function LowerChar(c: byte): byte {
    if 65 <= c <= 90 then c + 32 else c
  }

  /** strings.ToLower on a token. */
  function Lower(s: Bytes): (r: Bytes)
    ensures |r| == |s| && forall i :: 0 <= i < |s| ==> r[i] == LowerChar(s[i])
  {
    seq(|s|, i requires 0 <= i < |s| => LowerChar(s[i]))
  }

  /** The first position of c, or -1. */
  function IndexByte(s: Bytes, c: byte): (i: int)
    ensures -1 <= i < |s|
    ensures if i < 0 then c !in s else s[i] == c && c !in s[..i]
  {
    if s == [] then -1
    else if s[0] == c then 0
    else
      var i := IndexByte(s[1..], c);
      assert s == [s[0]] + s[1..];
      if i < 0 then -1 else (assert s[..i + 1] == [s[0]] + s[1..][..i]; i + 1)
  }

  /** The last position of c, or -1. */
  function LastIndexByte(s: Bytes, c: byte): (i: int)
    ensures -1 <= i < |s|
    ensures if i < 0 then c !in s else s[i] == c && c !in s[i + 1..]
  {
    if s == [] then -1
    else
      var n := |s| - 1;
      if s[n] == c then n
      else
        var i := LastIndexByte(s[..n], c);
        assert s == s[..n] + [s[n]];
        if i < 0 then -1 else (assert s[i + 1..] == s[..n][i + 1..] + [s[n]]; i)
  }

  predicate IsOws(c: byte) {
    c == SP || c == TAB
  }

  function TrimLeft(s: Bytes): Bytes {
    if s != [] && IsOws(s[0]) then TrimLeft(s[1..]) else s
  }

  function TrimRight(s: Bytes): Bytes {
    if s != [] && IsOws(s[|s| - 1]) then TrimRight(s[..|s| - 1]) else s
  }

  /** strings.Trim(s, " \t") */
  function TrimOws(s: Bytes): Bytes {
    TrimRight(TrimLeft(s))
  }

  // ----- Content-Length --------------------------------------------------

  /** The UTF-8 encodings of the white space of unicode.IsSpace. */
  predicate IsSpace(s: Bytes) {
    || s in {[9], [10], [11], [12], [13], [32], [0xC2, 0x85], [0xC2, 0xA0], [0xE1, 0x9A, 0x80], [0xE2, 0x80, 0xA8],
             [0xE2, 0x80, 0xA9], [0xE2, 0x80, 0xAF], [0xE2, 0x81, 0x9F], [0xE3, 0x80, 0x80]}
    || (|s| == 3 && s[0] == 0xE2 && s[1] == 0x80 && 0x80 <= s[2] <= 0x8A)
  }

  function LeadingSpace(s: Bytes): (n: nat)
    ensures n <= |s|
  {
    if |s| >= 1 && IsSpace(s[..1]) then 1
    else if |s| >= 2 && IsSpace(s[..2]) then 2
    else if |s| >= 3 && IsSpace(s[..3]) then 3 else 0
  }

  function TrailingSpace(s: Bytes): (n: nat)
    ensures n <= |s|
  {
    if |s| >= 1 && IsSpace(s[|s| - 1..]) then 1
    else if |s| >= 2 && IsSpace(s[|s| - 2..]) then 2
    else if |s| >= 3 && IsSpace(s[|s| - 3..]) then 3 else 0
  }

  function TrimSpaceLeft(s: Bytes): Bytes
    decreases |s|
  {
    if LeadingSpace(s) > 0 then TrimSpaceLeft(s[LeadingSpace(s)..]) else s
  }

  function TrimSpaceRight(s: Bytes): Bytes
    decreases |s|
  {
    if TrailingSpace(s) > 0 then TrimSpaceRight(s[..|s| - TrailingSpace(s)]) else s
  }

  /** strings.TrimSpace */
  function TrimSpace(s: Bytes): Bytes {
    TrimSpaceRight(TrimSpaceLeft(s))
  }

  predicate AllDigits(s: Bytes) {
    s != [] && forall i :: 0 <= i < |s| ==> 48 <= s[i] <= 57
  }

  function Decimal(s: Bytes): nat
    requires forall i :: 0 <= i < |s| ==> 48 <= s[i] <= 57
  {
    if s == [] then 0 else Decimal(s[..|s| - 1]) * 10 + (s[|s| - 1] - 48)
  }

  /** strconv.Atoi on a 64-bit platform. */
  function Atoi(s: Bytes): Option<int> {
    var digits := if s != [] && (s[0] == 43 || s[0] == 45) then s[1..] else s;
    if !AllDigits(digits) then None else
    var n: int := Decimal(digits);
    if s[0] == 45 then (if n <= INT_MAX + 1 then Some(-n) else None)
    else if n <= INT_MAX then Some(n) else None
  }

  // ----- the request -----------------------------------------------------

  function ParseRequestLine(line: Bytes): Option<(Bytes, Bytes, Bytes)> {
    var first := IndexByte(line, SP);
    if first <= 0 then None else
    var last := LastIndexByte(line, SP);
    if last == first then None else
    SpacesOrdered(line);
    var (verb, path, version) := (line[..first], line[first + 1..last], line[last + 1..]);
    if !IsToken(verb) || path == [] || path[0] != SLASH || SP in path || TAB in path || !(HTTP_PREFIX <= version)
    then None else Some((verb, path, version))
  }

  lemma SpacesOrdered(line: Bytes)
    ensures IndexByte(line, SP) <= LastIndexByte(line, SP)
  {
  }

  function ParseHeader(line: Bytes): Option<(Bytes, Bytes)> {
    var i := IndexByte(line, COLON);
    if i <= 0 || !IsToken(line[..i]) then None else Some((line[..i], TrimOws(line[i + 1..])))
  }

  /** Repeated fields are joined. */
  function AddHeader(h: Headers, name: Bytes, value: Bytes): Headers {
    if name in h then h[name := h[name] + COMMA_SPACE + value] else h[name := value]
  }

  /** The header loop from its i-th round on. */
  function ParseHeaders(input: Bytes, i: nat, h: Headers): Parsed<(Headers, Bytes)>
    decreases |input|
  {
    if i >= MAX_HEADERS then Err(TooManyHeaders) else
    var (line, rest) :- TakeLine(input, []);
    if line == [] then Ok((h, rest))
    else if IsOws(line[0]) then Err(Malformed)
    else match ParseHeader(line)
      case None => Err(Malformed)
      case Some((name, value)) => ParseHeaders(rest, i + 1, AddHeader(h, Lower(name), value))
  }

  predicate RequiresLength(verb: Bytes) {
    verb in {POST, PUT, PATCH}
  }

  /** The body, by its Content-Length or by its absence. */
  function ReadBody(verb: Bytes, h: Headers, input: Bytes): Parsed<Bytes> {
    if HOST !in h then Err(Malformed)
    else if CONTENT_LENGTH in h then
      match Atoi(TrimSpace(h[CONTENT_LENGTH]))
      case None => Err(Malformed)
      case Some(n) =>
        if n < 0 then Err(Malformed)
        else if n > MAX_BODY then Err(PayloadTooLarge)
        else if |input| < n then Err(UnexpectedEof) else Ok(input[..n])
    else if RequiresLength(verb) then Err(LengthRequired) else Ok([])
  }

  function ReadRequest(input: Bytes): Parsed<Request> {
    var (line, rest) :- TakeLine(input, []);
    match ParseRequestLine(line)
    case None => Err(Malformed)
    case Some((verb, path, version)) =>
      if version != HTTP_1_1 then Err(VersionNotSupported) else
      var (h, rest') :- ParseHeaders(rest, 0, map[]);
      var body :- ReadBody(verb, h, rest');
      Ok(Request(verb, path, version, h, body))
  }
}
