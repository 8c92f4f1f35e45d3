/** http/parse.go in its own form: a buffered reader, a line buffer and a header
    map that loops fill. */
module HttpReader {
  import opened Seq32
  import opened Wire
  import opened Wrappers
  import opened HttpModel

  /** bufio.Reader over a transport that delivers `data` and then ends. */
  class BufReader {
    const data: Bytes
    var pos: nat

    ghost predicate Valid()
      reads this
    {
      pos <= |data|
    }

    ghost function Rest(): Bytes
      reads this
      requires Valid()
    {
      data[pos..]
    }

    constructor (data: Bytes)
      ensures Valid() && Rest() == data
    {
      this.data, pos := data, 0;
    }

    method ReadByte() returns (r: Option<byte>)
      requires Valid()
      modifies this
      ensures Valid()
      ensures if old(Rest()) == [] then r == None && Rest() == []
              else r == Some(old(Rest())[0]) && Rest() == old(Rest())[1..] && pos == old(pos) + 1
    {
      if pos == |data| {
        return None;
      }
      r := Some(data[pos]);
      pos := pos + 1;
    }

    /** io.ReadFull into a buffer of n bytes. */
    method ReadFull(n: nat) returns (r: Option<Bytes>)
      requires Valid()
      modifies this
      ensures Valid()
      ensures r == if |old(Rest())| < n then None else Some(old(Rest())[..n])
    {
      hide Rest, Valid;
      var body: Bytes := [];
      ghost var all := Rest();
      assert [] + all == all;
      while |body| < n
        invariant Valid() && |body| <= n && all == body + Rest()
        decreases n - |body|
      {
        ghost var rest := Rest();
        var b := ReadByte();
        if b.None? {
          return None;
        }
        assert body + rest == body + [b.value] + Rest();
        body := body + [b.value];
      }
      assert all[..n] == body;
      r := Some(body);
    }

    method ReadLine() returns (r: Parsed<Bytes>)
      requires Valid()
      modifies this
      ensures Valid() && match TakeLine(old(Rest()), [])
        case Ok((line, rest)) => r == Ok(line) && Rest() == rest && pos > old(pos)
        case Err(e) => r == Err(e)
    {
      var buf: Bytes := [];
      while true
        invariant Valid() && pos >= old(pos) && TakeLine(Rest(), buf) == TakeLine(old(Rest()), [])
        decreases |data| - pos
      {
        if |buf| >= MAX_LINE {
          return Err(Malformed);
        }
        var b := ReadByte();
        if b.None? {
          return Err(if |buf| > 0 then UnexpectedEof else Eof);
        }
        if b.value == LF {
          break;
        }
        buf := buf + [b.value];
      }
      var n := |buf|;
      if n > 0 && buf[n - 1] == CR {
        buf := buf[..n - 1];
      }
      r := Ok(buf);
    }
  }

  method IsValidToken(s: Bytes) returns (ok: bool)
    ensures ok <==> IsToken(s)
  {
    if s == [] {
      return false;
    }
    for i := 0 to |s|
      invariant forall j :: 0 <= j < i ==> IsTokenChar(s[j])
    {
      if !IsTokenChar(s[i]) {
        return false;
      }
    }
    return true;
  }

  method RequestLineParts(line: Bytes) returns (r: Option<(Bytes, Bytes, Bytes)>)
    ensures r == ParseRequestLine(line)
  {
    var first := IndexByte(line, SP);
    if first <= 0 {
      return None;
    }
    var last := LastIndexByte(line, SP);
    if last == first {
      return None;
    }
    SpacesOrdered(line);
    var (verb, path, version) := (line[..first], line[first + 1..last], line[last + 1..]);
    var ok := IsValidToken(verb);
    if !ok || path == [] || path[0] != SLASH {
      return None;
    }
    if SP in path || TAB in path || !(HTTP_PREFIX <= version) {
      return None;
    }
    return Some((verb, path, version));
  }

  method HeaderParts(line: Bytes) returns (r: Option<(Bytes, Bytes)>)
    ensures r == ParseHeader(line)
  {
    var i := IndexByte(line, COLON);
    if i <= 0 {
      return None;
    }
    var ok := IsValidToken(line[..i]);
    if !ok {
      return None;
    }
    return Some((line[..i], TrimOws(line[i + 1..])));
  }

  method ReadHeaderBlock(br: BufReader) returns (r: Parsed<Headers>)
    requires br.Valid()
    modifies br
    ensures br.Valid() && match ParseHeaders(old(br.Rest()), 0, map[])
      case Ok((h, rest)) => r == Ok(h) && br.Rest() == rest
      case Err(e) => r == Err(e)
  {
    hide TakeLine, ParseHeader, Lower;
    var h: Headers := map[];
    var i := 0;
    while true
      invariant br.Valid() && ParseHeaders(br.Rest(), i, h) == ParseHeaders(old(br.Rest()), 0, map[])
      decreases |br.data| - br.pos
    {
      if i >= MAX_HEADERS {
        return Err(TooManyHeaders);
      }
      var line :- br.ReadLine();
      if line == [] {
        return Ok(h);
      }
      if IsOws(line[0]) {
        return Err(Malformed);
      }
      var parts := HeaderParts(line);
      if parts.None? {
        return Err(Malformed);
      }
      var (name, value) := parts.value;
      name := Lower(name);
      if name in h {
        h := h[name := h[name] + COMMA_SPACE + value];
      } else {
        h := h[name := value];
      }
      i := i + 1;
    }
  }

  /** ReadRequest. */
  method ReadOne(data: Bytes) returns (r: Parsed<Request>)
    ensures r == ReadRequest(data)
  {
    hide TakeLine, ParseRequestLine, ParseHeaders, Atoi, TrimSpace;
    var br := new BufReader(data);
    var line :- br.ReadLine();
    var parts := RequestLineParts(line);
    if parts.None? {
      return Err(Malformed);
    }
    var (verb, path, version) := parts.value;
    if version != HTTP_1_1 {
      return Err(VersionNotSupported);
    }
    var h :- ReadHeaderBlock(br);
    if HOST !in h {
      return Err(Malformed);
    }
    var body: Bytes := [];
    if CONTENT_LENGTH in h {
      var n := Atoi(TrimSpace(h[CONTENT_LENGTH]));
      if n.None? || n.value < 0 {
        return Err(Malformed);
      }
      if n.value > MAX_BODY {
        return Err(PayloadTooLarge);
      }
      var full := br.ReadFull(n.value);
      if full.None? {
        return Err(UnexpectedEof);
      }
      body := full.value;
    } else if RequiresLength(verb) {
      return Err(LengthRequired);
    }
    return Ok(Request(verb, path, version, h, body));
  }
}
