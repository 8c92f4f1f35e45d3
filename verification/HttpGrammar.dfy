/** ReadRequest accepts exactly the renderings of well-formed requests, and
    reads nothing behind the body. */
module HttpGrammar {
  import opened Seq32
  import opened Wire
  import opened Wrappers
  import opened HttpModel
  import opened HttpNumber

  datatype Ending = Crlf | Lf

  /** A field line: name ":" lead value trail, and how the line ends. */
  datatype Field = Field(name: Bytes, lead: Bytes, value: Bytes, trail: Bytes, ending: Ending)

  datatype Rendered = Rendered(
    verb: Bytes, path: Bytes, ending: Ending, fields: seq<Field>, blank: Ending, body: Bytes)

  function End(e: Ending): Bytes {
    if e == Crlf then [CR, LF] else [LF]
  }

  function FieldLine(f: Field): Bytes {
    f.name + [COLON] + f.lead + f.value + f.trail
  }

  function RequestLine(r: Rendered): Bytes {
    r.verb + [SP] + r.path + [SP] + HTTP_1_1
  }

  function RenderFields(fields: seq<Field>): Bytes {
    if fields == [] then [] else FieldLine(fields[0]) + End(fields[0].ending) + RenderFields(fields[1..])
  }

  function Render(r: Rendered): Bytes {
    RequestLine(r) + End(r.ending) + (RenderFields(r.fields) + (End(r.blank) + r.body))
  }

  predicate AllOws(s: Bytes) {
    forall i :: 0 <= i < |s| ==> IsOws(s[i])
  }

  /** Fits the reader's limit, its CR counted, and ends as written. */
  predicate LineOk(line: Bytes, e: Ending) {
    && |line| + (if e == Crlf then 1 else 0) < MAX_LINE && LF !in line
    && (e == Lf && line != [] ==> line[|line| - 1] != CR)
  }

  predicate FieldOk(f: Field) {
    && IsToken(f.name) && AllOws(f.lead) && AllOws(f.trail)
    && (f.value != [] ==> !IsOws(f.value[0]) && !IsOws(f.value[|f.value| - 1]))
    && (f.value == [] ==> f.trail == [])
    && LineOk(FieldLine(f), f.ending)
  }

  predicate FieldsOk(fields: seq<Field>) {
    forall i :: 0 <= i < |fields| ==> FieldOk(fields[i])
  }

  // ----- what the fields mean --------------------------------------------

  /** The values of a name, in order, whatever the case it is written in. */
  function ValuesOf(fields: seq<Field>, name: Bytes): seq<Bytes> {
    if fields == [] then []
    else (if Lower(fields[0].name) == name then [fields[0].value] else []) + ValuesOf(fields[1..], name)
  }

  function Join(values: seq<Bytes>): Bytes
    requires values != []
  {
    if |values| == 1 then values[0] else Join(values[..|values| - 1]) + COMMA_SPACE + values[|values| - 1]
  }

  function Names(fields: seq<Field>): set<Bytes> {
    set i | 0 <= i < |fields| :: Lower(fields[i].name)
  }

  lemma {:induction false} NamedHasValue(fields: seq<Field>, name: Bytes)
    ensures name in Names(fields) <==> ValuesOf(fields, name) != []
  {
    if fields != [] {
      NamedHasValue(fields[1..], name);
      assert fields == [fields[0]] + fields[1..];
      if name in Names(fields) {
        var i :| 0 <= i < |fields| && Lower(fields[i].name) == name;
        assert i > 0 ==> Lower(fields[1..][i - 1].name) == name;
      }
      if name in Names(fields[1..]) {
        var i :| 0 <= i < |fields| - 1 && Lower(fields[1..][i].name) == name;
        assert Lower(fields[i + 1].name) == name;
      }
    }
  }

  /** Each name in lower case, with its values joined in order. */
  function HeaderMap(fields: seq<Field>): Headers {
    map name | name in Names(fields) :: (NamedHasValue(fields, name); Join(ValuesOf(fields, name)))
  }

  /** The framing is one the reader accepts, and it announces the body. */
  ghost predicate Framed(r: Rendered) {
    var h := HeaderMap(r.fields);
    && HOST in h
    && if CONTENT_LENGTH in h then |r.body| <= MAX_BODY && Announces(h[CONTENT_LENGTH], |r.body|)
       else r.body == [] && !RequiresLength(r.verb)
  }

  /** Request line and fields are ones the reader accepts. */
  predicate HeadOk(r: Rendered) {
    && IsToken(r.verb) && r.path != [] && r.path[0] == SLASH && SP !in r.path && TAB !in r.path
    && LineOk(RequestLine(r), r.ending)
    && |r.fields| < MAX_HEADERS && FieldsOk(r.fields)
  }

  ghost predicate WellFormed(r: Rendered) {
    HeadOk(r) && Framed(r)
  }

  function Meaning(r: Rendered): Request {
    Request(r.verb, r.path, HTTP_1_1, HeaderMap(r.fields), r.body)
  }

  // ----- lines -----------------------------------------------------------

  /** Reading a line gives it back without its ending exactly when it is within the limit. */
  lemma {:induction false} LineForward(line: Bytes, rest: Bytes, buf: Bytes)
    requires LF !in line
    ensures TakeLine(line + ([LF] + rest), buf)
      == if |buf| + |line| < 8192 then Ok((StripCr(buf + line), rest)) else Err(Malformed)
    decreases |line|
  {
    var input := line + ([LF] + rest);
    if line == [] {
      assert input == [LF] + rest && buf + line == buf;
    } else {
      assert input[1..] == line[1..] + ([LF] + rest);
      LineForward(line[1..], rest, buf + [line[0]]);
      assert buf + [line[0]] + line[1..] == buf + line;
    }
  }

  lemma LineRead(line: Bytes, e: Ending, rest: Bytes)
    requires LineOk(line, e)
    ensures TakeLine(line + End(e) + rest, []) == Ok((line, rest))
  {
    var raw := if e == Crlf then line + [CR] else line;
    LineForward(raw, rest, []);
    assert line + End(e) + rest == raw + ([LF] + rest) && [] + raw == raw;
    if e == Crlf {
      assert raw[..|line|] == line;
    }
  }

  lemma {:induction false} LineBackward(input: Bytes, buf: Bytes) returns (raw: Bytes)
    requires TakeLine(input, buf).Ok? && LF !in buf
    ensures var (line, rest) := TakeLine(input, buf).value;
      buf <= raw && LF !in raw && |raw| < MAX_LINE && line == StripCr(raw) && buf + input == raw + [LF] + rest
    decreases |input|
  {
    if input[0] == LF {
      raw := buf;
      assert input == [LF] + input[1..];
    } else {
      raw := LineBackward(input[1..], buf + [input[0]]);
      assert buf + input == buf + [input[0]] + input[1..];
    }
  }

  lemma LineShape(input: Bytes) returns (e: Ending)
    requires TakeLine(input, []).Ok?
    ensures var (line, rest) := TakeLine(input, []).value;
      LineOk(line, e) && input == line + End(e) + rest
  {
    var raw := LineBackward(input, []);
    var (line, rest) := TakeLine(input, []).value;
    assert [] + input == input;
    if raw != [] && raw[|raw| - 1] == CR {
      e := Crlf;
      assert raw == line + [CR];
      assert raw + [LF] + rest == line + End(e) + rest;
    } else {
      e := Lf;
    }
  }

  // ----- trimming --------------------------------------------------------

  lemma {:induction false} TrimLeftIs(lead: Bytes, s: Bytes)
    requires AllOws(lead) && (s != [] ==> !IsOws(s[0]))
    ensures TrimLeft(lead + s) == s
  {
    if lead == [] {
      assert lead + s == s;
    } else {
      assert (lead + s)[1..] == lead[1..] + s;
      TrimLeftIs(lead[1..], s);
    }
  }

  lemma {:induction false} TrimRightIs(s: Bytes, trail: Bytes)
    requires AllOws(trail) && (s != [] ==> !IsOws(s[|s| - 1]))
    ensures TrimRight(s + trail) == s
  {
    if trail == [] {
      assert s + trail == s;
    } else {
      assert (s + trail)[..|s + trail| - 1] == s + trail[..|trail| - 1];
      TrimRightIs(s, trail[..|trail| - 1]);
    }
  }

  lemma {:induction false} TrimLeftShape(s: Bytes) returns (lead: Bytes)
    ensures AllOws(lead) && s == lead + TrimLeft(s) && (TrimLeft(s) != [] ==> !IsOws(TrimLeft(s)[0]))
  {
    lead := [];
    if s != [] && IsOws(s[0]) {
      var more := TrimLeftShape(s[1..]);
      lead := [s[0]] + more;
      assert s == [s[0]] + s[1..];
    }
  }

  lemma {:induction false} TrimRightShape(s: Bytes) returns (trail: Bytes)
    ensures AllOws(trail) && s == TrimRight(s) + trail
      && (TrimRight(s) != [] ==> !IsOws(TrimRight(s)[|TrimRight(s)| - 1]))
  {
    trail := [];
    if s != [] && IsOws(s[|s| - 1]) {
      var more := TrimRightShape(s[..|s| - 1]);
      trail := more + [s[|s| - 1]];
      assert s == s[..|s| - 1] + [s[|s| - 1]];
    }
  }

  lemma TrimIs(lead: Bytes, value: Bytes, trail: Bytes)
    requires AllOws(lead) && AllOws(trail) && (value == [] ==> trail == [])
    requires value != [] ==> !IsOws(value[0]) && !IsOws(value[|value| - 1])
    ensures TrimOws(lead + value + trail) == value
  {
    assert lead + value + trail == lead + (value + trail);
    TrimLeftIs(lead, value + trail);
    TrimRightIs(value, trail);
  }

  lemma TrimShape(s: Bytes) returns (lead: Bytes, trail: Bytes)
    ensures AllOws(lead) && AllOws(trail) && s == lead + TrimOws(s) + trail && (TrimOws(s) == [] ==> trail == [])
    ensures TrimOws(s) != [] ==> !IsOws(TrimOws(s)[0]) && !IsOws(TrimOws(s)[|TrimOws(s)| - 1])
  {
    lead := TrimLeftShape(s);
    var t := TrimLeft(s);
    trail := TrimRightShape(t);
    if TrimRight(t) == [] {
      assert t == trail;
    } else {
      assert t[0] == TrimRight(t)[0];
    }
    assert lead + (TrimRight(t) + trail) == lead + TrimRight(t) + trail;
  }

  // ----- the two kinds of line -------------------------------------------

  /** A byte that is not in the front part is first found right behind it. */
  lemma IndexAfter(front: Bytes, c: byte, back: Bytes)
    requires c !in front
    ensures IndexByte(front + [c] + back, c) == |front|
  {
    var s := front + [c] + back;
    var i := IndexByte(s, c);
    assert s[|front|] == c;
  }

  lemma LastIndexBefore(front: Bytes, c: byte, back: Bytes)
    requires c !in back
    ensures LastIndexByte(front + [c] + back, c) == |front|
  {
    var s := front + [c] + back;
    var i := LastIndexByte(s, c);
    assert s[|front|] == c;
  }

  lemma TokenFree(s: Bytes)
    requires IsToken(s)
    ensures COLON !in s && SP !in s && TAB !in s && CR !in s && LF !in s
  {
  }

  lemma HeaderForward(f: Field)
    requires FieldOk(f)
    ensures ParseHeader(FieldLine(f)) == Some((f.name, f.value)) && FieldLine(f) != [] && !IsOws(FieldLine(f)[0])
  {
    var line := FieldLine(f);
    var tail := f.lead + f.value + f.trail;
    TokenFree(f.name);
    assert line == f.name + [COLON] + tail;
    IndexAfter(f.name, COLON, tail);
    assert line[..|f.name|] == f.name && line[|f.name| + 1..] == tail;
    TrimIs(f.lead, f.value, f.trail);
  }

  lemma HeaderBackward(line: Bytes, e: Ending) returns (f: Field)
    requires ParseHeader(line).Some? && LineOk(line, e)
    ensures FieldOk(f) && FieldLine(f) == line && f.ending == e && ParseHeader(line) == Some((f.name, f.value))
  {
    hide TrimOws, IsTokenChar, LineOk, IndexByte;
    var i := IndexByte(line, COLON);
    var tail := line[i + 1..];
    var lead, trail := TrimShape(tail);
    f := Field(line[..i], lead, TrimOws(tail), trail, e);
    assert line == line[..i] + [line[i]] + tail;
    assert FieldLine(f) == f.name + [COLON] + (f.lead + f.value + f.trail);
  }

  lemma RequestLineForward(verb: Bytes, path: Bytes, version: Bytes)
    requires IsToken(verb) && path != [] && path[0] == SLASH && SP !in path && TAB !in path
    requires HTTP_PREFIX <= version && SP !in version
    ensures ParseRequestLine(verb + [SP] + path + [SP] + version) == Some((verb, path, version))
  {
    TokenFree(verb);
    SpacesIn(verb, path, version);
    hide IndexByte, LastIndexByte, IsTokenChar;
    assert IsToken(verb);
  }

  /** Any other version of HTTP is refused as such. */
  lemma VersionRefused(verb: Bytes, path: Bytes, version: Bytes, e: Ending, rest: Bytes)
    requires IsToken(verb) && path != [] && path[0] == SLASH && SP !in path && TAB !in path
    requires HTTP_PREFIX <= version && SP !in version && version != HTTP_1_1
    requires LineOk(verb + [SP] + path + [SP] + version, e)
    ensures ReadRequest(verb + [SP] + path + [SP] + version + End(e) + rest) == Err(VersionNotSupported)
  {
    hide TakeLine, ParseRequestLine, ParseHeaders, End, LineOk;
    LineRead(verb + [SP] + path + [SP] + version, e, rest);
    RequestLineForward(verb, path, version);
  }

  lemma VersionFacts()
    ensures SP !in HTTP_1_1 && HTTP_PREFIX <= HTTP_1_1
  {
    assert HTTP_1_1[..5] == HTTP_PREFIX;
  }

  /** Three parts without spaces come out between the first and the last space. */
  lemma SpacesIn(a: Bytes, b: Bytes, c: Bytes)
    requires SP !in a && SP !in b && SP !in c
    ensures var line := a + [SP] + b + [SP] + c;
      var (first, last) := (IndexByte(line, SP), LastIndexByte(line, SP));
      && first == |a| && last == |a| + 1 + |b|
      && line[..first] == a && line[first + 1..last] == b && line[last + 1..] == c
  {
    hide IndexByte, LastIndexByte;
    var line := a + [SP] + b + [SP] + c;
    assert line == a + [SP] + (b + [SP] + c);
    assert line == (a + [SP] + b) + [SP] + c;
    IndexAfter(a, SP, b + [SP] + c);
    LastIndexBefore(a + [SP] + b, SP, c);
  }

  lemma RequestLineBackward(line: Bytes)
    requires ParseRequestLine(line).Some? && ParseRequestLine(line).value.2 == HTTP_1_1
    ensures var (verb, path, version) := ParseRequestLine(line).value;
      && IsToken(verb) && path != [] && path[0] == SLASH && SP !in path && TAB !in path
      && line == verb + [SP] + path + [SP] + HTTP_1_1
  {
    var (first, last) := (IndexByte(line, SP), LastIndexByte(line, SP));
    SpacesOrdered(line);
    assert line == line[..first] + [line[first]] + line[first + 1..last] + [line[last]] + line[last + 1..];
  }

  // ----- the header block ------------------------------------------------

  function FoldHeaders(h: Headers, fields: seq<Field>): Headers
    decreases |fields|
  {
    if fields == [] then h
    else FoldHeaders(AddHeader(h, Lower(fields[0].name), fields[0].value), fields[1..])
  }

  /** A block of good fields is read through its blank line, unless it has a
      hundred of them: the blank line counts. */
  lemma {:induction false} HeadersForward(fields: seq<Field>, blank: Ending, rest: Bytes, i: nat, h: Headers)
    requires FieldsOk(fields) && i <= MAX_HEADERS
    ensures ParseHeaders(RenderFields(fields) + (End(blank) + rest), i, h)
      == if i + |fields| < 100 then Ok((FoldHeaders(h, fields), rest)) else Err(TooManyHeaders)
    decreases |fields|
  {
    hide TakeLine, ParseHeader, FieldOk, FieldLine, End, LineOk, Lower;
    if fields == [] {
      BlankRead(blank, rest);
      assert RenderFields(fields) + (End(blank) + rest) == [] + End(blank) + rest;
    } else if i < MAX_HEADERS {
      var f := fields[0];
      var tail := RenderFields(fields[1..]) + (End(blank) + rest);
      assert RenderFields(fields) + (End(blank) + rest) == FieldLine(f) + End(f.ending) + tail;
      FieldRead(f, tail);
      HeadersForward(fields[1..], blank, rest, i + 1, AddHeader(h, Lower(f.name), f.value));
    }
  }

  lemma BlankRead(blank: Ending, rest: Bytes)
    ensures TakeLine([] + End(blank) + rest, []) == Ok(([], rest))
  {
    LineRead([], blank, rest);
  }

  lemma FieldRead(f: Field, rest: Bytes)
    requires FieldOk(f)
    ensures TakeLine(FieldLine(f) + End(f.ending) + rest, []) == Ok((FieldLine(f), rest))
    ensures ParseHeader(FieldLine(f)) == Some((f.name, f.value)) && FieldLine(f) != [] && !IsOws(FieldLine(f)[0])
  {
    HeaderForward(f);
    LineRead(FieldLine(f), f.ending, rest);
  }

  lemma {:induction false} HeadersBackward(input: Bytes, i: nat, h: Headers) returns (fields: seq<Field>, blank: Ending)
    requires ParseHeaders(input, i, h).Ok?
    ensures var (h', rest) := ParseHeaders(input, i, h).value;
      && FieldsOk(fields) && i + |fields| < MAX_HEADERS
      && input == RenderFields(fields) + (End(blank) + rest) && h' == FoldHeaders(h, fields)
    decreases |input|
  {
    hide TakeLine, ParseHeader, FieldOk, FieldLine, End, LineOk, Lower;
    var (line, rest) := TakeLine(input, []).value;
    var e := LineShape(input);
    fields, blank := [], e;
    if line == [] {
      assert input == [] + (End(e) + rest);
    } else {
      var f := HeaderBackward(line, e);
      TakeShrinks(input);
      var more: seq<Field>;
      more, blank := HeadersBackward(rest, i + 1, AddHeader(h, Lower(f.name), f.value));
      fields := [f] + more;
      assert fields[1..] == more;
      var end := ParseHeaders(input, i, h).value.1;
      assert line + End(e) + (RenderFields(more) + (End(blank) + end))
        == line + End(e) + RenderFields(more) + (End(blank) + end);
    }
  }

  lemma TakeShrinks(input: Bytes)
    requires TakeLine(input, []).Ok?
    ensures |TakeLine(input, []).value.1| < |input|
  {
  }

  // ----- what the fold computes ------------------------------------------

  lemma {:induction false} FoldSnoc(h: Headers, fields: seq<Field>, f: Field)
    ensures FoldHeaders(h, fields + [f]) == AddHeader(FoldHeaders(h, fields), Lower(f.name), f.value)
    decreases |fields|
  {
    hide AddHeader, Lower;
    if fields == [] {
      assert [] + [f] == [f] && [f][1..] == [];
    } else {
      assert (fields + [f])[1..] == fields[1..] + [f];
      FoldSnoc(AddHeader(h, Lower(fields[0].name), fields[0].value), fields[1..], f);
    }
  }

  lemma {:induction false} ValuesSnoc(fields: seq<Field>, f: Field, name: Bytes)
    ensures ValuesOf(fields + [f], name) == ValuesOf(fields, name) + (if Lower(f.name) == name then [f.value] else [])
  {
    hide Lower;
    if fields == [] {
      assert [] + [f] == [f] && [f][1..] == [];
    } else {
      assert (fields + [f])[1..] == fields[1..] + [f];
      ValuesSnoc(fields[1..], f, name);
    }
  }

  lemma JoinSnoc(values: seq<Bytes>, v: Bytes)
    ensures Join(values + [v]) == if values == [] then v else Join(values) + COMMA_SPACE + v
  {
    assert (values + [v])[..|values|] == values;
  }

  /** The loop's map is each name with its values joined in order. */
  lemma {:induction false} FoldIsMap(fields: seq<Field>)
    ensures FoldHeaders(map[], fields) == HeaderMap(fields)
  {
    hide Lower, Join, ValuesOf;
    if fields != [] {
      var (init, f) := (fields[..|fields| - 1], fields[|fields| - 1]);
      assert fields == init + [f];
      FoldIsMap(init);
      FoldSnoc(map[], init, f);
      var (old', new', low) := (HeaderMap(init), HeaderMap(fields), Lower(f.name));
      NamesSnoc(init, f);
      forall name | name in new' ensures new'[name] == AddHeader(old', low, f.value)[name] {
        ValuesSnoc(init, f, name);
        NamedHasValue(init, name);
        NamedHasValue(fields, name);
        JoinSnoc(ValuesOf(init, name), f.value);
        assert ValuesOf(init, name) + [] == ValuesOf(init, name);
      }
      assert new' == AddHeader(old', low, f.value);
    }
  }

  lemma NamesSnoc(fields: seq<Field>, f: Field)
    ensures Names(fields + [f]) == Names(fields) + {Lower(f.name)}
  {
    hide Lower;
    var all := fields + [f];
    forall name | name in Names(all) ensures name in Names(fields) + {Lower(f.name)} {
      var i :| 0 <= i < |all| && Lower(all[i].name) == name;
      assert i < |fields| ==> all[i] == fields[i];
    }
    forall name | name in Names(fields) ensures name in Names(all) {
      var i :| 0 <= i < |fields| && Lower(fields[i].name) == name;
      assert all[i] == fields[i];
    }
    assert all[|fields|] == f;
  }

  // ----- the request -----------------------------------------------------

  /** Behind a good head the verdict is the body's. */
  lemma HeadRead(r: Rendered, rest: Bytes)
    requires HeadOk(r)
    ensures ReadRequest(Render(r) + rest) == match ReadBody(r.verb, HeaderMap(r.fields), r.body + rest)
      case Ok(body) => Ok(Meaning(r.(body := body)))
      case Err(e) => Err(e)
  {
    hide TakeLine, ParseRequestLine, ParseHeaders, ReadBody, RenderFields, HeaderMap, FieldsOk, End, LineOk;
    var after := RenderFields(r.fields) + (End(r.blank) + (r.body + rest));
    assert Render(r) + rest == RequestLine(r) + End(r.ending) + after;
    LineRead(RequestLine(r), r.ending, after);
    VersionFacts();
    RequestLineForward(r.verb, r.path, HTTP_1_1);
    HeadersForward(r.fields, r.blank, r.body + rest, 0, map[]);
    FoldIsMap(r.fields);
  }

  lemma BodyForward(r: Rendered, rest: Bytes)
    requires Framed(r)
    ensures ReadBody(r.verb, HeaderMap(r.fields), r.body + rest) == Ok(r.body)
  {
    hide HeaderMap, Atoi, TrimSpace, Announces;
    assert (r.body + rest)[..|r.body|] == r.body;
    var h := HeaderMap(r.fields);
    if CONTENT_LENGTH in h {
      LengthIff(h[CONTENT_LENGTH], |r.body|);
    }
  }

  /** A rendering is read back whole, whatever follows it. */
  lemma RequestForward(r: Rendered, rest: Bytes)
    requires WellFormed(r)
    ensures ReadRequest(Render(r) + rest) == Ok(Meaning(r))
  {
    hide ReadRequest, ReadBody, Render, HeaderMap, HeadOk, Framed;
    HeadRead(r, rest);
    BodyForward(r, rest);
  }

  lemma BodyBackward(verb: Bytes, h: Headers, tail: Bytes)
    requires ReadBody(verb, h, tail).Ok?
    ensures var body := ReadBody(verb, h, tail).value;
      && HOST in h && body <= tail
      && if CONTENT_LENGTH in h then |body| <= MAX_BODY && Announces(h[CONTENT_LENGTH], |body|)
         else body == [] && !RequiresLength(verb)
  {
    hide Atoi, TrimSpace, Announces;
    if CONTENT_LENGTH in h {
      LengthIff(h[CONTENT_LENGTH], |ReadBody(verb, h, tail).value|);
    }
  }

  lemma FramedBy(r: Rendered, h: Headers)
    requires h == HeaderMap(r.fields) && HOST in h
    requires if CONTENT_LENGTH in h then |r.body| <= MAX_BODY && Announces(h[CONTENT_LENGTH], |r.body|)
             else r.body == [] && !RequiresLength(r.verb)
    ensures Framed(r)
  {
  }

  lemma RequestBackward(input: Bytes) returns (r: Rendered, rest: Bytes)
    requires ReadRequest(input).Ok?
    ensures WellFormed(r) && input == Render(r) + rest && ReadRequest(input).value == Meaning(r)
  {
    hide TakeLine, ParseRequestLine, ParseHeaders, RenderFields, HeaderMap, FieldsOk, End, LineOk, Framed, ReadBody;
    var (line, after) := TakeLine(input, []).value;
    var e := LineShape(input);
    var (verb, path, version) := ParseRequestLine(line).value;
    RequestLineBackward(line);
    var (h, tail) := ParseHeaders(after, 0, map[]).value;
    var fields, blank := HeadersBackward(after, 0, map[]);
    FoldIsMap(fields);
    var body := ReadBody(verb, h, tail).value;
    BodyBackward(verb, h, tail);
    r, rest := Rendered(verb, path, e, fields, blank, body), tail[|body|..];
    assert tail == body + rest;
    assert RequestLine(r) == line;
    FramedBy(r, h);
    assert input == line + End(e) + (RenderFields(fields) + (End(blank) + (body + rest)));
  }

  /** ReadRequest succeeds exactly on a rendering of a well-formed request followed
      by anything, and returns that request: each lower-cased name with its values
      joined by ", " in order, and the announced body. */
  lemma RequestIff(input: Bytes, req: Request)
    ensures ReadRequest(input) == Ok(req) <==>
      exists r, rest :: WellFormed(r) && input == Render(r) + rest && req == Meaning(r)
  {
    hide ReadRequest, WellFormed, Render, Meaning;
    if ReadRequest(input) == Ok(req) {
      var r, rest := RequestBackward(input);
    }
    if r, rest :| WellFormed(r) && input == Render(r) + rest && req == Meaning(r) {
      RequestForward(r, rest);
    }
  }

  /** The verdict on every good head, by what its fields announce and what follows it. */
  lemma HeadVerdict(r: Rendered, tail: Bytes)
    requires HeadOk(r) && r.body == []
    ensures var (h, got) := (HeaderMap(r.fields), ReadRequest(Render(r) + tail));
      && (HOST !in h ==> got == Err(Malformed))
      && (HOST in h && CONTENT_LENGTH !in h ==>
        got == if r.verb in {POST, PUT, PATCH} then Err(LengthRequired) else Ok(Meaning(r)))
      && (HOST in h && CONTENT_LENGTH in h ==>
        && (forall n: nat :: Announces(h[CONTENT_LENGTH], n) ==>
          got == if n > 1048576 then Err(PayloadTooLarge) else if |tail| < n then Err(UnexpectedEof)
                 else Ok(Meaning(r.(body := tail[..n]))))
        && ((forall n: nat :: !Announces(h[CONTENT_LENGTH], n)) ==> got == Err(Malformed)))
  {
    hide ReadRequest, Render, HeaderMap, HeadOk, Atoi, TrimSpace, Announces;
    HeadRead(r, tail);
    assert [] + tail == tail;
    var h := HeaderMap(r.fields);
    if HOST in h && CONTENT_LENGTH in h {
      var value := h[CONTENT_LENGTH];
      forall n: nat ensures Announces(value, n) <==> Atoi(TrimSpace(value)) == Some(n) {
        LengthIff(value, n);
      }
      var length := Atoi(TrimSpace(value));
      assert length.Some? && length.value >= 0 ==> Announces(value, length.value);
    }
  }

  /** The bytes behind the body never change the result. */
  lemma RestIrrelevant(input: Bytes, more: Bytes)
    requires ReadRequest(input).Ok?
    ensures ReadRequest(input + more) == ReadRequest(input)
  {
    hide ReadRequest, WellFormed, Render, Meaning;
    var r, rest := RequestBackward(input);
    assert Render(r) + rest + more == Render(r) + (rest + more);
    RequestForward(r, rest + more);
  }
}
