/** The parser of tls/messages.go in its own form: a cursor that moves and
    loops that fill lists. */
module HelloParser {
  import opened Seq32
  import opened Wrappers
  import opened Wire
  import opened HelloModel

  class Cursor {
    const data: Bytes
    var pos: nat

    ghost predicate Valid()
      reads this
    {
      pos <= |data|
    }

    ghost function Rest(): Bytes
      reads this
      requires Valid()
    {
      data[pos..]
    }

    constructor (data: Bytes)
      ensures Valid() && Rest() == data && this.data == data
    {
      this.data, pos := data, 0;
    }

    function Remaining(): (n: nat)
      reads this
      requires Valid()
      ensures n == |Rest()|
    {
      |data| - pos
    }

    method ReadU8() returns (r: Parsed<byte>)
      requires Valid()
      modifies this
      ensures Valid() && match TakeU8(old(Rest()))
        case Ok((v, rest)) => r == Ok(v) && Rest() == rest && pos == old(pos) + 1
        case Err(e) => r == Err(e) && pos == old(pos)
    {
      if Remaining() < 1 {
        return Err(Truncated);
      }
      r := Ok(data[pos]);
      pos := pos + 1;
    }

    method ReadU16() returns (r: Parsed<u16>)
      requires Valid()
      modifies this
      ensures Valid() && match TakeU16(old(Rest()))
        case Ok((v, rest)) => r == Ok(v) && Rest() == rest && pos == old(pos) + 2
        case Err(e) => r == Err(e) && pos == old(pos)
    {
      if Remaining() < 2 {
        return Err(Truncated);
      }
      r := Ok(U16At(data, pos));
      pos := pos + 2;
    }

    method ReadBytes(n: nat) returns (r: Parsed<Bytes>)
      requires Valid()
      modifies this
      ensures Valid() && match TakeBytes(old(Rest()), n)
        case Ok((v, rest)) => r == Ok(v) && Rest() == rest && pos == old(pos) + n
        case Err(e) => r == Err(e) && pos == old(pos)
    {
      if Remaining() < n {
        return Err(Truncated);
      }
      assert data[pos..][..n] == data[pos..pos + n] && data[pos..][n..] == data[pos + n..];
      r := Ok(data[pos..pos + n]);
      pos := pos + n;
    }

    /** On failure the length prefix may be consumed. */
    method ReadVector(lenBytes: nat) returns (r: Parsed<Bytes>)
      requires Valid() && lenBytes in {1, 2}
      modifies this
      ensures Valid() && match (if lenBytes == 1 then TakeVec8(old(Rest())) else TakeVec16(old(Rest())))
        case Ok((v, rest)) => r == Ok(v) && Rest() == rest && pos > old(pos)
        case Err(e) => r == Err(e)
    {
      var n: nat;
      if lenBytes == 1 {
        n :- ReadU8();
      } else {
        n :- ReadU16();
      }
      r := ReadBytes(n);
    }
  }

  /** The conversion loop shared by cipher suites and the u16 vectors. */
  method ReadU16s(b: Bytes) returns (xs: seq<u16>)
    requires |b| % 2 == 0
    ensures xs == U16s(b)
  {
    xs := [];
    while |xs| < |b| / 2
      invariant |xs| <= |b| / 2 && forall i :: 0 <= i < |xs| ==> xs[i] == U16At(b, 2 * i)
    {
      xs := xs + [U16At(b, 2 * |xs|)];
    }
  }

  /** parseU16Vector; lenBytes 0 means the payload is already unwrapped. */
  method ParseU16Vector(data: Bytes, lenBytes: nat) returns (r: Parsed<seq<u16>>)
    requires lenBytes in {0, 2}
    ensures r == if lenBytes == 0 then ParseU16s(data) else ParseVec16U16s(data)
  {
    var body := data;
    if lenBytes > 0 {
      var c := new Cursor(data);
      body :- c.ReadVector(lenBytes);
      if c.Remaining() != 0 {
        return Err(TrailingBytes);
      }
    }
    if |body| % 2 != 0 {
      return Err(OddLength);
    }
    var xs := ReadU16s(body);
    r := Ok(xs);
  }

  method ParseSupportedVersions(data: Bytes) returns (r: Parsed<seq<u16>>)
    ensures r == ParseVersions(data)
  {
    var c := new Cursor(data);
    var body :- c.ReadVector(1);
    if c.Remaining() != 0 {
      return Err(TrailingBytes);
    }
    r := ParseU16Vector(body, 0);
  }

  method ParseServerNameExtension(data: Bytes) returns (r: Parsed<Bytes>)
    ensures r == ParseServerName(data)
  {
    hide TakeU8, TakeU16, TakeVec16, Cursor.Rest, Cursor.Valid;
    var c := new Cursor(data);
    var list :- c.ReadVector(2);
    if c.Remaining() != 0 {
      return Err(TrailingBytes);
    }
    var lc := new Cursor(list);
    while lc.Remaining() > 0
      invariant lc.Valid() && FirstHostName(lc.Rest()) == FirstHostName(list)
      decreases lc.Remaining()
    {
      var nameType :- lc.ReadU8();
      var hostName :- lc.ReadVector(2);
      if nameType == HOST_NAME {
        return Ok(hostName);
      }
    }
    r := Ok([]);
  }

  method ParseClientKeyShare(data: Bytes) returns (r: Parsed<seq<KeyShare>>)
    ensures r == ParseKeyShares(data)
  {
    hide TakeU8, TakeU16, TakeVec16, Cursor.Rest, Cursor.Valid;
    var c := new Cursor(data);
    var list :- c.ReadVector(2);
    if c.Remaining() != 0 {
      return Err(TrailingBytes);
    }
    var lc := new Cursor(list);
    var out: seq<KeyShare> := [];
    PrependNone(ParseShareList(list));
    while lc.Remaining() > 0
      invariant lc.Valid()
      invariant ParseShareList(list) == Prepend(out, ParseShareList(lc.Rest()))
      decreases lc.Remaining()
    {
      var group :- lc.ReadU16();
      var ke :- lc.ReadVector(2);
      PrependStep(out, KeyShare(group, ke), ParseShareList(lc.Rest()));
      out := out + [KeyShare(group, ke)];
    }
    assert out + [] == out;
    r := Ok(out);
  }

  lemma PrependNone<T>(r: Parsed<seq<T>>)
    ensures Prepend([], r) == r
  {
    assert r.Ok? ==> [] + r.value == r.value;
  }

  lemma PrependStep<T>(xs: seq<T>, x: T, r: Parsed<seq<T>>)
    ensures Prepend(xs, Prepend([x], r)) == Prepend(xs + [x], r)
  {
    assert r.Ok? ==> xs + ([x] + r.value) == xs + [x] + r.value;
  }

  ghost function Prepend<T>(xs: seq<T>, r: Parsed<seq<T>>): Parsed<seq<T>> {
    if r.Ok? then Ok(xs + r.value) else r
  }

  method ParseExtension(typ: u16, data: Bytes, out: ClientHello) returns (r: Parsed<ClientHello>)
    ensures r == ApplyExt(typ, data, out)
  {
    if typ == SERVER_NAME {
      var name :- ParseServerNameExtension(data);
      r := Ok(out.(serverName := name));
    } else if typ == SUPPORTED_VERSIONS {
      var vers :- ParseSupportedVersions(data);
      r := Ok(out.(supportedVersions := vers));
    } else if typ == SUPPORTED_GROUPS {
      var groups :- ParseU16Vector(data, 2);
      r := Ok(out.(supportedGroups := groups));
    } else if typ == SIGNATURE_ALGORITHMS {
      var schemes :- ParseU16Vector(data, 2);
      r := Ok(out.(signatureAlgorithms := schemes));
    } else if typ == KEY_SHARE {
      var ks :- ParseClientKeyShare(data);
      r := Ok(out.(keyShares := ks));
    } else {
      r := Ok(out);
    }
  }

  method ParseClientHelloExtensions(exts: Bytes, start: ClientHello) returns (r: Parsed<ClientHello>)
    ensures r == ParseExtensions(exts, {}, start)
  {
    hide ApplyExt, TakeU16, TakeVec16;
    var c := new Cursor(exts);
    var seen: set<u16> := {};
    var out := start;
    while c.Remaining() > 0
      invariant c.Valid() && ParseExtensions(c.Rest(), seen, out) == ParseExtensions(exts, {}, start)
      decreases c.Remaining()
    {
      var extType :- c.ReadU16();
      var extData :- c.ReadVector(2);
      if extType in seen {
        return Err(DuplicateExtension);
      }
      seen := seen + {extType};
      out :- ParseExtension(extType, extData, out);
    }
    r := Ok(out);
  }

  /** The fields before the extension block. */
  method ReadFields(c: Cursor) returns (r: Parsed<ClientHello>)
    requires c.Valid()
    modifies c
    ensures c.Valid() && match TakeFields(old(c.Rest()))
      case Ok((fields, rest)) => r == Ok(fields) && c.Rest() == rest
      case Err(e) => r == Err(e)
  {
    hide TakeU16, TakeBytes, TakeVec8, TakeVec16, U16s, Cursor.Rest, Cursor.Valid;
    var v :- c.ReadU16();
    var random :- c.ReadBytes(32);
    var sid :- c.ReadVector(1);
    if |sid| > 32 {
      return Err(SessionIdTooLong);
    }
    var cs :- c.ReadVector(2);
    if |cs| % 2 != 0 {
      return Err(OddLength);
    }
    var suites := ReadU16s(cs);
    var comp :- c.ReadVector(1);
    if |comp| != 1 || comp[0] != 0 {
      return Err(BadCompression);
    }
    r := Ok(ClientHello(v, random, sid, suites, [], [], [], [], []));
  }

  /** parseClientHello. */
  method ParseHello(body: Bytes) returns (r: Parsed<ClientHello>)
    ensures r == ParseClientHello(body)
  {
    hide TakeFields, TakeVec16, ParseExtensions, Cursor.Rest, Cursor.Valid;
    var c := new Cursor(body);
    var fields :- ReadFields(c);
    var exts :- c.ReadVector(2);
    if c.Remaining() != 0 {
      return Err(TrailingBytes);
    }
    r := ParseClientHelloExtensions(exts, fields);
  }
}
