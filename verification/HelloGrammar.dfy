/** parseClientHello inverts serialization: it accepts exactly the well-formed
    hellos, and neither the order of extensions nor unknown ones matter. */
module HelloGrammar {
  import opened Seq32
  import opened Wrappers
  import opened Wire
  import opened HelloModel

  // ----- vectors ---------------------------------------------------------

  lemma U16Iff(b: Bytes, n: u16, rest: Bytes)
    ensures TakeU16(b) == Ok((n, rest)) <==> b == U16Bytes(n) + rest
  {
    U16Written(n, rest);
    if |b| >= 2 {
      U16Reread(b);
    }
    hide U16At, U16Bytes;
  }

  lemma U16Written(n: u16, rest: Bytes)
    ensures TakeU16(U16Bytes(n) + rest) == Ok((n, rest))
  {
  }

  lemma U16Reread(b: Bytes)
    requires |b| >= 2
    ensures U16Bytes(U16At(b, 0)) + b[2..] == b
  {
    var high: int := b[0];
    assert U16Bytes(U16At(b, 0)) == b[..2];
  }

  lemma BytesIff(b: Bytes, n: nat, head: Bytes, rest: Bytes)
    ensures TakeBytes(b, n) == Ok((head, rest)) <==> |head| == n && b == head + rest
  {
    if |b| >= n {
      assert b == b[..n] + b[n..];
    }
    if |head| == n {
      assert (head + rest)[..n] == head && (head + rest)[n..] == rest;
    }
  }

  lemma Vec16Iff(b: Bytes, body: Bytes, rest: Bytes)
    ensures TakeVec16(b) == Ok((body, rest)) <==> |body| < 65536 && b == Vec16(body) + rest
  {
    hide U16Bytes, U16At;
    if TakeU16(b).Ok? {
      var (n, tail) := TakeU16(b).value;
      U16Iff(b, n, tail);
      BytesIff(tail, n, body, rest);
      assert |body| == n ==> U16Bytes(n) + (body + rest) == Vec16(body) + rest;
    }
    if |body| < 65536 {
      U16Iff(b, |body|, body + rest);
      BytesIff(body + rest, |body|, body, rest);
      assert Vec16(body) + rest == U16Bytes(|body|) + (body + rest);
    }
  }

  lemma Vec8Iff(b: Bytes, body: Bytes, rest: Bytes)
    ensures TakeVec8(b) == Ok((body, rest)) <==> |body| < 256 && b == Vec8(body) + rest
  {
    if |b| > 0 {
      BytesIff(b[1..], b[0], body, rest);
      assert b == [b[0]] + b[1..];
    }
    if |body| < 256 {
      assert Vec8(body) + rest == [|body|] + (body + rest);
      BytesIff(body + rest, |body|, body, rest);
    }
  }

  // ----- lists of numbers ------------------------------------------------

  lemma {:induction false} U16sOfWritten(xs: seq<u16>)
    ensures U16s(WriteU16s(xs)) == xs
  {
    if xs != [] {
      var b := WriteU16s(xs);
      U16sOfWritten(xs[1..]);
      U16Iff(b, xs[0], WriteU16s(xs[1..]));
    }
  }

  lemma {:induction false} WrittenOfU16s(b: Bytes)
    requires |b| % 2 == 0
    ensures WriteU16s(U16s(b)) == b
  {
    if b != [] {
      WrittenOfU16s(b[2..]);
      U16Iff(b, U16At(b, 0), b[2..]);
    }
  }

  lemma U16sIff(b: Bytes, xs: seq<u16>)
    ensures ParseU16s(b) == Ok(xs) <==> b == WriteU16s(xs)
  {
    U16sOfWritten(xs);
    if |b| % 2 == 0 {
      WrittenOfU16s(b);
    }
  }

  /** supported_groups and signature_algorithms. */
  lemma Vec16U16sIff(data: Bytes, xs: seq<u16>)
    ensures ParseVec16U16s(data) == Ok(xs) <==> |xs| <= 32767 && data == Vec16(WriteU16s(xs))
  {
    hide TakeVec16, Vec16;
    var body := WriteU16s(xs);
    Vec16Iff(data, body, []);
    assert Vec16(body) + [] == Vec16(body);
    U16sIff(body, xs);
    if TakeVec16(data).Ok? {
      U16sIff(TakeVec16(data).value.0, xs);
    }
  }

  lemma VersionsIff(data: Bytes, xs: seq<u16>)
    ensures ParseVersions(data) == Ok(xs) <==> |xs| <= 127 && data == Vec8(WriteU16s(xs))
  {
    hide TakeVec8;
    var body := WriteU16s(xs);
    Vec8Iff(data, body, []);
    U16sIff(body, xs);
    if |xs| <= 127 {
      assert Vec8(body) + [] == Vec8(body);
    }
    if TakeVec8(data).Ok? {
      U16sIff(TakeVec8(data).value.0, xs);
    }
  }

  // ----- key shares ------------------------------------------------------

  predicate SharesFit(ks: seq<KeyShare>) {
    forall i :: 0 <= i < |ks| ==> |ks[i].keyExchange| < 65536
  }

  lemma {:induction false} SharesOfWritten(ks: seq<KeyShare>)
    requires SharesFit(ks)
    ensures ParseShareList(WriteShares(ks)) == Ok(ks)
  {
    hide TakeVec16, U16Bytes, Vec16;
    if ks != [] {
      var tail := WriteShares(ks[1..]);
      var body := Vec16(ks[0].keyExchange) + tail;
      U16Iff(WriteShares(ks), ks[0].group, body);
      Vec16Iff(body, ks[0].keyExchange, tail);
      assert WriteShares(ks) == U16Bytes(ks[0].group) + body;
      SharesOfWritten(ks[1..]);
      assert [ks[0]] + ks[1..] == ks;
    }
  }

  lemma {:induction false} WrittenOfShares(b: Bytes)
    requires ParseShareList(b).Ok?
    ensures SharesFit(ParseShareList(b).value) && WriteShares(ParseShareList(b).value) == b
    decreases |b|
  {
    hide U16Bytes, Vec16;
    if b != [] {
      var (group, rest) := TakeU16(b).value;
      var (key, rest') := TakeVec16(rest).value;
      U16Iff(b, group, rest);
      Vec16Iff(rest, key, rest');
      WrittenOfShares(rest');
      assert U16Bytes(group) + Vec16(key) + rest' == U16Bytes(group) + (Vec16(key) + rest');
    }
  }

  lemma KeySharesIff(data: Bytes, ks: seq<KeyShare>)
    ensures ParseKeyShares(data) == Ok(ks) <==>
      SharesFit(ks) && |WriteShares(ks)| < 65536 && data == Vec16(WriteShares(ks))
  {
    hide TakeVec16, Vec16, ParseShareList, WriteShares;
    var body := WriteShares(ks);
    Vec16Iff(data, body, []);
    assert Vec16(body) + [] == Vec16(body);
    if SharesFit(ks) {
      SharesOfWritten(ks);
    }
    if TakeVec16(data).Ok? {
      var (list, rest) := TakeVec16(data).value;
      Vec16Iff(data, list, rest);
      if ParseShareList(list) == Ok(ks) {
        WrittenOfShares(list);
      }
    }
  }

  // ----- server names ----------------------------------------------------

  datatype Name = Name(typ: byte, name: Bytes)

  function WriteNames(names: seq<Name>): Bytes {
    if names == [] then [] else [names[0].typ] + Vec16(names[0].name) + WriteNames(names[1..])
  }

  predicate NoHost(names: seq<Name>) {
    forall i :: 0 <= i < |names| ==> names[i].typ != HOST_NAME && |names[i].name| < 65536
  }

  /** Other names are stepped over. */
  lemma {:induction false} SkipNames(names: seq<Name>, rest: Bytes)
    requires NoHost(names)
    ensures FirstHostName(WriteNames(names) + rest) == FirstHostName(rest)
  {
    hide TakeVec16, Vec16;
    if names == [] {
      assert WriteNames(names) + rest == rest;
    } else {
      var tail := WriteNames(names[1..]) + rest;
      var b := [names[0].typ] + (Vec16(names[0].name) + tail);
      assert WriteNames(names) + rest == b;
      assert b[1..] == Vec16(names[0].name) + tail;
      Vec16Iff(b[1..], names[0].name, tail);
      SkipNames(names[1..], rest);
    }
  }

  /** The list is read as far as its first host name, if it has one. */
  ghost predicate HostNameIn(list: Bytes, name: Bytes, skipped: seq<Name>, unread: Bytes) {
    && NoHost(skipped)
    && ((list == WriteNames(skipped) && name == [])
        || (|name| < 65536 && list == WriteNames(skipped) + ([HOST_NAME] + (Vec16(name) + unread))))
  }

  lemma {:induction false} HostNameShape(list: Bytes) returns (skipped: seq<Name>, unread: Bytes)
    requires FirstHostName(list).Ok?
    ensures HostNameIn(list, FirstHostName(list).value, skipped, unread)
    decreases |list|
  {
    hide TakeVec16, Vec16;
    skipped, unread := [], [];
    if list != [] {
      var (typ, rest) := TakeU8(list).value;
      var (name, rest') := TakeVec16(rest).value;
      Vec16Iff(rest, name, rest');
      assert list == [typ] + (Vec16(name) + rest');
      if typ == HOST_NAME {
        unread := rest';
        assert WriteNames([]) + list == list;
      } else {
        var more, junk := HostNameShape(rest');
        skipped, unread := [Name(typ, name)] + more, junk;
        NamesCons(Name(typ, name), more);
        assert [typ] + Vec16(name) + WriteNames(more) + ([HOST_NAME] + (Vec16(FirstHostName(list).value) + unread))
          == [typ] + (Vec16(name) + (WriteNames(more) + ([HOST_NAME] + (Vec16(FirstHostName(list).value) + unread))));
      }
    }
  }

  lemma NamesCons(n: Name, more: seq<Name>)
    ensures WriteNames([n] + more) == [n.typ] + Vec16(n.name) + WriteNames(more)
    ensures [n.typ] + Vec16(n.name) + WriteNames(more) == [n.typ] + (Vec16(n.name) + WriteNames(more))
  {
    assert ([n] + more)[1..] == more;
  }

  /** parseServerNameExtension: the extension is exactly one list, and the result is
      its first host name; what follows that name inside the list is not looked at. */
  lemma ServerNameIff(data: Bytes, name: Bytes)
    ensures ParseServerName(data) == Ok(name) <==>
      exists list, skipped, unread :: |list| < 65536 && data == Vec16(list) && HostNameIn(list, name, skipped, unread)
  {
    hide TakeVec16, Vec16;
    if ParseServerName(data) == Ok(name) {
      var (list, rest) := TakeVec16(data).value;
      Vec16Iff(data, list, rest);
      assert Vec16(list) + [] == Vec16(list);
      var skipped, unread := HostNameShape(list);
      assert HostNameIn(list, name, skipped, unread);
    }
    if list, skipped, unread :| |list| < 65536 && data == Vec16(list) && HostNameIn(list, name, skipped, unread) {
      assert Vec16(list) + [] == Vec16(list);
      Vec16Iff(data, list, []);
      HostNameRead(list, name, skipped, unread);
    }
  }

  lemma HostNameRead(list: Bytes, name: Bytes, skipped: seq<Name>, unread: Bytes)
    requires HostNameIn(list, name, skipped, unread)
    ensures FirstHostName(list) == Ok(name)
  {
    hide TakeVec16, Vec16;
    var tail := Vec16(name) + unread;
    var host := [HOST_NAME] + tail;
    if |name| < 65536 && list == WriteNames(skipped) + host {
      SkipNames(skipped, host);
      assert host[1..] == tail;
      Vec16Iff(tail, name, unread);
    } else {
      SkipNames(skipped, []);
      assert WriteNames(skipped) + [] == list;
    }
  }

  // ----- extensions ------------------------------------------------------

  predicate ExtsFit(exts: seq<Extension>) {
    forall i :: 0 <= i < |exts| ==> |exts[i].data| < 65536
  }

  predicate Unseen(exts: seq<Extension>, seen: set<u16>) {
    forall i :: 0 <= i < |exts| ==> exts[i].typ !in seen
  }

  /** What fits the block's own length fits each extension's length. */
  lemma {:induction false} BlockFits(exts: seq<Extension>)
    requires |WriteExts(exts)| < 65536
    ensures ExtsFit(exts)
  {
    if exts != [] {
      BlockFits(exts[1..]);
      assert exts == [exts[0]] + exts[1..];
    }
  }

  /** The type and data of the first extension come out of the block. */
  lemma FirstExtension(exts: seq<Extension>)
    requires exts != [] && |exts[0].data| < 65536
    ensures var (b, tail) := (WriteExts(exts), WriteExts(exts[1..]));
      b != [] && TakeU16(b) == Ok((exts[0].typ, Vec16(exts[0].data) + tail))
      && TakeVec16(Vec16(exts[0].data) + tail) == Ok((exts[0].data, tail))
  {
    hide TakeVec16, Vec16;
    var tail := WriteExts(exts[1..]);
    var body := Vec16(exts[0].data) + tail;
    assert WriteExts(exts) == U16Bytes(exts[0].typ) + body;
    U16Iff(WriteExts(exts), exts[0].typ, body);
    Vec16Iff(body, exts[0].data, tail);
  }

  lemma ApplyOk(e: Extension, out: ClientHello)
    ensures ApplyExt(e.typ, e.data, out).Ok? <==> ExtOk(e)
  {
  }

  /** The loop's verdict on a block of extensions, and its result when it accepts. */
  lemma {:induction false} BlockIff(exts: seq<Extension>, seen: set<u16>, out: ClientHello)
    requires ExtsFit(exts)
    ensures var r := ParseExtensions(WriteExts(exts), seen, out);
      && (r.Ok? <==> DistinctTypes(exts) && Unseen(exts, seen) && AllExtOk(exts))
      && (r.Ok? ==> r.value == Overlay(out, exts))
  {
    hide ApplyExt, ExtOk, Overlay, TakeVec16, TakeU16;
    if exts == [] {
      OverlayNone(out);
    } else {
      var e, tail := exts[0], exts[1..];
      FirstExtension(exts);
      ApplyOk(e, out);
      ConsExts(exts, seen);
      if e.typ !in seen && ExtOk(e) {
        var out' := ApplyExt(e.typ, e.data, out).value;
        BlockIff(tail, seen + {e.typ}, out');
        if DistinctTypes(exts) {
          OverlayCons(exts, out);
        }
      }
    }
  }

  lemma ConsExts(exts: seq<Extension>, seen: set<u16>)
    requires exts != []
    ensures DistinctTypes(exts) && Unseen(exts, seen) <==>
      DistinctTypes(exts[1..]) && Unseen(exts[1..], seen + {exts[0].typ}) && exts[0].typ !in seen
    ensures AllExtOk(exts) <==> ExtOk(exts[0]) && AllExtOk(exts[1..])
  {
    hide ExtOk;
    assert exts == [exts[0]] + exts[1..];
  }

  lemma OverlayNone(out: ClientHello)
    ensures Overlay(out, []) == out
  {
  }

  lemma OverlayCons(exts: seq<Extension>, out: ClientHello)
    requires exts != [] && ExtOk(exts[0]) && forall i :: 0 < i < |exts| ==> exts[i].typ != exts[0].typ
    ensures ApplyExt(exts[0].typ, exts[0].data, out).Ok?
    ensures Overlay(out, exts) == Overlay(ApplyExt(exts[0].typ, exts[0].data, out).value, exts[1..])
  {
    hide ParseServerName, ParseVersions, ParseVec16U16s, ParseKeyShares;
    LookupAbsent(exts[1..], exts[0].typ);
  }

  lemma {:induction false} LookupAbsent(exts: seq<Extension>, typ: u16)
    requires forall i :: 0 <= i < |exts| ==> exts[i].typ != typ
    ensures Lookup(exts, typ) == None
  {
    if exts != [] {
      LookupAbsent(exts[1..], typ);
    }
  }

  /** An accepted block is cut into extensions without a byte left over. */
  lemma {:induction false} BlockShape(b: Bytes, seen: set<u16>, out: ClientHello) returns (exts: seq<Extension>)
    requires ParseExtensions(b, seen, out).Ok?
    ensures b == WriteExts(exts) && ExtsFit(exts)
    decreases |b|
  {
    hide ApplyExt, U16At, WriteExts, ExtsFit;
    exts := [];
    if b == [] {
      NoExtension();
    } else {
      var (typ, rest) := TakeU16(b).value;
      var (data, rest') := TakeVec16(rest).value;
      var more := BlockShape(rest', seen + {typ}, ApplyExt(typ, data, out).value);
      exts := BlockStep(b, typ, rest, data, rest', more);
    }
  }

  lemma NoExtension()
    ensures WriteExts([]) == [] && ExtsFit([])
  {
  }

  lemma BlockStep(b: Bytes, typ: u16, rest: Bytes, data: Bytes, rest': Bytes, more: seq<Extension>)
    returns (exts: seq<Extension>)
    requires TakeU16(b) == Ok((typ, rest)) && TakeVec16(rest) == Ok((data, rest'))
    requires rest' == WriteExts(more) && ExtsFit(more)
    ensures b == WriteExts(exts) && ExtsFit(exts)
  {
    hide TakeU16, TakeVec16, U16Bytes, Vec16;
    U16Iff(b, typ, rest);
    Vec16Iff(rest, data, rest');
    exts := [Extension(typ, data)] + more;
    assert exts[1..] == more;
    assert U16Bytes(typ) + Vec16(data) + rest' == U16Bytes(typ) + (Vec16(data) + rest');
  }

  // ----- the whole hello -------------------------------------------------

  /** The fixed fields come out as written; the extensions decide. */
  lemma FixedFields(h: Hello)
    requires Serializable(h)
    ensures ParseClientHello(WriteHello(h)) ==
      ParseExtensions(WriteExts(h.exts), {},
                      ClientHello(h.version, h.random, h.sessionId, h.suites, [], [], [], [], []))
  {
    hide TakeU16, TakeBytes, TakeVec8, TakeVec16, Vec16, U16Bytes, Vec8, WriteExts, WriteU16s, ParseExtensions;
    var cs := WriteU16s(h.suites);
    var exts := WriteExts(h.exts);
    var b5 := Vec16(exts);
    var b4 := Vec8([0]) + b5;
    var b3 := Vec16(cs) + b4;
    var b2 := Vec8(h.sessionId) + b3;
    var b1 := h.random + b2;
    U16Iff(WriteHello(h), h.version, b1);
    BytesIff(b1, 32, h.random, b2);
    Vec8Iff(b2, h.sessionId, b3);
    Vec16Iff(b3, cs, b4);
    U16sOfWritten(h.suites);
    Vec8Iff(b4, [0], b5);
    assert b5 + [] == b5;
    Vec16Iff(b5, exts, []);
  }

  /** A hello that fits its length prefixes is accepted exactly when no extension
      type repeats and each known extension parses; the result says what it says. */
  lemma AcceptIff(h: Hello)
    requires Serializable(h)
    ensures ParseClientHello(WriteHello(h)).Ok? <==> WellFormed(h)
    ensures WellFormed(h) ==> ParseClientHello(WriteHello(h)) == Ok(Fields(h))
  {
    hide ParseClientHello, ParseExtensions, WriteHello, WriteExts, Overlay, ExtOk;
    FixedFields(h);
    BlockFits(h.exts);
    BlockIff(h.exts, {}, ClientHello(h.version, h.random, h.sessionId, h.suites, [], [], [], [], []));
  }

  /** Every length-prefixed block of an accepted hello is consumed exactly. */
  lemma AcceptedShape(body: Bytes) returns (h: Hello)
    requires ParseClientHello(body).Ok?
    ensures Serializable(h) && body == WriteHello(h)
  {
    hide TakeU16, TakeBytes, TakeVec8, TakeVec16, Vec16, U16Bytes, Vec8, WriteExts, WriteU16s, ParseExtensions, U16s;
    var (version, b1) := TakeU16(body).value;
    var (random, b2) := TakeBytes(b1, 32).value;
    var (sid, b3) := TakeVec8(b2).value;
    var (cs, b4) := TakeVec16(b3).value;
    var (comp, b5) := TakeVec8(b4).value;
    var (exts, b6) := TakeVec16(b5).value;
    U16Iff(body, version, b1);
    BytesIff(b1, 32, random, b2);
    Vec8Iff(b2, sid, b3);
    Vec16Iff(b3, cs, b4);
    Vec8Iff(b4, comp, b5);
    Vec16Iff(b5, exts, b6);
    assert Vec16(exts) + [] == Vec16(exts);
    WrittenOfU16s(cs);
    var list := BlockShape(exts, {}, ClientHello(version, random, sid, U16s(cs), [], [], [], [], []));
    h := Hello(version, random, sid, U16s(cs), list);
  }

  /** parseClientHello accepts exactly the serialized well-formed hellos, with their fields. */
  lemma HelloIff(body: Bytes, out: ClientHello)
    ensures ParseClientHello(body) == Ok(out) <==>
      exists h :: WellFormed(h) && body == WriteHello(h) && out == Fields(h)
  {
    hide ParseClientHello, WriteHello, DistinctTypes, AllExtOk, Fields;
    if ParseClientHello(body) == Ok(out) {
      var h := AcceptedShape(body);
      AcceptIff(h);
    }
    if h :| WellFormed(h) && body == WriteHello(h) && out == Fields(h) {
      AcceptIff(h);
    }
  }

  // ----- order and unknown extensions ------------------------------------

  predicate Known(typ: u16) {
    typ in {SERVER_NAME, SUPPORTED_GROUPS, SIGNATURE_ALGORITHMS, SUPPORTED_VERSIONS, KEY_SHARE}
  }

  /** With distinct types, looking up is membership. */
  lemma {:induction false} LookupIff(exts: seq<Extension>, typ: u16, data: Bytes)
    requires DistinctTypes(exts)
    ensures Lookup(exts, typ) == Some(data) <==> Extension(typ, data) in exts
  {
    if exts != [] {
      LookupIff(exts[1..], typ, data);
      assert exts == [exts[0]] + exts[1..];
    }
  }

  /** Swapping in another order of the same extensions keeps the block's size. */
  lemma {:induction false} BlockLength(exts: seq<Extension>, exts': seq<Extension>)
    requires multiset(exts) == multiset(exts')
    ensures |WriteExts(exts)| == |WriteExts(exts')|
    decreases |exts|
  {
    if exts == [] {
      assert |exts'| == |multiset(exts')| == 0;
    } else {
      var e := exts[0];
      assert exts == [e] + exts[1..];
      assert e in multiset(exts');
      var k :| 0 <= k < |exts'| && exts'[k] == e;
      var before, after := exts'[..k], exts'[k + 1..];
      assert exts' == before + [e] + after;
      RemoveOne(e, exts[1..], before, after);
      BlockLength(exts[1..], before + after);
      InsertLength(before, e, after);
    }
  }

  lemma RemoveOne(e: Extension, rest: seq<Extension>, before: seq<Extension>, after: seq<Extension>)
    requires multiset([e] + rest) == multiset(before + [e] + after)
    ensures multiset(rest) == multiset(before + after)
  {
    var (m, n) := (multiset(rest), multiset(before + after));
    assert multiset([e] + rest) == multiset{e} + m;
    assert multiset(before + [e] + after) == multiset{e} + n;
    forall x ensures m[x] == n[x] {
      assert (multiset{e} + m)[x] == (multiset{e} + n)[x];
    }
  }

  lemma {:induction false} InsertLength(before: seq<Extension>, e: Extension, after: seq<Extension>)
    ensures |WriteExts(before + [e] + after)| == |WriteExts(before + after)| + 4 + |e.data|
  {
    if before == [] {
      assert [] + [e] + after == [e] + after && [] + after == after;
      assert ([e] + after)[1..] == after;
    } else {
      InsertLength(before[1..], e, after);
      assert (before + [e] + after)[1..] == before[1..] + [e] + after;
      assert (before + after)[1..] == before[1..] + after;
    }
  }

  /** Repetition of a type is a matter of the multiset alone. */
  lemma {:induction false} DistinctPermuted(exts: seq<Extension>, exts': seq<Extension>)
    requires multiset(exts) == multiset(exts') && DistinctTypes(exts)
    ensures DistinctTypes(exts')
  {
    forall i, j | 0 <= i < j < |exts'| ensures exts'[i].typ != exts'[j].typ {
      if exts'[i].typ == exts'[j].typ {
        var a := IndexOf(exts, exts'[i]);
        var b := IndexOf(exts, exts'[j]);
        assert a == b;
        TwiceCounted(exts', i, j);
        OnceCounted(exts, a);
        assert false;
      }
    }
  }

  lemma IndexOf(exts: seq<Extension>, e: Extension) returns (k: nat)
    requires e in multiset(exts)
    ensures k < |exts| && exts[k] == e
  {
    assert e in exts;
    k :| 0 <= k < |exts| && exts[k] == e;
  }

  lemma TwiceCounted(exts: seq<Extension>, i: nat, j: nat)
    requires i < j < |exts| && exts[i] == exts[j]
    ensures multiset(exts)[exts[i]] >= 2
  {
    var (before, after) := (exts[..j], exts[j..]);
    assert exts == before + after;
    assert before[i] in multiset(before) && after[0] in multiset(after);
  }

  lemma OnceCounted(exts: seq<Extension>, k: nat)
    requires k < |exts| && DistinctTypes(exts)
    ensures multiset(exts)[exts[k]] == 1
  {
    var e := exts[k];
    var (before, after) := (exts[..k], exts[k + 1..]);
    assert exts == before + [e] + after;
    assert e !in before && e !in after;
  }

  /** Reordering the extensions changes neither acceptance nor a parsed field. */
  lemma OrderIrrelevant(h: Hello, exts: seq<Extension>)
    requires Serializable(h) && multiset(exts) == multiset(h.exts)
    ensures var (r, r') := (ParseClientHello(WriteHello(h)), ParseClientHello(WriteHello(h.(exts := exts))));
      (r.Ok? <==> r'.Ok?) && (r.Ok? ==> r == r')
  {
    hide ParseClientHello, WriteHello, ExtOk;
    var h' := h.(exts := exts);
    BlockLength(h.exts, exts);
    AcceptIff(h);
    AcceptIff(h');
    if DistinctTypes(h.exts) || DistinctTypes(exts) {
      if DistinctTypes(h.exts) { DistinctPermuted(h.exts, exts); } else { DistinctPermuted(exts, h.exts); }
      SameMembers(h.exts, exts);
      SameLookups(h.exts, exts);
    }
  }

  lemma SameMembers(exts: seq<Extension>, exts': seq<Extension>)
    requires multiset(exts) == multiset(exts')
    ensures AllExtOk(exts) <==> AllExtOk(exts')
    ensures forall e :: e in exts <==> e in exts'
  {
    hide ExtOk;
    forall e ensures e in exts <==> e in exts' {
      assert e in exts <==> e in multiset(exts);
      assert e in exts' <==> e in multiset(exts');
    }
    if AllExtOk(exts) {
      forall i | 0 <= i < |exts'| ensures ExtOk(exts'[i]) {
        assert exts'[i] in exts;
      }
    }
    if AllExtOk(exts') {
      forall i | 0 <= i < |exts| ensures ExtOk(exts[i]) {
        assert exts[i] in exts';
      }
    }
  }

  lemma SameLookups(exts: seq<Extension>, exts': seq<Extension>)
    requires DistinctTypes(exts) && DistinctTypes(exts') && forall e :: e in exts <==> e in exts'
    ensures forall typ :: Lookup(exts, typ) == Lookup(exts', typ)
  {
    forall typ ensures Lookup(exts, typ) == Lookup(exts', typ) {
      var a, b := Lookup(exts, typ), Lookup(exts', typ);
      if a.Some? {
        LookupIff(exts, typ, a.value);
        LookupIff(exts', typ, a.value);
      } else if b.Some? {
        LookupIff(exts, typ, b.value);
        LookupIff(exts', typ, b.value);
      }
    }
  }

  /** An extension of a fresh unknown type, anywhere in the list, changes nothing. */
  lemma UnknownIgnored(h: Hello, i: nat, e: Extension)
    requires Serializable(h) && i <= |h.exts| && |WriteExts(h.exts)| + 4 + |e.data| < 65536
    requires !Known(e.typ) && forall j :: 0 <= j < |h.exts| ==> h.exts[j].typ != e.typ
    ensures var (r, r') := (ParseClientHello(WriteHello(h)),
        ParseClientHello(WriteHello(h.(exts := h.exts[..i] + [e] + h.exts[i..]))));
      (r.Ok? <==> r'.Ok?) && (r.Ok? ==> r == r')
  {
    hide ParseClientHello, WriteHello, ExtOk;
    var (before, after) := (h.exts[..i], h.exts[i..]);
    assert h.exts == before + after;
    var h' := h.(exts := before + [e] + after);
    InsertLength(before, e, after);
    AcceptIff(h);
    AcceptIff(h');
    UnknownOk(e);
    InsertIff(before, e, after);
    forall typ | typ != e.typ ensures Lookup(before + [e] + after, typ) == Lookup(before + after, typ) {
      LookupInsert(before, e, after, typ);
    }
  }

  lemma UnknownOk(e: Extension)
    requires !Known(e.typ)
    ensures ExtOk(e)
  {
  }

  /** Where an element stands once something was inserted before position k. */
  function Shifted(j: nat, k: nat): nat {
    if j < k then j else j + 1
  }

  lemma InsertIff(before: seq<Extension>, e: Extension, after: seq<Extension>)
    requires ExtOk(e) && forall j :: 0 <= j < |before + after| ==> (before + after)[j].typ != e.typ
    ensures DistinctTypes(before + [e] + after) <==> DistinctTypes(before + after)
    ensures AllExtOk(before + [e] + after) <==> AllExtOk(before + after)
  {
    hide ExtOk, DistinctTypes, AllExtOk;
    InsertDistinct(before, e, after);
    OkConcat(before + [e], after);
    OkConcat(before, [e]);
    OkConcat(before, after);
    OkOne(e);
  }

  lemma OkOne(e: Extension)
    ensures AllExtOk([e]) <==> ExtOk(e)
  {
    hide ExtOk;
    assert [e][0] == e;
  }

  lemma OkConcat(a: seq<Extension>, b: seq<Extension>)
    ensures AllExtOk(a + b) <==> AllExtOk(a) && AllExtOk(b)
  {
    hide ExtOk;
    assert forall i :: 0 <= i < |a| ==> (a + b)[i] == a[i];
    assert forall i :: 0 <= i < |b| ==> (a + b)[|a| + i] == b[i];
  }

  lemma InsertDistinct(before: seq<Extension>, e: Extension, after: seq<Extension>)
    requires forall j :: 0 <= j < |before + after| ==> (before + after)[j].typ != e.typ
    ensures DistinctTypes(before + [e] + after) <==> DistinctTypes(before + after)
  {
    var (all, rest, k) := (before + [e] + after, before + after, |before|);
    assert forall j :: 0 <= j < |rest| ==> all[Shifted(j, k)] == rest[j];
    if DistinctTypes(all) {
      forall i, j | 0 <= i < j < |rest| ensures rest[i].typ != rest[j].typ {
        assert all[Shifted(i, k)].typ != all[Shifted(j, k)].typ;
      }
    }
    if DistinctTypes(rest) {
      forall i, j | 0 <= i < j < |all| ensures all[i].typ != all[j].typ {
        var (i', j') := (if i < k then i else i - 1, if j < k then j else j - 1);
        if i != k && j != k {
          assert all[i] == all[Shifted(i', k)] && all[j] == all[Shifted(j', k)] && rest[i'].typ != rest[j'].typ;
        } else {
          assert all[k] == e;
          assert i == k ==> all[j] == rest[j'];
          assert j == k ==> all[i] == rest[i'];
        }
      }
    }
  }

  lemma {:induction false} LookupInsert(before: seq<Extension>, e: Extension, after: seq<Extension>, typ: u16)
    requires typ != e.typ
    ensures Lookup(before + [e] + after, typ) == Lookup(before + after, typ)
  {
    if before == [] {
      assert [] + [e] + after == [e] + after && [] + after == after;
      assert ([e] + after)[1..] == after;
    } else {
      LookupInsert(before[1..], e, after, typ);
      assert (before + [e] + after)[1..] == before[1..] + [e] + after;
      assert (before + after)[1..] == before[1..] + after;
    }
  }
}
