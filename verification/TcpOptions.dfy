/** tcp/options.go: finding the MSS among the options of a SYN. */
module TcpOptions {
  import opened Seq32
  import opened Wrappers
  import opened Wire

  const END: byte := 0
  const NOP: byte := 1
  const MSS: byte := 2

  function BuildMss(mss: u16): Bytes {
    [MSS, 4] + U16Bytes(mss)
  }

  function ParseMss(opts: Bytes): Option<u16>
    decreases |opts|
  {
    if opts == [] || opts[0] == END then None
    else if opts[0] == NOP then ParseMss(opts[1..])
    else if |opts| < 2 then None
    else
      var length: int := opts[1];
      if length < 2 || length > |opts| then None
      else if opts[0] == MSS && length == 4 then Some(U16At(opts, 2))
      else ParseMss(opts[length..])
  }

  method ParseMssOption(opts: Bytes) returns (mss: Option<u16>)
    ensures mss == ParseMss(opts)
  {
    var i := 0;
    while i < |opts|
      invariant 0 <= i <= |opts| && ParseMss(opts[i..]) == ParseMss(opts)
    {
      if opts[i] == END {
        return None;
      } else if opts[i] == NOP {
        assert opts[i..][1..] == opts[i + 1..];
        i := i + 1;
      } else {
        if i + 1 >= |opts| {
          return None;
        }
        var length: int := opts[i + 1];
        if length < 2 || i + length > |opts| {
          return None;
        }
        if opts[i] == MSS && length == 4 {
          return Some(U16At(opts, i + 2));
        }
        assert opts[i..][length..] == opts[i + length..];
        i := i + length;
      }
    }
    return None;
  }

  // ----- the grammar of section 3.1 of RFC 9293 --------------------------

  datatype Opt = Nop | Kind(kind: byte, body: Bytes)

  /** Any option but the end marker and a four-byte MSS. */
  predicate Skippable(o: Opt) {
    o.Kind? ==> o.kind != END && o.kind != NOP && |o.body| <= 253 && !(o.kind == MSS && |o.body| == 2)
  }

  predicate AllSkippable(opts: seq<Opt>) {
    forall i :: 0 <= i < |opts| ==> Skippable(opts[i])
  }

  function WriteOpt(o: Opt): Bytes
    requires Skippable(o)
  {
    match o case Nop => [NOP] case Kind(kind, body) => [kind, |body| + 2] + body
  }

  function WriteOpts(opts: seq<Opt>): Bytes
    requires AllSkippable(opts)
  {
    if opts == [] then [] else WriteOpt(opts[0]) + WriteOpts(opts[1..])
  }

  /** Options before it do not hide what follows. */
  lemma {:induction false} SkipOpts(opts: seq<Opt>, rest: Bytes)
    requires AllSkippable(opts)
    ensures ParseMss(WriteOpts(opts) + rest) == ParseMss(rest)
  {
    if opts == [] {
      assert WriteOpts(opts) + rest == rest;
    } else {
      var tail := WriteOpts(opts[1..]) + rest;
      assert WriteOpts(opts) + rest == WriteOpt(opts[0]) + tail;
      SkipOne(opts[0], tail);
      SkipOpts(opts[1..], rest);
    }
  }

  lemma SkipOne(o: Opt, rest: Bytes)
    requires Skippable(o)
    ensures ParseMss(WriteOpt(o) + rest) == ParseMss(rest)
  {
    var b := WriteOpt(o) + rest;
    assert b[|WriteOpt(o)|..] == rest;
  }

  lemma {:induction false} MssShape(b: Bytes) returns (opts: seq<Opt>, rest: Bytes)
    requires ParseMss(b).Some?
    ensures AllSkippable(opts) && b == WriteOpts(opts) + (BuildMss(ParseMss(b).value) + rest)
    decreases |b|
  {
    hide BuildMss, WriteOpts, ParseMss, U16At;
    opts, rest := [], [];
    MssCases(b);
    if b[0] == NOP {
      opts, rest := MssShape(b[1..]);
      ConsOpt(Nop, opts, BuildMss(ParseMss(b).value) + rest);
      assert b == WriteOpt(Nop) + b[1..];
      opts := [Nop] + opts;
    } else if b[0] == MSS && b[1] == 4 {
      rest := b[4..];
      FoundHere(b);
    } else {
      opts, rest := MssShape(b[b[1]..]);
      var (n, o) := (b[1] as int, Kind(b[0], b[2..b[1]]));
      ConsOpt(o, opts, BuildMss(ParseMss(b).value) + rest);
      assert WriteOpt(o) == [b[0], n] + b[2..n];
      assert b == [b[0], b[1]] + b[2..n] + b[n..];
      opts := [o] + opts;
    }
  }

  /** One round of the loop. */
  lemma MssCases(b: Bytes)
    requires ParseMss(b).Some?
    ensures b != [] && b[0] != END && (b[0] == NOP ==> ParseMss(b) == ParseMss(b[1..]))
    ensures b[0] != NOP ==> |b| >= 2 && 2 <= b[1] <= |b|
    ensures b[0] == MSS && b[1] == 4 ==> ParseMss(b) == Some(U16At(b, 2))
    ensures b[0] != NOP && !(b[0] == MSS && b[1] == 4) ==> ParseMss(b) == ParseMss(b[b[1]..])
  {
  }

  lemma FoundHere(b: Bytes)
    requires |b| >= 4 && b[0] == MSS && b[1] == 4
    ensures b == WriteOpts([]) + (BuildMss(U16At(b, 2)) + b[4..])
  {
    assert U16Bytes(U16At(b, 2)) == [b[2], b[3]];
    assert b == [b[0], b[1], b[2], b[3]] + b[4..];
  }

  lemma ConsOpt(o: Opt, opts: seq<Opt>, tail: Bytes)
    requires Skippable(o) && AllSkippable(opts)
    ensures AllSkippable([o] + opts) && WriteOpts([o] + opts) + tail == WriteOpt(o) + (WriteOpts(opts) + tail)
  {
    assert ([o] + opts)[1..] == opts;
  }

  /** An MSS is found exactly when the block is well-formed options of other kinds,
      then a four-byte MSS option, then anything; its value is returned. */
  lemma MssIff(b: Bytes, mss: u16)
    ensures ParseMss(b) == Some(mss) <==>
      exists opts, rest :: AllSkippable(opts) && b == WriteOpts(opts) + (BuildMss(mss) + rest)
  {
    if ParseMss(b) == Some(mss) {
      var opts, rest := MssShape(b);
    }
    if opts, rest :| AllSkippable(opts) && b == WriteOpts(opts) + (BuildMss(mss) + rest) {
      SkipOpts(opts, BuildMss(mss) + rest);
      MssFirst(mss, rest);
    }
  }

  lemma MssFirst(mss: u16, rest: Bytes)
    ensures ParseMss(BuildMss(mss) + rest) == Some(mss)
  {
    var b := BuildMss(mss) + rest;
    assert b[2] == mss / 256 % 256 && b[3] == mss % 256;
  }
}
