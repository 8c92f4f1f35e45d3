/** tls/x25519.go: byte codecs, clamping, the ladder loop with its deferred
    conditional swaps, and the all-zero check (sections 5 and 6.1 of RFC 7748). */
module X25519 {
  import opened Seq32
  import opened Wrappers
  import opened Bits
  import opened Modular
  import opened Montgomery
  import opened Projective
  import opened Ladder
  import opened OrderEight

  type Key = k: seq<byte> | |k| == 32 witness seq(32, i => 0)

  // ----- clamping --------------------------------------------------------

  lemma Pow2Small()
    ensures Pow2(1) == 2 && Pow2(3) == 8 && Pow2(5) == 32 && Pow2(6) == 64 && Pow2(7) == 128
  {
    assert Pow2(3) == 8;
    assert Pow2(5) == 4 * Pow2(3);
    assert Pow2(7) == 4 * Pow2(5);
  }

  lemma AndClamp(b: byte)
    ensures And(b, 248) == b - b % 8 && And(b, 127) == b % 128
  {
    hide And;
    Pow2Small();
    AndOddMask(b, 124);
    AndOddMask(b / 2, 62);
    AndOddMask(b / 4, 31);
    AndMask(b / 8, 5);
    AndMask(b, 7);
  }

  lemma OrClamp(x: byte)
    requires x < 128
    ensures Or(x, 64) == 64 + x % 64
  {
    hide Or;
    Pow2Small();
    OrBit(x, 6);
  }

  function ClampScalar(inp: Key): Key {
    AndClamp(inp[0]);
    AndClamp(inp[31]);
    OrClamp(And(inp[31], 127));
    inp[0 := And(inp[0], 248)][31 := Or(And(inp[31], 127), 64)]
  }

  /** Clamping clears the low three bits and puts the leading 1 at bit 254. */
  lemma ClampValue(inp: Key)
    ensures var n := LeInt(inp);
      LeInt(ClampScalar(inp)) == Pow2(254) + n % Pow2(254) - n % 8
  {
    hide LeInt, ClampScalar, Pow2;
    var out := ClampScalar(inp);
    ClampBytes(inp);
    KeyParts(inp);
    KeyParts(out);
    assert out[1..31] == inp[1..31];
    Pow2Add(245, 3);
    Pow2Add(248, 6);
    Pow2Small();
    ClampParts(inp[0], LeInt(inp[1..31]), inp[31], Pow2(245), Pow2(248), Pow2(254));
  }

  lemma ClampParts(a: byte, mid: nat, top: byte, r: nat, q: nat, m: nat)
    requires q == 8 * r && m == 64 * q && a + 256 * mid < q
    ensures var n := a + 256 * mid + top * q;
      a - a % 8 + 256 * mid + (64 + top % 64) * q == m + n % m - n % 8
  {
    var h, l := top / 64, top % 64;
    assert top == 64 * h + l;
    ClampHigh(a + 256 * mid, h, l, q, m);
    ClampLow(a, mid, top, r, q);
  }

  lemma ClampBytes(inp: Key)
    ensures var out := ClampScalar(inp);
      out[0] == inp[0] - inp[0] % 8 && out[31] == 64 + inp[31] % 64 && forall i :: 0 < i < 31 ==> out[i] == inp[i]
  {
    hide And, Or, Pow2;
    AndClamp(inp[0]);
    AndClamp(inp[31]);
    OrClamp(And(inp[31], 127));
    Mod128Mod64(inp[31]);
    var (low, high) := (And(inp[0], 248), Or(And(inp[31], 127), 64));
    assert ClampScalar(inp) == inp[0 := low][31 := high];
  }

  lemma Mod128Mod64(b: byte)
    ensures b % 128 % 64 == b % 64
  {
  }

  lemma ClampHigh(low: nat, h: nat, l: nat, q: nat, m: nat)
    requires m == 64 * q && low < q && l < 64
    ensures (low + (64 * h + l) * q) % m == low + l * q
    ensures (64 + l) * q == m + l * q
  {
    assert (64 * h + l) * q == h * m + l * q;
    assert l * q <= 63 * q;
    DivModUnique(low + (64 * h + l) * q, m, h, low + l * q);
  }

  lemma ClampLow(a: byte, mid: nat, top: nat, r: nat, q: nat)
    requires q == 8 * r
    ensures (a + 256 * mid + top * q) % 8 == a % 8
  {
    MulAssoc(top, r, 8);
    DivModUnique(a + 256 * mid + top * q, 8, a / 8 + 32 * mid + top * r, a % 8);
  }

  /** The first byte, the middle and the last byte. */
  lemma KeyParts(k: Key)
    ensures LeInt(k) == k[0] + 256 * LeInt(k[1..31]) + k[31] * Pow2(248)
    ensures k[0] + 256 * LeInt(k[1..31]) < Pow2(248)
  {
    hide Pow2;
    LeSplit(k, 31);
    assert k[..31][1..] == k[1..31] && k[..31][0] == k[0];
    LeOne(k[31..]);
    LeBound(k[..31]);
  }

  lemma LeOne(bytes: seq<byte>)
    requires |bytes| == 1
    ensures LeInt(bytes) == bytes[0]
  {
    assert bytes[1..] == [];
  }

  lemma LeBound(bytes: seq<byte>)
    ensures LeInt(bytes) < Pow2(8 * |bytes|)
  {
    LeIsReversedBe(bytes);
    BeBytesOf(Reverse(bytes));
  }

  // ----- codecs ----------------------------------------------------------

  /** The prime 2^255 - 19. */
  function FieldPrime(): (p: int)
    ensures 2 < p < Pow2(255)
  {
    Pow2Add(250, 5);
    Pow2Small();
    Pow2(255) - 19
  }

  /** The value of a u-coordinate: bit 255 is ignored. */
  function Decode(inp: Key): nat {
    LeInt(inp) % Pow2(255)
  }

  function Encode(a: int): (out: Key)
  {
    Reverse(BeBytes(a % FieldPrime(), 32))
  }

  lemma MaskedValue(inp: Key)
    ensures LeInt(inp[31 := And(inp[31], 127)]) == Decode(inp)
  {
    hide And, Pow2, LeInt;
    var low, q := inp[0] + 256 * LeInt(inp[1..31]), Pow2(248);
    AndClamp(inp[31]);
    KeyTop(inp, inp[31] % 128);
    KeyTop(inp, inp[31]);
    assert inp[31 := inp[31]] == inp;
    Pow2Add(248, 7);
    Pow2Small();
    MaskHigh(low, inp[31] / 128, inp[31] % 128, q, Pow2(255));
  }

  lemma KeyTop(k: Key, top: byte)
    ensures var low := k[0] + 256 * LeInt(k[1..31]);
      low < Pow2(248) && LeInt(k[31 := top]) == low + top * Pow2(248)
  {
    KeyParts(k[31 := top]);
    assert k[31 := top][1..31] == k[1..31];
  }

  lemma MaskHigh(low: nat, h: nat, l: nat, q: nat, m: nat)
    requires m == 128 * q && low < q && l < 128
    ensures (low + (128 * h + l) * q) % m == low + l * q
  {
    assert (128 * h + l) * q == h * m + l * q;
    assert l * q <= 127 * q;
    DivModUnique(low + (128 * h + l) * q, m, h, low + l * q);
  }

  method DecodeUCoordinate(inp: Key) returns (a: nat)
    ensures a == Decode(inp)
  {
    var masked := inp[31 := And(inp[31], 127)];
    var be := new byte[32];
    for i := 0 to 32
      invariant forall j :: 0 <= j < i ==> be[j] == masked[31 - j]
    {
      be[i] := masked[31 - i];
    }
    a := BeInt(be[..]);
    assert be[..] == Reverse(masked);
    LeIsReversedBe(masked);
    MaskedValue(inp);
  }

  method EncodeUCoordinate(a: int) returns (out: Key)
    ensures out == Encode(a)
  {
    var be := BeBytes(a % FieldPrime(), 32);
    var bytes := new byte[32];
    for i := 0 to 32
      invariant forall j :: 0 <= j < i ==> bytes[j] == be[31 - j]
    {
      bytes[i] := be[31 - i];
    }
    out := bytes[..];
    assert out == Reverse(be);
  }

  lemma ReverseTwice(bytes: seq<byte>)
    ensures Reverse(Reverse(bytes)) == bytes
  {
  }

  lemma EncodeValue(a: int)
    ensures LeInt(Encode(a)) == a % FieldPrime()
  {
    var n := a % FieldPrime();
    LeIsReversedBe(Encode(a));
    ReverseTwice(BeBytes(n, 32));
    BeRoundTrip(n, 32);
    assert Pow2(256) == 2 * Pow2(255);
    DivModUnique(n, Pow2(256), 0, n);
  }

  lemma LeInjective(k: Key, l: Key)
    requires LeInt(k) == LeInt(l)
    ensures k == l
  {
    LeIsReversedBe(k);
    LeIsReversedBe(l);
    BeBytesOf(Reverse(k));
    BeBytesOf(Reverse(l));
    ReverseTwice(k);
    ReverseTwice(l);
  }

  /** Decoding inverts encoding up to p; encoding inverts decoding exactly on
      the canonical coordinates, those below p. */
  lemma CodecRoundTrip(a: int, k: Key)
    ensures Decode(Encode(a)) == a % FieldPrime()
    ensures Encode(Decode(k)) == k <==> LeInt(k) < FieldPrime()
  {
    EncodeValue(a);
    EncodeValue(Decode(k));
    DivModUnique(a % FieldPrime(), Pow2(255), 0, a % FieldPrime());
    if LeInt(k) < FieldPrime() {
      DivModUnique(LeInt(k), Pow2(255), 0, LeInt(k));
      DivModUnique(LeInt(k), FieldPrime(), 0, LeInt(k));
      LeInjective(Encode(Decode(k)), k);
    }
  }

  // ----- the ladder ------------------------------------------------------

  /** The scalar the ladder multiplies by. */
  function Scalar(k: Key): nat {
    LeInt(ClampScalar(k))
  }

  lemma ScalarShape(k: Key)
    ensures Pow2(254) <= Scalar(k) < Pow2(255) && Scalar(k) % 8 == 0
  {
    hide Pow2, LeInt, ClampScalar;
    var n := LeInt(k);
    ClampValue(k);
    Pow2Add(3, 251);
    Pow2Add(1, 254);
    Pow2Small();
    EightDivides(n, Pow2(251));
  }

  lemma EightDivides(n: nat, r: nat)
    requires r > 0
    ensures n % 8 <= n % (8 * r) < 8 * r && (8 * r + n % (8 * r) - n % 8) % 8 == 0
  {
    var (k, m) := (n / (8 * r), n % (8 * r));
    assert n == k * (8 * r) + m;
    assert k * (8 * r) == 8 * (k * r);
    DivModUnique(n, 8, k * r + m / 8, m % 8);
    DivModUnique(8 * r + m - m % 8, 8, r + m / 8, 0);
  }

  /** Digits 254..t of a scalar, the last of them, and the digits before it. */
  lemma NextDigit(n: nat, t: nat)
    ensures n / Pow2(t) == 2 * (n / Pow2(t + 1)) + n / Pow2(t) % 2
  {
    DivDiv(n, Pow2(t), 2);
  }

  lemma PrefixRange(n: nat, t: nat)
    requires t <= 254 && Pow2(254) <= n < Pow2(255)
    ensures Pow2(254 - t) <= n / Pow2(t) < Pow2(255 - t)
  {
    DigitRange(n, t, 254 - t);
  }

  /** Dropping the last t digits of a number of t + j + 1 digits. */
  lemma DigitRange(n: nat, t: nat, j: nat)
    requires Pow2(t + j) <= n < Pow2(t + j + 1)
    ensures Pow2(j) <= n / Pow2(t) < Pow2(j + 1)
  {
    Pow2Add(j, t);
    Pow2Add(j + 1, t);
    QuotientRange(n, Pow2(t), Pow2(j), Pow2(j + 1));
  }

  lemma QuotientRange(n: nat, q: nat, lo: nat, hi: nat)
    requires q > 0 && lo * q <= n < hi * q
    ensures lo <= n / q < hi
  {
    var m := n / q;
    assert n == m * q + n % q;
    assert m < lo ==> (m + 1) * q <= lo * q;
    assert m >= hi ==> m * q >= hi * q;
  }

  /** The state between two rounds of the loop, t the last digit done: the two
      points, exchanged when that digit was 1. */
  ghost predicate LadderState(x1: int, n: nat, t: nat, swap: nat, r: Point, s: Point, p: int)
    requires p > 0 && t <= 255 && Pow2(254) <= n < Pow2(255)
  {
    var (r0, r1) := if swap == 1 then (s, r) else (r, s);
    if t == 255 then swap == 0 && r0 == Point(1, 0) && r1 == Point(x1, 1)
    else
      PrefixRange(n, t);
      && swap == n / Pow2(t) % 2
      && r0 == Prefix(x1, 254 - t, n / Pow2(t), p)
      && r1 == Prefix(x1, 254 - t, n / Pow2(t) + 1, p)
  }

  lemma LadderRound(x1: int, n: nat, t: nat, swap: nat, r: Point, s: Point, p: int)
    requires p > 0 && t < 255 && Pow2(254) <= n < Pow2(255)
    requires LadderState(x1, n, t + 1, swap, r, s, p)
    ensures var bit := n / Pow2(t) % 2;
      var (first, second) := if swap != bit then (s, r) else (r, s);
      LadderState(x1, n, t, bit, Double(first, p), DiffAdd(first, second, x1, p), p)
  {
    hide Double, DiffAdd, Pow2, Prefix;
    if t == 254 {
      FirstRound(x1, n, p);
    } else {
      LaterRound(x1, n, t, 253 - t, p);
    }
  }

  lemma LaterRound(x1: int, n: nat, t: nat, j: nat, p: int)
    requires p > 0 && Pow2(t + j + 1) <= n < Pow2(t + j + 2)
    ensures Pow2(j) <= n / Pow2(t + 1) < Pow2(j + 1) <= n / Pow2(t) < Pow2(j + 2)
    ensures var (m, b) := (n / Pow2(t + 1), n / Pow2(t) % 2);
      var (r, s) := (Prefix(x1, j, m, p), Prefix(x1, j, m + 1, p));
      && Prefix(x1, j + 1, n / Pow2(t), p) == (if b == 1 then DiffAdd(s, r, x1, p) else Double(r, p))
      && Prefix(x1, j + 1, n / Pow2(t) + 1, p) == (if b == 1 then Double(s, p) else DiffAdd(r, s, x1, p))
  {
    hide Double, DiffAdd, Pow2, Prefix;
    NextDigit(n, t);
    DigitRange(n, t, j + 1);
    DigitRange(n, t + 1, j);
    PrefixStep(x1, j, n / Pow2(t + 1), n / Pow2(t) % 2, p);
  }

  lemma FirstRound(x1: int, n: nat, p: int)
    requires p > 0 && Pow2(254) <= n < Pow2(255)
    ensures n / Pow2(255) == 0 && n / Pow2(254) == 1 && Pow2(0) == 1 && Pow2(1) == 2
    ensures Prefix(x1, 0, 1, p) == DiffAdd(Point(x1, 1), Point(1, 0), x1, p)
    ensures Prefix(x1, 0, 2, p) == Double(Point(x1, 1), p)
  {
    hide Double, DiffAdd;
    QuotientRange(n, Pow2(254), 1, 2);
    QuotientRange(n, Pow2(255), 0, 1);
  }

  /** The ladder's recursion on all 255 digits of the clamped scalar. */
  function LadderPoint(scalar: Key, u: Key): Point {
    ScalarShape(scalar);
    Prefix(Decode(u), 254, Scalar(scalar), FieldPrime())
  }

  /** The affine u-coordinate of the ladder's point, as bytes. */
  function Product(scalar: Key, u: Key): Key {
    Encode(Affine(LadderPoint(scalar, u), FieldPrime()))
  }

  method ScalarMult(scalar: Key, u: Key) returns (out: Key)
    ensures out == Product(scalar, u)
  {
    var k := ClampScalar(scalar);
    var x1 := DecodeUCoordinate(u);
    var p := FieldPrime();
    ghost var n := Scalar(scalar);
    ScalarShape(scalar);
    var x2, z2, x3, z3 := 1, 0, x1, 1;
    var swap := 0;
    for t := 255 downto 0
      invariant swap == 0 || swap == 1
      invariant LadderState(x1, n, t, swap, Point(x2, z2), Point(x3, z3), p)
    {
      var bit := k[t / 8] / Pow2(t % 8) % 2;
      LeBit(k, t);
      LadderRound(x1, n, t, swap, Point(x2, z2), Point(x3, z3), p);
      swap := Xor(swap, bit);
      if swap == 1 {
        x2, x3 := x3, x2;
        z2, z3 := z3, z2;
      }
      swap := bit;
      ChainDoubles(Point(x2, z2), Point(x3, z3), x1, p);
      ChainAdds(Point(x2, z2), Point(x3, z3), x1, p);
      var A := FeAdd(x2, z2, p);
      var AA := FeSquare(A, p);
      var B := FeSub(x2, z2, p);
      var BB := FeSquare(B, p);
      var E := FeSub(AA, BB, p);
      var C := FeAdd(x3, z3, p);
      var D := FeSub(x3, z3, p);
      var DA := FeMul(D, A, p);
      var CB := FeMul(C, B, p);
      x3 := FeSquare(FeAdd(DA, CB, p), p);
      z3 := FeMul(x1, FeSquare(FeSub(DA, CB, p), p), p);
      x2 := FeMul(AA, BB, p);
      z2 := FeMul(E, FeAdd(AA, FeMul(A24, E, p), p), p);
    }
    if swap == 1 {
      x2, x3 := x3, x2;
      z2, z3 := z3, z2;
    }
    assert n / Pow2(0) == n;
    var result := FeMul(x2, FeInverse(z2, p), p);
    out := EncodeUCoordinate(result);
  }

  // ----- the shared secret -----------------------------------------------

  function Zeros(n: nat): (r: seq<byte>)
    ensures |r| == n
  {
    if n == 0 then [] else [0] + Zeros(n - 1)
  }

  const ZERO: Key := Zeros(32)

  const BASE_POINT: Key := [9] + Zeros(31)

  /** The base point of section 4.1 of RFC 7748. */
  lemma BasePointIsNine()
    ensures Decode(BASE_POINT) == 9
  {
    LeZeros(31);
    assert BASE_POINT[1..] == Zeros(31);
    Pow2Add(8, 247);
    hide Zeros;
    SmallResidue(9, Pow2(247));
  }

  lemma SmallResidue(x: nat, q: nat)
    requires x < 256 && q > 0
    ensures x % (256 * q) == x
  {
    DivModUnique(x, 256 * q, 0, x);
  }

  datatype Error = ZeroSharedSecret

  function Shared(scalar: Key, peerPublic: Key): Result<Key, Error> {
    if Product(scalar, peerPublic) == ZERO then Err(ZeroSharedSecret) else Ok(Product(scalar, peerPublic))
  }

  method SharedSecret(scalar: Key, peerPublic: Key) returns (r: Result<Key, Error>)
    ensures r == Shared(scalar, peerPublic)
  {
    var out := ScalarMult(scalar, peerPublic);
    if out == ZERO {
      return Err(ZeroSharedSecret);
    }
    r := Ok(out);
  }

  /** The output is the affine coordinate of the multiple by the clamped scalar,
      by the plain recursion on that number. */
  lemma LadderMultiplies(scalar: Key, u: Key)
    requires Prime(FieldPrime())
    ensures Affine(LadderPoint(scalar, u), FieldPrime())
         == Affine(Multiple(Decode(u), Scalar(scalar), FieldPrime()), FieldPrime())
  {
    ScalarShape(scalar);
    AffineAgrees(Decode(u), 254, Scalar(scalar), FieldPrime());
  }

  lemma EncodeZero(a: int)
    ensures Encode(a) == ZERO <==> a % FieldPrime() == 0
  {
    EncodeValue(a);
    LeZeros(32);
    if a % FieldPrime() == 0 {
      LeInjective(Encode(a), ZERO);
    }
  }

  lemma {:induction false} LeZeros(n: nat)
    ensures LeInt(Zeros(n)) == 0
  {
    if n > 0 {
      LeZeros(n - 1);
    }
  }

  /** The check of section 6.1 fires for every scalar on the points of order 2, 4
      and 8 of the curve, and 2 and 4 of its twist, in every encoding of their
      coordinates: 0, 1, -1 and those that double to 1 or -1. */
  lemma LowOrderRejected(scalar: Key, u: Key)
    requires LowOrder(Decode(u), FieldPrime()) || IsOrderEight(Decode(u), FieldPrime())
    ensures Shared(scalar, u) == Err(ZeroSharedSecret)
  {
    hide LadderPoint, Encode, Affine, LowOrder, IsOrderEight, Decode, FieldPrime, Zeros;
    PrimeSize();
    LowOrderInfinity(scalar, u);
    AffineInfinity(LadderPoint(scalar, u), FieldPrime());
    DivModUnique(0, FieldPrime(), 0, 0);
    EncodeZero(0);
  }

  lemma PrimeSize()
    ensures FieldPrime() > 2
  {
    Pow2Add(8, 247);
    hide Pow2;
  }

  lemma LowOrderInfinity(scalar: Key, u: Key)
    requires LowOrder(Decode(u), FieldPrime()) || IsOrderEight(Decode(u), FieldPrime())
    ensures LadderPoint(scalar, u).z % FieldPrime() == 0
  {
    hide Prefix, Multiple, Pow2, Scalar, Decode, FieldPrime, IsOrderEight;
    ScalarShape(scalar);
    if IsOrderEight(Decode(u), FieldPrime()) {
      MultipleOfEight(Decode(u), 254, Scalar(scalar), FieldPrime());
    } else {
      var e :| -1 <= e <= 1 && Cong(Decode(u), e, FieldPrime());
      MultipleOfFour(Decode(u), 254, Scalar(scalar), e, FieldPrime());
    }
  }

  /** Where the check fires, the ladder ended at infinity or at the point (0, 0). */
  lemma RejectedIff(scalar: Key, u: Key)
    requires Prime(FieldPrime())
    ensures var (r, p) := (LadderPoint(scalar, u), FieldPrime());
      Shared(scalar, u).Err? <==> r.z % p == 0 || r.x % p == 0
  {
    var (r, p) := (LadderPoint(scalar, u), FieldPrime());
    EncodeZero(Affine(r, p));
    AffineOf(r, p);
    CongMod(r.x * Pow(r.z, p - 2), p);
    Euclid(r.x, Pow(r.z, p - 2), p);
    if r.z % p == 0 {
      AffineInfinity(r, p);
    } else {
      PowNonzero(r.z, p - 2, p);
    }
  }

  /** The loop's starting points may be written in any projective coordinates:
      the output bytes do not change. */
  lemma StartIrrelevant(scalar: Key, u: Key, f: int, g: int)
    requires Prime(FieldPrime()) && f % FieldPrime() != 0 && g % FieldPrime() != 0
    ensures var (x1, p) := (Decode(u), FieldPrime());
      Encode(Affine(Climb(Times(f, Point(1, 0)), Times(g, Point(x1, 1)), 254, Scalar(scalar), x1, p).0, p))
        == Product(scalar, u)
  {
    hide Climb, Prefix, Affine, Encode, Pow2, Scalar;
    ScalarShape(scalar);
    StartScaled(Decode(u), 254, Scalar(scalar), f, g, FieldPrime());
  }
}
