/** The x-only formulas of the Montgomery curve y^2 = x^3 + 486662 x^2 + x over
    the integers mod p, and what the ladder's chain of field operations computes. */
module Montgomery {
  import opened Modular
  import opened Bits

  // ----- field operations, on representatives ----------------------------

  function FeAdd(a: int, b: int, p: int): int
    requires p > 0
  {
    (a + b) % p
  }

  function FeSub(a: int, b: int, p: int): int
    requires p > 0
  {
    (a - b) % p
  }

  function FeMul(a: int, b: int, p: int): int
    requires p > 0
  {
    (a * b) % p
  }

  function FeSquare(a: int, p: int): int
    requires p > 0
  {
    FeMul(a, a, p)
  }

  function FeInverse(a: int, p: int): int
    requires p > 1
  {
    Pow(a, p - 2) % p
  }

  const A24: int := 121665

  // ----- projective points -----------------------------------------------

  datatype Point = Point(x: int, z: int)

  function Sq(a: int): int {
    a * a
  }

  function Reduce(r: Point, p: int): Point
    requires p > 0
  {
    Point(r.x % p, r.z % p)
  }

  function DoubleInt(r: Point): Point {
    Point(Sq(r.x * r.x - r.z * r.z), 4 * (r.x * r.z) * (r.x * r.x + 486662 * (r.x * r.z) + r.z * r.z))
  }

  function AddInt(r: Point, s: Point, x1: int): Point {
    Point(4 * Sq(r.x * s.x - r.z * s.z), 4 * x1 * Sq(s.x * r.z - r.x * s.z))
  }

  function Double(r: Point, p: int): Point
    requires p > 0
  {
    Reduce(DoubleInt(r), p)
  }

  /** The sum of two points whose difference has the affine coordinate x1. */
  function DiffAdd(r: Point, s: Point, x1: int, p: int): Point
    requires p > 0
  {
    Reduce(AddInt(r, s, x1), p)
  }

  /** One pass through the ladder's chain: doubles the first point, adds both. */
  function Chain(r: Point, s: Point, x1: int, p: int): (Point, Point)
    requires p > 0
  {
    var A := FeAdd(r.x, r.z, p);
    var AA := FeSquare(A, p);
    var B := FeSub(r.x, r.z, p);
    var BB := FeSquare(B, p);
    var E := FeSub(AA, BB, p);
    var C := FeAdd(s.x, s.z, p);
    var D := FeSub(s.x, s.z, p);
    var DA := FeMul(D, A, p);
    var CB := FeMul(C, B, p);
    (Point(FeMul(AA, BB, p), FeMul(E, FeAdd(AA, FeMul(A24, E, p), p), p)),
     Point(FeSquare(FeAdd(DA, CB, p), p), FeMul(x1, FeSquare(FeSub(DA, CB, p), p), p)))
  }

  lemma FeCong(a: int, a': int, b: int, b': int, p: int)
    requires p > 0 && Cong(a, a', p) && Cong(b, b', p)
    ensures Cong(FeAdd(a, b, p), a' + b', p) && Cong(FeSub(a, b, p), a' - b', p) && Cong(FeMul(a, b, p), a' * b', p)
  {
    CongOps(a, a', b, b', p);
    CongMod(a + b, p);
    CongMod(a - b, p);
    CongMod(a * b, p);
  }

  /** The doubling half of the chain is the doubling formula. */
  lemma ChainDoubles(r: Point, s: Point, x1: int, p: int)
    requires p > 0
    ensures Chain(r, s, x1, p).0 == Double(r, p)
  {
    var (x, z) := (r.x, r.z);
    var A, B := FeAdd(x, z, p), FeSub(x, z, p);
    var AA, BB := FeSquare(A, p), FeSquare(B, p);
    var E := FeSub(AA, BB, p);
    FeCong(x, x, z, z, p);
    FeCong(A, x + z, A, x + z, p);
    FeCong(B, x - z, B, x - z, p);
    FeCong(AA, Sq(x + z), BB, Sq(x - z), p);
    FeCong(A24, A24, E, Sq(x + z) - Sq(x - z), p);
    var M := FeMul(A24, E, p);
    var e := Sq(x + z) - Sq(x - z);
    FeCong(AA, Sq(x + z), M, A24 * e, p);
    FeCong(E, e, FeAdd(AA, M, p), Sq(x + z) + A24 * e, p);
    DoubleIdentity(x, z);
    Reduced(FeMul(AA, BB, p), Sq(x * x - z * z), p);
    Reduced(FeMul(E, FeAdd(AA, M, p), p), e * (Sq(x + z) + A24 * e), p);
  }

  lemma Reduced(a: int, b: int, p: int)
    requires p > 0 && Cong(a, b, p) && 0 <= a < p
    ensures a == b % p
  {
    DivModUnique(a, p, 0, a);
  }

  lemma DoubleIdentity(x: int, z: int)
    ensures Sq(x + z) * Sq(x - z) == Sq(x * x - z * z)
    ensures var e := Sq(x + z) - Sq(x - z);
      e * (Sq(x + z) + A24 * e) == 4 * (x * z) * (x * x + 486662 * (x * z) + z * z)
  {
    assert (x + z) * (x - z) == x * x - z * z;
    var a, b := x + z, x - z;
    assert a * a * (b * b) == a * b * (a * b);
    assert a * a == x * x + 2 * (x * z) + z * z;
    assert b * b == x * x - 2 * (x * z) + z * z;
  }

  /** The other half is differential addition. */
  lemma ChainAdds(r: Point, s: Point, x1: int, p: int)
    requires p > 0
    ensures Chain(r, s, x1, p).1 == DiffAdd(r, s, x1, p)
  {
    var A, B := FeAdd(r.x, r.z, p), FeSub(r.x, r.z, p);
    var C, D := FeAdd(s.x, s.z, p), FeSub(s.x, s.z, p);
    var DA, CB := FeMul(D, A, p), FeMul(C, B, p);
    FeCong(r.x, r.x, r.z, r.z, p);
    FeCong(s.x, s.x, s.z, s.z, p);
    FeCong(D, s.x - s.z, A, r.x + r.z, p);
    FeCong(C, s.x + s.z, B, r.x - r.z, p);
    var da, cb := (s.x - s.z) * (r.x + r.z), (s.x + s.z) * (r.x - r.z);
    FeCong(DA, da, CB, cb, p);
    var S, T := FeAdd(DA, CB, p), FeSub(DA, CB, p);
    FeCong(S, da + cb, S, da + cb, p);
    FeCong(T, da - cb, T, da - cb, p);
    FeCong(x1, x1, FeSquare(T, p), Sq(da - cb), p);
    AddIdentity(r, s, x1);
    Reduced(FeSquare(S, p), Sq(da + cb), p);
    Reduced(FeMul(x1, FeSquare(T, p), p), x1 * Sq(da - cb), p);
  }

  lemma AddIdentity(r: Point, s: Point, x1: int)
    ensures var da, cb := (s.x - s.z) * (r.x + r.z), (s.x + s.z) * (r.x - r.z);
      Sq(da + cb) == 4 * Sq(r.x * s.x - r.z * s.z) && x1 * Sq(da - cb) == 4 * x1 * Sq(s.x * r.z - r.x * s.z)
  {
    var da, cb := (s.x - s.z) * (r.x + r.z), (s.x + s.z) * (r.x - r.z);
    assert da + cb == 2 * (r.x * s.x - r.z * s.z);
    assert da - cb == 2 * (s.x * r.z - r.x * s.z);
  }

  lemma DiffAddSymmetric(r: Point, s: Point, x1: int, p: int)
    requires p > 0
    ensures DiffAdd(r, s, x1, p) == DiffAdd(s, r, x1, p)
  {
    assert r.x * s.x - r.z * s.z == s.x * r.x - s.z * r.z;
    var d := s.x * r.z - r.x * s.z;
    assert r.x * s.z - s.x * r.z == -d;
    assert Sq(-d) == Sq(d);
  }
}
