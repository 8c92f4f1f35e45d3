/** Projective points up to a nonzero factor, the projection to the affine
    coordinate, and the points of order 1, 2 and 4. */
module Projective {
  import opened Modular
  import opened Bits
  import opened Montgomery

  ghost predicate Same(r: Point, s: Point, p: int)
    requires p > 0
  {
    Cong(r.x, s.x, p) && Cong(r.z, s.z, p)
  }

  lemma CongRefl(a: int, p: int)
    requires p > 0
    ensures Cong(a, a, p)
  {
  }

  lemma DoubleSame(r: Point, s: Point, p: int)
    requires p > 0 && Same(r, s, p)
    ensures Double(r, p) == Double(s, p)
  {
    assert Same(DoubleInt(r), DoubleInt(s), p) by {
      hide Cong;
      CongOps(r.x, s.x, r.x, s.x, p);
      CongOps(r.z, s.z, r.z, s.z, p);
      CongOps(r.x, s.x, r.z, s.z, p);
      CongOps(r.x * r.x, s.x * s.x, r.z * r.z, s.z * s.z, p);
      var (d, e) := (r.x * r.x - r.z * r.z, s.x * s.x - s.z * s.z);
      CongOps(d, e, d, e, p);
      CongRefl(486662, p);
      CongRefl(4, p);
      CongOps(486662, 486662, r.x * r.z, s.x * s.z, p);
      CongOps(4, 4, r.x * r.z, s.x * s.z, p);
      CongOps(r.x * r.x, s.x * s.x, 486662 * (r.x * r.z), 486662 * (s.x * s.z), p);
      var (t, u) := (r.x * r.x + 486662 * (r.x * r.z), s.x * s.x + 486662 * (s.x * s.z));
      CongOps(t, u, r.z * r.z, s.z * s.z, p);
      CongOps(4 * (r.x * r.z), 4 * (s.x * s.z), t + r.z * r.z, u + s.z * s.z, p);
    }
  }

  lemma AddSame(r: Point, r': Point, s: Point, s': Point, x1: int, x1': int, p: int)
    requires p > 0 && Same(r, r', p) && Same(s, s', p) && Cong(x1, x1', p)
    ensures DiffAdd(r, s, x1, p) == DiffAdd(r', s', x1', p)
  {
    assert Same(AddInt(r, s, x1), AddInt(r', s', x1'), p) by {
      hide Cong;
      CongOps(r.x, r'.x, s.x, s'.x, p);
      CongOps(r.z, r'.z, s.z, s'.z, p);
      CongOps(s.x, s'.x, r.z, r'.z, p);
      CongOps(r.x, r'.x, s.z, s'.z, p);
      CongOps(r.x * s.x, r'.x * s'.x, r.z * s.z, r'.z * s'.z, p);
      CongOps(s.x * r.z, s'.x * r'.z, r.x * s.z, r'.x * s'.z, p);
      var (d, d') := (r.x * s.x - r.z * s.z, r'.x * s'.x - r'.z * s'.z);
      var (e, e') := (s.x * r.z - r.x * s.z, s'.x * r'.z - r'.x * s'.z);
      CongOps(d, d', d, d', p);
      CongOps(e, e', e, e', p);
      CongRefl(4, p);
      CongOps(4, 4, Sq(d), Sq(d'), p);
      CongOps(4, 4, x1, x1', p);
      CongOps(4 * x1, 4 * x1', Sq(e), Sq(e'), p);
    }
  }

  // ----- homogeneity -----------------------------------------------------

  function Times(f: int, r: Point): Point {
    Point(f * r.x, f * r.z)
  }

  /** r is s up to the nonzero factor f. */
  ghost predicate Scaled(r: Point, s: Point, f: int, p: int)
    requires p > 0
  {
    f % p != 0 && Same(r, Times(f, s), p)
  }

  lemma ReduceTimes(f: int, r: Point, p: int)
    requires p > 0
    ensures Same(Reduce(Times(f, r), p), Times(f, Reduce(r, p)), p)
  {
    CongMod(r.x, p);
    CongMod(r.z, p);
    CongOps(f, f, r.x, r.x % p, p);
    CongOps(f, f, r.z, r.z % p, p);
    CongMod(f * r.x, p);
    CongMod(f * r.z, p);
  }

  lemma DoubleScales(r: Point, s: Point, f: int, p: int)
    requires Prime(p) && Scaled(r, s, f, p)
    ensures Scaled(Double(r, p), Double(s, p), Sq(Sq(f)), p)
  {
    DoubleSame(r, Times(f, s), p);
    DoubleIntTimes(f, s);
    ReduceTimes(Sq(Sq(f)), DoubleInt(s), p);
    Euclid(f, f, p);
    Euclid(Sq(f), Sq(f), p);
  }

  lemma DoubleIntTimes(f: int, s: Point)
    ensures DoubleInt(Times(f, s)) == Times(Sq(Sq(f)), DoubleInt(s))
  {
    var g := Sq(f);
    MulPair(f, s.x, s.x);
    MulPair(f, s.z, s.z);
    MulPair(f, s.x, s.z);
    var (xx, zz, xz) := (s.x * s.x, s.z * s.z, s.x * s.z);
    DoubleFactors(g, xx, zz, xz);
    SqMul(g, xx - zz);
  }

  lemma MulPair(f: int, a: int, b: int)
    ensures f * a * (f * b) == Sq(f) * (a * b)
  {
  }

  lemma DoubleFactors(g: int, xx: int, zz: int, xz: int)
    ensures g * xx - g * zz == g * (xx - zz)
    ensures 4 * (g * xz) * (g * xx + 486662 * (g * xz) + g * zz) == Sq(g) * (4 * xz * (xx + 486662 * xz + zz))
  {
    var t := xx + 486662 * xz + zz;
    assert g * xx + 486662 * (g * xz) + g * zz == g * t;
    MulPair(g, xz, t);
    assert 4 * (g * xz) * (g * t) == 4 * (g * xz * (g * t));
    assert Sq(g) * (4 * xz * t) == 4 * (Sq(g) * (xz * t)) by {
      assert 4 * xz * t == 4 * (xz * t);
    }
  }

  lemma SqMul(a: int, b: int)
    ensures Sq(a * b) == Sq(a) * Sq(b)
  {
  }

  lemma DiffAddScales(r: Point, r': Point, f: int, s: Point, s': Point, g: int, x1: int, p: int)
    requires Prime(p) && Scaled(r, r', f, p) && Scaled(s, s', g, p)
    ensures Scaled(DiffAdd(r, s, x1, p), DiffAdd(r', s', x1, p), Sq(f * g), p)
  {
    AddSame(r, Times(f, r'), s, Times(g, s'), x1, x1, p);
    AddIntTimes(f, r', g, s', x1);
    ReduceTimes(Sq(f * g), AddInt(r', s', x1), p);
    Euclid(f, g, p);
    Euclid(f * g, f * g, p);
  }

  lemma AddIntTimes(f: int, r: Point, g: int, s: Point, x1: int)
    ensures AddInt(Times(f, r), Times(g, s), x1) == Times(Sq(f * g), AddInt(r, s, x1))
  {
    var (d, e) := (r.x * s.x - r.z * s.z, s.x * r.z - r.x * s.z);
    var h := f * g;
    MulCross(f, r.x, g, s.x);
    MulCross(f, r.z, g, s.z);
    MulCross(g, s.x, f, r.z);
    MulCross(f, r.x, g, s.z);
    MulMinus(h, r.x * s.x, r.z * s.z);
    MulMinus(h, s.x * r.z, r.x * s.z);
    SqMul(h, d);
    SqMul(h, e);
    var (u, w) := (f * r.x * (g * s.x) - f * r.z * (g * s.z), g * s.x * (f * r.z) - f * r.x * (g * s.z));
    assert u == h * d && w == h * e;
    assert AddInt(Times(f, r), Times(g, s), x1) == Point(4 * Sq(u), 4 * x1 * Sq(w));
    hide Sq;
    MulPast(4 * x1, Sq(h), Sq(e));
    MulPast(4, Sq(h), Sq(d));
  }

  lemma MulCross(f: int, a: int, g: int, b: int)
    ensures f * a * (g * b) == f * g * (a * b) && g * f == f * g
  {
  }

  lemma MulMinus(h: int, a: int, b: int)
    ensures h * a - h * b == h * (a - b)
  {
  }

  lemma MulPast(a: int, b: int, c: int)
    ensures a * (b * c) == b * (a * c)
  {
  }

  // ----- the affine coordinate -------------------------------------------

  function Affine(r: Point, p: int): int
    requires p > 1
  {
    FeMul(r.x, FeInverse(r.z, p), p)
  }

  /** Where z is invertible, the projection divides by it. */
  lemma AffineDivides(r: Point, p: int)
    requires Prime(p) && p > 2 && r.z % p != 0
    ensures Cong(Affine(r, p) * r.z, r.x, p)
  {
    var inv := Pow(r.z, p - 2);
    Fermat(r.z, p);
    AffineOf(r, p);
    CongMod(r.x * inv, p);
    hide Pow, Affine;
    CongOps(Affine(r, p), r.x * inv, r.z, r.z, p);
    MulSwap(r.x, inv, r.z);
    CongOps(r.x, r.x, r.z * inv, 1, p);
  }

  lemma MulSwap(a: int, b: int, c: int)
    ensures a * b * c == a * (c * b)
  {
  }

  lemma AffineOf(r: Point, p: int)
    requires p > 1
    ensures Affine(r, p) == r.x * Pow(r.z, p - 2) % p
  {
    CongMod(Pow(r.z, p - 2), p);
    CongOps(r.x, r.x, FeInverse(r.z, p), Pow(r.z, p - 2), p);
  }

  /** A nonzero factor does not change the projection, not even at infinity. */
  lemma AffineScaled(r: Point, s: Point, f: int, p: int)
    requires Prime(p) && p > 2 && Scaled(r, s, f, p)
    ensures Affine(r, p) == Affine(s, p)
  {
    var e := p - 2;
    AffineOf(r, p);
    AffineOf(s, p);
    PowCong(r.z, f * s.z, e, p);
    PowMul(f, s.z, e);
    CongOps(r.x, f * s.x, Pow(r.z, e), Pow(f, e) * Pow(s.z, e), p);
    MulPairs(f, s.x, Pow(f, e), Pow(s.z, e));
    Fermat(f, p);
    CongOps(f * Pow(f, e), 1, s.x * Pow(s.z, e), s.x * Pow(s.z, e), p);
  }

  // ----- points of small order -------------------------------------------

  /** u is 0, 1 or -1 mod p: the coordinates of the points of order 2 and 4. */
  ghost predicate LowOrder(u: int, p: int)
    requires p > 0
  {
    exists e :: -1 <= e <= 1 && Cong(u, e, p)
  }

  /** The multiples of such a point: infinity, (0, 0), and the point up to sign. */
  ghost predicate Small(r: Point, e: int, p: int)
    requires p > 0
  {
    r.z % p == 0 || r.x % p == 0 || Cong(r.x, e * r.z, p)
  }

  /** A representative on which the alternatives are plain equations. */
  lemma SmallExact(r: Point, e: int, p: int) returns (s: Point)
    requires p > 0 && Small(r, e, p)
    ensures Same(r, s, p) && (s.z == 0 || s.x == 0 || s.x == e * s.z)
    ensures r.z % p == 0 || r.x % p == 0 ==> s.z == 0 || s.x == 0
  {
    CongZero(r.x, p);
    CongZero(r.z, p);
    s := if r.z % p == 0 then Point(r.x, 0) else if r.x % p == 0 then Point(0, r.z) else Point(e * r.z, r.z);
  }

  lemma ExactSmall(s: Point, e: int, p: int)
    requires p > 0 && (s.z == 0 || s.x == 0 || s.x == e * s.z)
    ensures Small(Reduce(s, p), e, p)
  {
    DivModUnique(0, p, 0, 0);
    CongMod(s.x, p);
    CongMod(s.z, p);
    CongOps(e, e, s.z % p, s.z, p);
  }

  /** Doubling stays in the set; after x = e z comes x = 0, and after that z = 0. */
  lemma DoubleSmall(r: Point, e: int, p: int)
    requires p > 0 && -1 <= e <= 1 && Small(r, e, p)
    ensures Small(Double(r, p), e, p)
    ensures Double(r, p).x % p == 0 || Double(r, p).z % p == 0
    ensures r.x % p == 0 || r.z % p == 0 ==> Double(r, p).z % p == 0
  {
    hide Small;
    var s := SmallExact(r, e, p);
    DoubleSame(r, s, p);
    DoubleSmallInt(s, e);
    ExactSmall(DoubleInt(s), e, p);
    DivModUnique(0, p, 0, 0);
  }

  lemma DoubleSmallInt(s: Point, e: int)
    requires -1 <= e <= 1 && (s.z == 0 || s.x == 0 || s.x == e * s.z)
    ensures DoubleInt(s).x == 0 || DoubleInt(s).z == 0
    ensures s.x == 0 || s.z == 0 ==> DoubleInt(s).z == 0
  {
    if s.x != 0 && s.z != 0 {
      assert s.x * s.x == s.z * s.z;
    } else {
      assert s.x * s.z == 0;
    }
  }

  lemma AddSmall(r: Point, s: Point, x1: int, e: int, p: int)
    requires p > 0 && -1 <= e <= 1 && Cong(x1, e, p) && Small(r, e, p) && Small(s, e, p)
    ensures Small(DiffAdd(r, s, x1, p), e, p)
  {
    var r' := SmallExact(r, e, p);
    var s' := SmallExact(s, e, p);
    AddSame(r, r', s, s', x1, e, p);
    AddSmallInt(r', s', e);
    ExactSmall(AddInt(r', s', e), e, p);
  }

  lemma AddSmallInt(r: Point, s: Point, e: int)
    requires -1 <= e <= 1
    requires r.z == 0 || r.x == 0 || r.x == e * r.z
    requires s.z == 0 || s.x == 0 || s.x == e * s.z
    ensures var t := AddInt(r, s, e); t.z == 0 || t.x == 0 || t.x == e * t.z
  {
    if r.z == 0 {
      assert r.z * s.x == 0 && r.z * s.z == 0;
    } else if r.x == 0 {
      assert r.x * s.x == 0 && r.x * s.z == 0;
    } else if s.z == 0 {
      assert r.z * s.z == 0 && r.x * s.z == 0;
    } else if s.x == 0 {
      assert r.x * s.x == 0 && s.x * r.z == 0;
    } else {
      assert s.x * r.z == e * s.z * r.z == r.x * s.z;
    }
  }
}
