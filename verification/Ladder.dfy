/** What the Montgomery ladder computes: doubling and differential addition
    along the binary digits of the scalar. */
module Ladder {
  import opened Bits
  import opened Modular
  import opened Montgomery
  import opened Projective

  /** The ladder's value for the j + 1 leading digits m of a scalar, or for m + 1:
      the leading 1 gives the base, every further digit doubles or adds. */
  function Prefix(x1: int, j: nat, m: nat, p: int): Point
    requires p > 0 && Pow2(j) <= m <= Pow2(j + 1)
    decreases j
  {
    if j == 0 then
      if m == 1 then DiffAdd(Point(x1, 1), Point(1, 0), x1, p) else Double(Point(x1, 1), p)
    else if m % 2 == 0 then Double(Prefix(x1, j - 1, m / 2, p), p)
    else DiffAdd(Prefix(x1, j - 1, m / 2, p), Prefix(x1, j - 1, m / 2 + 1, p), x1, p)
  }

  /** One more digit b takes the values for m and m + 1 to those for 2m + b and 2m + b + 1. */
  lemma PrefixStep(x1: int, j: nat, m: nat, b: nat, p: int)
    requires p > 0 && Pow2(j) <= m < Pow2(j + 1) && b < 2
    ensures var (r, s) := (Prefix(x1, j, m, p), Prefix(x1, j, m + 1, p));
      && Prefix(x1, j + 1, 2 * m + b, p) == (if b == 1 then DiffAdd(s, r, x1, p) else Double(r, p))
      && Prefix(x1, j + 1, 2 * m + b + 1, p) == (if b == 1 then Double(s, p) else DiffAdd(r, s, x1, p))
  {
    DiffAddSymmetric(Prefix(x1, j, m, p), Prefix(x1, j, m + 1, p), x1, p);
    hide Double, DiffAdd;
    Halves(m, b);
  }

  lemma Halves(m: nat, b: nat)
    requires b < 2
    ensures (2 * m + b) / 2 == m && (2 * m + b) % 2 == b
    ensures b == 1 ==> (2 * m + b + 1) / 2 == m + 1 && (2 * m + b + 1) % 2 == 0
    ensures b == 0 ==> (2 * m + b + 1) / 2 == m && (2 * m + b + 1) % 2 == 1
  {
  }

  /** The multiple m of the point with coordinate x1, by recursion on m alone. */
  function Multiple(x1: int, m: nat, p: int): Point
    requires p > 0
    decreases m
  {
    if m == 0 then Point(1, 0)
    else if m == 1 then Point(x1, 1)
    else if m % 2 == 0 then Double(Multiple(x1, m / 2, p), p)
    else DiffAdd(Multiple(x1, m / 2, p), Multiple(x1, m / 2 + 1, p), x1, p)
  }

  /** The first step yields (4 x1^2, 4 x1), which is (x1, 1) up to the factor 4 x1. */
  lemma BaseScaled(x1: int, p: int)
    requires Prime(p) && p > 2 && x1 % p != 0
    ensures Scaled(Prefix(x1, 0, 1, p), Point(x1, 1), 4 * x1, p)
    ensures Prefix(x1, 0, 1, p) == Reduce(Point(4 * (x1 * x1), 4 * x1), p)
  {
    assert 4 * x1 * Sq(-1) == 4 * x1;
    assert Prefix(x1, 0, 1, p) == Reduce(Point(4 * (x1 * x1), 4 * x1), p) by {
      assert x1 * 1 - 1 * 0 == x1 && 1 * 1 - x1 * 0 == 1;
      assert 4 * x1 * 1 == 4 * x1;
    }
    assert Point(4 * (x1 * x1), 4 * x1) == Times(4 * x1, Point(x1, 1));
    CongMod(4 * (x1 * x1), p);
    CongMod(4 * x1, p);
    FourInvertible(p);
    Euclid(4, x1, p);
  }

  lemma FourInvertible(p: int)
    requires Prime(p) && p > 2
    ensures 4 % p != 0
  {
    DivModUnique(2, p, 0, 2);
    Euclid(2, 2, p);
  }

  /** The digit-by-digit values are the multiples, up to a nonzero factor. */
  lemma {:induction false} PrefixIsMultiple(x1: int, j: nat, m: nat, p: int) returns (f: int)
    requires Prime(p) && p > 2 && x1 % p != 0 && Pow2(j) <= m <= Pow2(j + 1)
    ensures Scaled(Prefix(x1, j, m, p), Multiple(x1, m, p), f, p)
    decreases j
  {
    if j == 0 {
      if m == 1 {
        BaseScaled(x1, p);
        f := 4 * x1;
      } else {
        DivModUnique(1, p, 0, 1);
        f := 1;
      }
    } else {
      var g := PrefixIsMultiple(x1, j - 1, m / 2, p);
      if m % 2 == 0 {
        DoubleScales(Prefix(x1, j - 1, m / 2, p), Multiple(x1, m / 2, p), g, p);
        f := Sq(Sq(g));
      } else {
        var h := PrefixIsMultiple(x1, j - 1, m / 2 + 1, p);
        DiffAddScales(Prefix(x1, j - 1, m / 2, p), Multiple(x1, m / 2, p), g,
                      Prefix(x1, j - 1, m / 2 + 1, p), Multiple(x1, m / 2 + 1, p), h, x1, p);
        f := Sq(g * h);
      }
    }
  }

  // ----- points of small order -------------------------------------------

  lemma {:induction false} PrefixSmall(x1: int, j: nat, m: nat, e: int, p: int)
    requires p > 0 && Pow2(j) <= m <= Pow2(j + 1) && -1 <= e <= 1 && Cong(x1, e, p)
    ensures Small(Prefix(x1, j, m, p), e, p)
    decreases j
  {
    if j == 0 {
      assert Small(Point(x1, 1), e, p) && Small(Point(1, 0), e, p) by {
        DivModUnique(0, p, 0, 0);
        assert e * 1 == e;
      }
      AddSmall(Point(x1, 1), Point(1, 0), x1, e, p);
      DoubleSmall(Point(x1, 1), e, p);
    } else {
      PrefixSmall(x1, j - 1, m / 2, e, p);
      if m % 2 == 0 {
        DoubleSmall(Prefix(x1, j - 1, m / 2, p), e, p);
      } else {
        PrefixSmall(x1, j - 1, m / 2 + 1, e, p);
        AddSmall(Prefix(x1, j - 1, m / 2, p), Prefix(x1, j - 1, m / 2 + 1, p), x1, e, p);
      }
    }
  }

  lemma {:induction false} MultipleSmall(x1: int, m: nat, e: int, p: int)
    requires p > 0 && -1 <= e <= 1 && Cong(x1, e, p)
    ensures Small(Multiple(x1, m, p), e, p)
    decreases m
  {
    DivModUnique(0, p, 0, 0);
    if m == 1 {
      assert e * 1 == e;
    } else if m > 1 {
      MultipleSmall(x1, m / 2, e, p);
      if m % 2 == 0 {
        DoubleSmall(Multiple(x1, m / 2, p), e, p);
      } else {
        MultipleSmall(x1, m / 2 + 1, e, p);
        AddSmall(Multiple(x1, m / 2, p), Multiple(x1, m / 2 + 1, p), x1, e, p);
      }
    }
  }

  /** Two doublings of a small point give infinity. */
  lemma DoubleTwice(r: Point, e: int, p: int)
    requires p > 0 && -1 <= e <= 1 && Small(r, e, p)
    ensures Double(Double(r, p), p).z % p == 0
  {
    DoubleSmall(r, e, p);
    DoubleSmall(Double(r, p), e, p);
  }

  /** Every multiple of 4 of a small point, on either recursion, is infinity. */
  lemma MultipleOfFour(x1: int, j: nat, m: nat, e: int, p: int)
    requires p > 0 && -1 <= e <= 1 && Cong(x1, e, p)
    requires j >= 2 && Pow2(j) <= m <= Pow2(j + 1) && m % 4 == 0
    ensures Prefix(x1, j, m, p).z % p == 0 && Multiple(x1, m, p).z % p == 0
  {
    PrefixSmall(x1, j - 2, m / 4, e, p);
    MultipleSmall(x1, m / 4, e, p);
    assert m / 2 / 2 == m / 4 && m / 2 % 2 == 0;
    DoubleTwice(Prefix(x1, j - 2, m / 4, p), e, p);
    DoubleTwice(Multiple(x1, m / 4, p), e, p);
  }

  lemma AffineInfinity(r: Point, p: int)
    requires p > 2 && r.z % p == 0
    ensures Affine(r, p) == 0
  {
    AffineOf(r, p);
    CongZero(r.z, p);
    PowCong(r.z, 0, p - 2, p);
    CongOps(r.x, r.x, Pow(r.z, p - 2), 0, p);
    DivModUnique(0, p, 0, 0);
  }

  /** For scalars that are multiples of 8, both recursions have the same affine
      coordinate, whatever the point. */
  lemma AffineAgrees(x1: int, j: nat, m: nat, p: int)
    requires Prime(p) && p > 2 && j >= 2 && Pow2(j) <= m <= Pow2(j + 1) && m % 8 == 0
    ensures Affine(Prefix(x1, j, m, p), p) == Affine(Multiple(x1, m, p), p)
  {
    if x1 % p == 0 {
      CongZero(x1, p);
      MultipleOfFour(x1, j, m, 0, p);
      AffineInfinity(Prefix(x1, j, m, p), p);
      AffineInfinity(Multiple(x1, m, p), p);
    } else {
      var f := PrefixIsMultiple(x1, j, m, p);
      AffineScaled(Prefix(x1, j, m, p), Multiple(x1, m, p), f, p);
    }
  }

  // ----- other starting points -------------------------------------------

  /** One round of the ladder on digit b. */
  function Rung(r: Point, s: Point, b: nat, x1: int, p: int): (Point, Point)
    requires p > 0
  {
    if b == 1 then (DiffAdd(s, r, x1, p), Double(s, p)) else (Double(r, p), DiffAdd(r, s, x1, p))
  }

  /** The ladder on the j + 1 low digits of m, highest first, from any two points. */
  function Climb(r: Point, s: Point, j: nat, m: nat, x1: int, p: int): (Point, Point)
    requires p > 0
  {
    if j == 0 then Rung(r, s, m % 2, x1, p)
    else var (a, b) := Climb(r, s, j - 1, m / 2, x1, p); Rung(a, b, m % 2, x1, p)
  }

  lemma {:induction false} ClimbIsPrefix(x1: int, j: nat, m: nat, p: int)
    requires p > 0 && Pow2(j) <= m < Pow2(j + 1)
    ensures Climb(Point(1, 0), Point(x1, 1), j, m, x1, p) == (Prefix(x1, j, m, p), Prefix(x1, j, m + 1, p))
  {
    hide Double, DiffAdd, Prefix, Pow2;
    Pow2Next(j);
    if j == 0 {
      FirstRung(x1, p);
    } else {
      Pow2Next(j - 1);
      ClimbIsPrefix(x1, j - 1, m / 2, p);
      PrefixStep(x1, j - 1, m / 2, m % 2, p);
    }
  }

  lemma FirstRung(x1: int, p: int)
    requires p > 0
    ensures Pow2(0) == 1 && Pow2(1) == 2
    ensures Rung(Point(1, 0), Point(x1, 1), 1, x1, p) == (Prefix(x1, 0, 1, p), Prefix(x1, 0, 2, p))
  {
    hide Double, DiffAdd;
  }

  lemma RungScales(r: Point, r': Point, f: int, s: Point, s': Point, g: int, b: nat, x1: int, p: int)
    requires Prime(p) && Scaled(r, r', f, p) && Scaled(s, s', g, p)
    ensures var (t, t') := (Rung(r, s, b, x1, p), Rung(r', s', b, x1, p));
      if b == 1 then Scaled(t.0, t'.0, Sq(g * f), p) && Scaled(t.1, t'.1, Sq(Sq(g)), p)
      else Scaled(t.0, t'.0, Sq(Sq(f)), p) && Scaled(t.1, t'.1, Sq(f * g), p)
  {
    hide Double, DiffAdd, Scaled;
    if b == 1 {
      DiffAddScales(s, s', g, r, r', f, x1, p);
      DoubleScales(s, s', g, p);
    } else {
      DoubleScales(r, r', f, p);
      DiffAddScales(r, r', f, s, s', g, x1, p);
    }
  }

  lemma {:induction false} ClimbScales(r: Point, r': Point, f: int, s: Point, s': Point, g: int, j: nat, m: nat,
                                       x1: int, p: int)
    returns (f': int, g': int)
    requires Prime(p) && Scaled(r, r', f, p) && Scaled(s, s', g, p)
    ensures var (t, t') := (Climb(r, s, j, m, x1, p), Climb(r', s', j, m, x1, p));
      Scaled(t.0, t'.0, f', p) && Scaled(t.1, t'.1, g', p)
    decreases j
  {
    hide Scaled, Rung;
    var (a, a', b, b') := (r, r', s, s');
    f', g' := f, g;
    if j > 0 {
      f', g' := ClimbScales(r, r', f, s, s', g, j - 1, m / 2, x1, p);
      a, b := Climb(r, s, j - 1, m / 2, x1, p).0, Climb(r, s, j - 1, m / 2, x1, p).1;
      a', b' := Climb(r', s', j - 1, m / 2, x1, p).0, Climb(r', s', j - 1, m / 2, x1, p).1;
    }
    RungScales(a, a', f', b, b', g', m % 2, x1, p);
    if m % 2 == 1 {
      f', g' := Sq(g' * f'), Sq(Sq(g'));
    } else {
      f', g' := Sq(Sq(f')), Sq(f' * g');
    }
  }

  /** Starting from either point in other projective coordinates, scaled by any
      nonzero factors, gives the same affine coordinate. */
  lemma StartScaled(x1: int, j: nat, m: nat, f: int, g: int, p: int)
    requires Prime(p) && p > 2 && Pow2(j) <= m < Pow2(j + 1) && f % p != 0 && g % p != 0
    ensures Affine(Climb(Times(f, Point(1, 0)), Times(g, Point(x1, 1)), j, m, x1, p).0, p)
      == Affine(Prefix(x1, j, m, p), p)
  {
    hide Climb, Prefix, Affine;
    var (r, s) := (Point(1, 0), Point(x1, 1));
    SelfScaled(r, f, p);
    SelfScaled(s, g, p);
    var f', g' := ClimbScales(Times(f, r), r, f, Times(g, s), s, g, j, m, x1, p);
    ClimbIsPrefix(x1, j, m, p);
    AffineScaled(Climb(Times(f, r), Times(g, s), j, m, x1, p).0, Prefix(x1, j, m, p), f', p);
  }

  lemma SelfScaled(r: Point, f: int, p: int)
    requires p > 0 && f % p != 0
    ensures Scaled(Times(f, r), r, f, p)
  {
    CongRefl(f * r.x, p);
    CongRefl(f * r.z, p);
  }
}
