/** Points of order 8: their multiples repeat after eight steps, so a scalar
    that 8 divides takes them to infinity. */
module OrderEight {
  import opened Bits
  import opened Modular
  import opened Montgomery
  import opened Projective
  import opened Ladder

  /** The double of u is 1 or -1, the coordinates of the points of order 4. */
  ghost predicate DoublesTo(u: int, e: int, p: int)
    requires p > 0
  {
    (e == 1 || e == -1) && Cong(Sq(u * u - 1), e * (4 * u * (u * u + 486662 * u + 1)), p)
  }

  ghost predicate IsOrderEight(u: int, p: int)
    requires p > 0
  {
    DoublesTo(u, 1, p) || DoublesTo(u, -1, p)
  }

  /** The multiples of such a point by their class mod 8: infinity, u, e, 1/u,
      zero, 1/u, e, u. */
  function Base(c: nat, u: int, e: int): Point {
    match c
    case 0 => Point(1, 0)
    case 2 => Point(e, 1) case 6 => Point(e, 1)
    case 4 => Point(0, 1)
    case 1 => Point(u, 1) case 7 => Point(u, 1)
    case _ => Point(1, u)
  }

  /** r is the multiple of class c, up to the factor f. */
  ghost predicate InClass(r: Point, c: nat, f: int, u: int, e: int, p: int)
    requires p > 0
  {
    Same(r, Times(f, Base(c, u, e)), p)
  }

  /** Doubling a class. */
  lemma BaseDoubles(c: nat, u: int, e: int, p: int) returns (g: int)
    requires p > 0 && c < 8 && DoublesTo(u, e, p)
    ensures Same(DoubleInt(Base(c, u, e)), Times(g, Base(2 * c % 8, u, e)), p)
  {
    assert 2 * c % 8 == if c < 4 then 2 * c else 2 * c - 8;
    if c == 0 || c == 4 {
      g := 1;
      EndsDouble();
    } else if c == 2 || c == 6 {
      g := 8 * e + 4 * 486662;
      UnitsDouble(e);
    } else {
      g := 4 * u * (u * u + 486662 * u + 1);
      OddDoubles(u);
      CongRefl(g, p);
      OddTimes(u, e, g);
    }
    hide DoubleInt, Times, Sq;
    if c % 2 == 0 {
      SameRefl(DoubleInt(Base(c, u, e)), p);
    }
  }

  lemma EndsDouble()
    ensures DoubleInt(Point(1, 0)) == Times(1, Point(1, 0)) && DoubleInt(Point(0, 1)) == Times(1, Point(1, 0))
  {
  }

  lemma UnitsDouble(e: int)
    requires e == 1 || e == -1
    ensures DoubleInt(Point(e, 1)) == Times(8 * e + 4 * 486662, Point(0, 1))
  {
  }

  lemma OddTimes(u: int, e: int, g: int)
    ensures Times(g, Point(e, 1)) == Point(e * g, g)
  {
  }

  lemma OddDoubles(u: int)
    ensures var d := 4 * u * (u * u + 486662 * u + 1);
      DoubleInt(Point(u, 1)) == Point(Sq(u * u - 1), d) && DoubleInt(Point(1, u)) == Point(Sq(u * u - 1), d)
  {
    assert Sq(1 - u * u) == Sq(u * u - 1);
  }

  /** Adding neighbouring classes. */
  lemma BaseAdds(c: nat, u: int, e: int) returns (g: int)
    requires c < 8 && (e == 1 || e == -1)
    ensures AddInt(Base(c, u, e), Base((c + 1) % 8, u, e), u) == Times(g, Base((2 * c + 1) % 8, u, e))
  {
    assert (c + 1) % 8 == (if c == 7 then 0 else c + 1) && (2 * c + 1) % 8 == if c < 4 then 2 * c + 1 else 2 * c - 7;
    if c == 0 || c == 3 || c == 4 || c == 7 {
      g := 4 * u;
      EndsAdd(u);
      hide AddInt, Times, Sq;
    } else {
      g := 4 * Sq(e * u - 1);
      MiddlesAdd(u, e);
      hide AddInt, Times, Sq;
    }
  }

  lemma EndsAdd(u: int)
    ensures AddInt(Point(1, 0), Point(u, 1), u) == Times(4 * u, Point(u, 1))
    ensures AddInt(Point(u, 1), Point(1, 0), u) == Times(4 * u, Point(u, 1))
    ensures AddInt(Point(1, u), Point(0, 1), u) == Times(4 * u, Point(u, 1))
    ensures AddInt(Point(0, 1), Point(1, u), u) == Times(4 * u, Point(u, 1))
  {
    assert 4 * Sq(u) == 4 * u * u && 4 * u * Sq(1) == 4 * u && 4 * u * Sq(-1) == 4 * u && Sq(-u) == Sq(u);
  }

  lemma MiddlesAdd(u: int, e: int)
    requires e == 1 || e == -1
    ensures AddInt(Point(u, 1), Point(e, 1), u) == Times(4 * Sq(e * u - 1), Point(1, u))
    ensures AddInt(Point(e, 1), Point(u, 1), u) == Times(4 * Sq(e * u - 1), Point(1, u))
    ensures AddInt(Point(e, 1), Point(1, u), u) == Times(4 * Sq(e * u - 1), Point(1, u))
    ensures AddInt(Point(1, u), Point(e, 1), u) == Times(4 * Sq(e * u - 1), Point(1, u))
  {
    SquaresAgree(u, e);
    var t := Sq(e * u - 1);
    assert 4 * u * t == 4 * t * u;
    hide Sq;
    assert u * e == e * u;
  }

  lemma SquaresAgree(u: int, e: int)
    requires e == 1 || e == -1
    ensures Sq(e - u) == Sq(e * u - 1) && Sq(u - e) == Sq(e * u - 1) && Sq(1 - e * u) == Sq(e * u - 1)
  {
    if e == 1 {
      assert Sq(1 - u) == Sq(u - 1);
    } else {
      assert Sq(-u - 1) == Sq(u + 1);
    }
  }

  lemma ScaleSame(f: int, r: Point, g: int, s: Point, p: int)
    requires p > 0 && Same(r, Times(g, s), p)
    ensures Same(Reduce(Times(f, r), p), Times(f * g, s), p)
  {
    CongRefl(f, p);
    CongOps(f, f, r.x, g * s.x, p);
    CongOps(f, f, r.z, g * s.z, p);
    CongMod(f * r.x, p);
    CongMod(f * r.z, p);
    TimesTimes(f, g, s);
  }

  lemma TimesTimes(f: int, g: int, s: Point)
    ensures Times(f, Times(g, s)) == Times(f * g, s)
  {
  }

  lemma DoubleClass(r: Point, c: nat, f: int, u: int, e: int, p: int) returns (f': int)
    requires p > 0 && c < 8 && DoublesTo(u, e, p) && InClass(r, c, f, u, e, p)
    ensures InClass(Double(r, p), 2 * c % 8, f', u, e, p)
  {
    var b := Base(c, u, e);
    var g := BaseDoubles(c, u, e, p);
    hide Base, DoubleInt, Sq;
    DoubleSame(r, Times(f, b), p);
    DoubleIntTimes(f, b);
    ScaleSame(Sq(Sq(f)), DoubleInt(b), g, Base(2 * c % 8, u, e), p);
    f' := Sq(Sq(f)) * g;
  }

  lemma AddClass(r: Point, s: Point, c: nat, f: int, h: int, u: int, e: int, p: int) returns (f': int)
    requires p > 0 && c < 8 && DoublesTo(u, e, p)
    requires InClass(r, c, f, u, e, p) && InClass(s, (c + 1) % 8, h, u, e, p)
    ensures InClass(DiffAdd(r, s, u, p), (2 * c + 1) % 8, f', u, e, p)
  {
    var (a, b) := (Base(c, u, e), Base((c + 1) % 8, u, e));
    var g := BaseAdds(c, u, e);
    hide Base, AddInt, Sq;
    CongRefl(u, p);
    AddSame(r, Times(f, a), s, Times(h, b), u, u, p);
    AddIntTimes(f, a, h, b, u);
    SameRefl(AddInt(a, b, u), p);
    ScaleSame(Sq(f * h), AddInt(a, b, u), g, Base((2 * c + 1) % 8, u, e), p);
    f' := Sq(f * h) * g;
  }

  lemma SameRefl(r: Point, p: int)
    requires p > 0
    ensures Same(r, r, p)
  {
  }

  /** The ladder's value for m is in the class of m. */
  lemma {:induction false} PrefixClass(u: int, j: nat, m: nat, e: int, p: int) returns (f: int)
    requires p > 0 && Pow2(j) <= m <= Pow2(j + 1) && DoublesTo(u, e, p)
    ensures InClass(Prefix(u, j, m, p), m % 8, f, u, e, p)
    decreases j
  {
    hide InClass, DoublesTo, Double, DiffAdd;
    if j == 0 {
      StartClass(u, e, p);
      if m == 1 {
        f := AddClass(Point(1, 0), Point(u, 1), 0, 1, 1, u, e, p);
        DiffAddSymmetric(Point(1, 0), Point(u, 1), u, p);
      } else {
        f := DoubleClass(Point(u, 1), 1, 1, u, e, p);
      }
    } else {
      var g := PrefixClass(u, j - 1, m / 2, e, p);
      ClassOfHalf(m);
      if m % 2 == 0 {
        f := DoubleClass(Prefix(u, j - 1, m / 2, p), m / 2 % 8, g, u, e, p);
      } else {
        var h := PrefixClass(u, j - 1, m / 2 + 1, e, p);
        f := AddClass(Prefix(u, j - 1, m / 2, p), Prefix(u, j - 1, m / 2 + 1, p), m / 2 % 8, g, h, u, e, p);
      }
    }
  }

  lemma StartClass(u: int, e: int, p: int)
    requires p > 0
    ensures InClass(Point(1, 0), 0, 1, u, e, p) && InClass(Point(u, 1), 1, 1, u, e, p)
  {
    assert 1 * u == u;
  }

  lemma ClassOfHalf(m: nat)
    ensures if m % 2 == 0 then 2 * (m / 2 % 8) % 8 == m % 8
      else (2 * (m / 2 % 8) + 1) % 8 == m % 8 && (m / 2 % 8 + 1) % 8 == (m / 2 + 1) % 8
  {
    var h := m / 2;
    EightRest(m, 2 * (h % 8) + m % 2, 2 * (h / 8));
    EightRest(h + 1, h % 8 + 1, h / 8);
  }

  lemma EightRest(m: nat, r: nat, q: nat)
    requires m == r + 8 * q
    ensures r % 8 == m % 8
  {
    DivModUnique(m, 8, q + r / 8, r % 8);
  }

  /** Every multiple of 8 is infinity. */
  lemma MultipleOfEight(u: int, j: nat, m: nat, p: int)
    requires p > 0 && Pow2(j) <= m <= Pow2(j + 1) && m % 8 == 0 && IsOrderEight(u, p)
    ensures Prefix(u, j, m, p).z % p == 0
  {
    hide Prefix, Pow2;
    var e := if DoublesTo(u, 1, p) then 1 else -1;
    var f := PrefixClass(u, j, m, e, p);
    DivModUnique(0, p, 0, 0);
    assert f * 0 == 0;
  }
}
