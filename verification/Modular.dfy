/** Arithmetic modulo p, primes, and Fermat's little theorem. */
module Modular {
  import opened Bits

  ghost predicate Cong(a: int, b: int, p: int)
    requires p > 0
  {
    a % p == b % p
  }

  lemma CongBy(a: int, b: int, k: int, p: int)
    requires p > 0 && a == b + k * p
    ensures Cong(a, b, p)
  {
    assert b == (b / p) * p + b % p;
    assert a == (b / p + k) * p + b % p;
    DivModUnique(a, p, b / p + k, b % p);
  }

  lemma CongGap(a: int, b: int, p: int) returns (k: int)
    requires p > 0 && Cong(a, b, p)
    ensures a == b + k * p
  {
    k := a / p - b / p;
    assert a == (a / p) * p + a % p && b == (b / p) * p + b % p;
  }

  lemma CongMod(a: int, p: int)
    requires p > 0
    ensures Cong(a % p, a, p)
  {
    CongBy(a % p, a, -(a / p), p);
  }

  lemma CongOps(a: int, b: int, c: int, d: int, p: int)
    requires p > 0 && Cong(a, b, p) && Cong(c, d, p)
    ensures Cong(a + c, b + d, p) && Cong(a - c, b - d, p) && Cong(a * c, b * d, p)
  {
    var k := CongGap(a, b, p);
    var l := CongGap(c, d, p);
    CongBy(a + c, b + d, k + l, p) by { assert (k + l) * p == k * p + l * p; }
    CongBy(a - c, b - d, k - l, p) by { assert (k - l) * p == k * p - l * p; }
    ProductGap(b, k, d, l, p);
    CongBy(a * c, b * d, k * d + l * b + k * l * p, p);
  }

  lemma ProductGap(b: int, k: int, d: int, l: int, p: int)
    ensures (b + k * p) * (d + l * p) == b * d + (k * d + l * b + k * l * p) * p
  {
    assert (b + k * p) * (d + l * p) == b * d + k * p * d + b * (l * p) + k * p * (l * p);
  }

  lemma CongZero(a: int, p: int)
    requires p > 0
    ensures Cong(a, 0, p) <==> a % p == 0
  {
    DivModUnique(0, p, 0, 0);
  }

  // ----- powers ----------------------------------------------------------

  function Pow(a: int, e: nat): int {
    if e == 0 then 1 else a * Pow(a, e - 1)
  }

  lemma {:induction false} PowCong(a: int, b: int, e: nat, p: int)
    requires p > 0 && Cong(a, b, p)
    ensures Cong(Pow(a, e), Pow(b, e), p)
  {
    if e > 0 {
      PowCong(a, b, e - 1, p);
      CongOps(a, b, Pow(a, e - 1), Pow(b, e - 1), p);
    }
  }

  lemma {:induction false} PowMul(a: int, b: int, e: nat)
    ensures Pow(a * b, e) == Pow(a, e) * Pow(b, e)
  {
    if e > 0 {
      PowMul(a, b, e - 1);
      MulPairs(a, b, Pow(a, e - 1), Pow(b, e - 1));
    }
  }

  lemma MulPairs(a: int, b: int, x: int, y: int)
    ensures a * b * (x * y) == a * x * (b * y)
  {
    assert a * b * (x * y) == a * (b * x) * y;
  }

  // ----- primes ----------------------------------------------------------

  ghost predicate Prime(p: int) {
    p > 1 && forall d :: 1 < d < p ==> p % d != 0
  }

  /** A prime that divides a product a * b with 0 < a < p divides b. */
  lemma {:induction false} EuclidSmall(a: int, b: int, p: int)
    requires Prime(p) && 0 < a < p && a * b % p == 0
    ensures b % p == 0
    decreases a
  {
    if a > 1 {
      var q, r := p / a, p % a;
      assert p == q * a + r;
      var k := a * b / p;
      assert a * b == k * p;
      assert r * b == (b - q * k) * p by {
        assert r * b == (p - q * a) * b == p * b - q * (a * b);
        assert q * (k * p) == q * k * p;
      }
      DivModUnique(r * b, p, b - q * k, 0);
      EuclidSmall(r, b, p);
    }
  }

  lemma Euclid(a: int, b: int, p: int)
    requires Prime(p)
    ensures a * b % p == 0 <==> a % p == 0 || b % p == 0
  {
    CongMod(a, p);
    CongMod(b, p);
    CongOps(a % p, a, b, b, p);
    CongOps(a, a, b % p, b, p);
    if a % p != 0 && a * b % p == 0 {
      EuclidSmall(a % p, b, p);
    }
    DivModUnique(0, p, 0, 0);
  }

  lemma {:induction false} PowNonzero(a: int, e: nat, p: int)
    requires Prime(p) && a % p != 0
    ensures Pow(a, e) % p != 0
  {
    if e == 0 {
      DivModUnique(1, p, 0, 1);
    } else {
      PowNonzero(a, e - 1, p);
      Euclid(a, Pow(a, e - 1), p);
    }
  }

  // ----- Fermat ----------------------------------------------------------

  function Binomial(n: nat, k: nat): nat {
    if k == 0 then 1 else if n == 0 then 0 else Binomial(n - 1, k) + Binomial(n - 1, k - 1)
  }

  lemma {:induction false} Absorption(n: nat, k: nat)
    requires n > 0 && k > 0
    ensures k * Binomial(n, k) == n * Binomial(n - 1, k - 1)
  {
    if n > 1 {
      Absorption(n - 1, k);
      var (x, y, u) := (Binomial(n - 1, k), Binomial(n - 1, k - 1), Binomial(n - 2, k - 1));
      if k > 1 {
        Absorption(n - 1, k - 1);
        var v := Binomial(n - 2, k - 2);
        assert Binomial(n, k) == x + y && y == u + v;
        hide Binomial;
        AbsorbStep(n, k, x, y, u, v);
      }
    }
  }

  lemma AbsorbStep(n: int, k: int, x: int, y: int, u: int, v: int)
    requires k * x == (n - 1) * u && (k - 1) * y == (n - 1) * v && y == u + v
    ensures k * (x + y) == n * y
  {
    assert k * (x + y) == k * x + (k - 1) * y + y;
    assert (n - 1) * u + (n - 1) * v == (n - 1) * y;
  }

  lemma {:induction false} BinomialAbove(n: nat, k: nat)
    requires k > n
    ensures Binomial(n, k) == 0
  {
    if n > 0 {
      BinomialAbove(n - 1, k);
      BinomialAbove(n - 1, k - 1);
    }
  }

  lemma BinomialPrime(p: int, k: nat)
    requires Prime(p) && 0 < k < p
    ensures Binomial(p, k) % p == 0
  {
    Absorption(p, k);
    DivModUnique(k * Binomial(p, k), p, Binomial(p - 1, k - 1), 0);
    EuclidSmall(k, Binomial(p, k), p);
  }

  /** The first k terms of (1 + a)^n. */
  function Terms(n: nat, a: int, k: nat): int {
    if k == 0 then 0 else Terms(n, a, k - 1) + Binomial(n, k - 1) * Pow(a, k - 1)
  }

  lemma {:induction false} TermsPascal(n: nat, a: int, k: nat)
    requires n > 0 && k > 0
    ensures Terms(n, a, k) == Terms(n - 1, a, k) + a * Terms(n - 1, a, k - 1)
  {
    if k > 1 {
      TermsPascal(n, a, k - 1);
      var x, y, t := Binomial(n - 1, k - 1), Binomial(n - 1, k - 2), Pow(a, k - 2);
      assert Binomial(n, k - 1) == x + y && Pow(a, k - 1) == a * t;
      hide Binomial, Pow;
      var (r, s) := (Terms(n - 1, a, k - 1), Terms(n - 1, a, k - 2));
      assert Terms(n, a, k) == Terms(n, a, k - 1) + (x + y) * (a * t);
      assert Terms(n - 1, a, k) == r + x * (a * t) && r == s + y * t;
      hide Terms;
      PascalSum(s, x, y, a, t);
    }
  }

  lemma PascalSum(s: int, x: int, y: int, a: int, t: int)
    ensures a * s + (x + y) * (a * t) == x * (a * t) + a * (s + y * t)
  {
    assert y * (a * t) == a * (y * t);
    assert a * (s + y * t) == a * s + a * (y * t);
  }

  lemma {:induction false} BinomialTheorem(n: nat, a: int)
    ensures Terms(n, a, n + 1) == Pow(a + 1, n)
  {
    if n > 0 {
      TermsPascal(n, a, n + 1);
      BinomialTheorem(n - 1, a);
      BinomialAbove(n - 1, n);
    }
  }

  lemma {:induction false} TermsPrime(p: int, a: int, k: nat)
    requires Prime(p) && 1 <= k <= p
    ensures Cong(Terms(p, a, k), 1, p)
  {
    if k > 1 {
      TermsPrime(p, a, k - 1);
      BinomialPrime(p, k - 1);
      CongZero(Binomial(p, k - 1), p);
      CongOps(Binomial(p, k - 1), 0, Pow(a, k - 1), Pow(a, k - 1), p);
      CongOps(Terms(p, a, k - 1), 1, Binomial(p, k - 1) * Pow(a, k - 1), 0, p);
    }
  }

  lemma {:induction false} FermatNat(a: nat, p: int)
    requires Prime(p)
    ensures Cong(Pow(a, p), a, p)
  {
    if a > 0 {
      FermatNat(a - 1, p);
      BinomialTheorem(p, a - 1);
      TermsPrime(p, a - 1, p);
      assert Binomial(p, p) == 1 by { BinomialDiagonal(p); }
      CongOps(Terms(p, a - 1, p), 1, Pow(a - 1, p), a - 1, p);
    }
  }

  lemma {:induction false} BinomialDiagonal(n: nat)
    ensures Binomial(n, n) == 1
  {
    if n > 0 {
      BinomialDiagonal(n - 1);
      BinomialAbove(n - 1, n);
    }
  }

  /** Fermat's little theorem. */
  lemma Fermat(a: int, p: int)
    requires Prime(p) && a % p != 0
    ensures Cong(Pow(a, p - 1), 1, p)
  {
    var r := a % p;
    FermatNat(r, p);
    CongOps(Pow(r, p), r, r, r, p);
    assert r * (Pow(r, p - 1) - 1) == Pow(r, p) - r;
    CongZero(Pow(r, p) - r, p);
    EuclidSmall(r, Pow(r, p - 1) - 1, p);
    CongZero(Pow(r, p - 1) - 1, p);
    CongOps(Pow(r, p - 1) - 1, 0, 1, 1, p);
    CongMod(a, p);
    PowCong(r, a, p - 1, p);
  }
}
