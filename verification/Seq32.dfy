/** Fixed-width unsigned numbers and the signed-difference comparison of
    TCP sequence numbers (section 3.4 of RFC 9293). */
module Seq32 {
  const MOD: int := 0x1_0000_0000
  const HALF: int := 0x8000_0000

  type byte = x: int | 0 <= x < 0x100
  type u16 = x: int | 0 <= x < 0x1_0000
  type u32 = x: int | 0 <= x < 0x1_0000_0000

  function Wrap(x: int): u32 {
    x % MOD
  }

  /** The int32 that has the same bits as a uint32. */
  function Signed(d: u32): int {
    if d < HALF then d else d - MOD
  }

  predicate LT(a: u32, b: u32) { Signed(Wrap(a - b)) < 0 }
  predicate LE(a: u32, b: u32) { Signed(Wrap(a - b)) <= 0 }
  predicate GT(a: u32, b: u32) { Signed(Wrap(a - b)) > 0 }
  predicate GE(a: u32, b: u32) { Signed(Wrap(a - b)) >= 0 }

  lemma WrapSub(a: int, b: int)
    ensures Wrap(Wrap(a) - Wrap(b)) == Wrap(a - b)
    ensures Wrap(Wrap(a) + b) == Wrap(a + b)
  {
    var qa, qb := a / MOD, b / MOD;
    assert Wrap(a) - Wrap(b) == a - b - (qa - qb) * MOD;
    WrapPeriod(a - b, qb - qa);
    WrapPeriod(a + b, -qa);
  }

  lemma WrapPeriod(x: int, k: int)
    ensures Wrap(x + k * MOD) == Wrap(x)
  {
    var q := x / MOD;
    var y := x + k * MOD;
    assert y == (q + k) * MOD + Wrap(x);
    var d := y / MOD - (q + k);
    assert d * MOD == Wrap(x) - Wrap(y);
    assert d == 0;
  }

  /** Positions less than one lap apart have the same number only when equal. */
  lemma WrapInjective(a: int, b: int)
    requires Wrap(a) == Wrap(b) && -MOD < a - b < MOD
    ensures a == b
  {
    WrapSub(a, b);
  }

  /** The comparisons order unbounded positions correctly up to a distance of
      2^31; at the distance itself LT and GE go wrong in exactly one direction,
      the one where the larger position comes first. */
  lemma OrderAgrees(a: int, b: int)
    requires -HALF <= a - b <= HALF
    ensures (LT(Wrap(a), Wrap(b)) <==> a < b) <==> a - b != HALF
    ensures (GE(Wrap(a), Wrap(b)) <==> a >= b) <==> a - b != HALF
    ensures (GT(Wrap(a), Wrap(b)) <==> a > b) <==> a - b != HALF
    ensures (LE(Wrap(a), Wrap(b)) <==> a <= b) <==> a - b != HALF
  {
    WrapSub(a, b);
    if a < b {
      WrapPeriod(a - b, 1);
    }
  }
}
