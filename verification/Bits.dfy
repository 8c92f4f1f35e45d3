/** Bitwise operators on natural numbers, bytes as digits, and powers of two. */
module Bits {
  import opened Seq32

  function Pow2(n: nat): (r: nat)
    ensures r > 0
  {
    if n == 0 then 1 else 2 * Pow2(n - 1)
  }

  function And(a: nat, b: nat): (r: nat)
    ensures r <= a
  {
    if a == 0 || b == 0 then 0 else 2 * And(a / 2, b / 2) + if a % 2 == 1 then b % 2 else 0
  }

  function Or(a: nat, b: nat): nat {
    if a == 0 then b else if b == 0 then a else 2 * Or(a / 2, b / 2) + if a % 2 == 1 then 1 else b % 2
  }

  function Xor(a: nat, b: nat): nat {
    if a == 0 then b else if b == 0 then a else 2 * Xor(a / 2, b / 2) + (a % 2 + b % 2) % 2
  }

  /** Masking with 2^n - 1 keeps the low n bits. */
  lemma {:induction false} AndMask(a: nat, n: nat)
    ensures And(a, Pow2(n) - 1) == a % Pow2(n)
  {
    hide And, Pow2;
    if n == 0 {
      Pow2Next(0);
      AndZero(a);
    } else {
      var q := Pow2(n - 1);
      Pow2Next(n - 1);
      AndOddMask(a, q - 1);
      AndMask(a / 2, n - 1);
      DivModDouble(a, q);
      assert 2 * (q - 1) + 1 == Pow2(n) - 1;
    }
  }

  lemma AndZero(a: nat)
    ensures And(a, 0) == 0
  {
  }

  lemma AndOddMask(a: nat, m: nat)
    ensures And(a, 2 * m + 1) == 2 * And(a / 2, m) + a % 2
    ensures And(a, 2 * m) == 2 * And(a / 2, m)
  {
    assert (2 * m + 1) / 2 == m && (2 * m) / 2 == m;
  }

  /** x = 2h + b splits the quotient and remainder by 2q. */
  lemma DivModDouble(a: nat, q: nat)
    requires q > 0
    ensures a % (2 * q) == 2 * (a / 2 % q) + a % 2
    ensures a / (2 * q) == a / 2 / q
  {
    var h := a / 2;
    var k, r := h / q, h % q;
    assert a == k * (2 * q) + (2 * r + a % 2) by {
      assert h == k * q + r;
      assert 2 * (k * q) == k * (2 * q);
    }
    DivModUnique(a, 2 * q, k, 2 * r + a % 2);
  }

  lemma DivModUnique(x: int, d: int, q: int, r: int)
    requires x == q * d + r && 0 <= r < d
    ensures x / d == q && x % d == r
  {
    var k := x / d - q;
    assert k * d == r - x % d by {
      assert x == (x / d) * d + x % d;
    }
    assert k >= 1 ==> k * d >= d;
    assert k <= -1 ==> k * d <= -d;
  }

  lemma MulNat(a: nat, b: nat)
    ensures a * b >= 0
  {
  }

  /** Setting bit n of a number below 2^(n + 1). */
  lemma {:induction false} OrBit(a: nat, n: nat)
    requires a < 2 * Pow2(n)
    ensures Or(a, Pow2(n)) == Pow2(n) + a % Pow2(n)
  {
    if n == 0 {
      assert Or(0, 1) == 1 && Or(1, 1) == 1;
    } else {
      OrBit(a / 2, n - 1);
      OrEven(a, Pow2(n - 1));
      DivModDouble(a, Pow2(n - 1));
    }
  }

  lemma OrEven(a: nat, m: nat)
    ensures Or(a, 2 * m) == 2 * Or(a / 2, m) + a % 2
  {
    assert (2 * m) / 2 == m && (2 * m) % 2 == 0;
    if a == 0 || m == 0 {
      assert a / 2 == 0 || m == 0;
    }
  }

  lemma {:induction false} XorBound(a: nat, b: nat, n: nat)
    requires a < Pow2(n) && b < Pow2(n)
    ensures Xor(a, b) < Pow2(n)
  {
    if n > 0 {
      XorBound(a / 2, b / 2, n - 1);
    }
  }

  lemma {:induction false} XorCancels(a: nat, b: nat)
    ensures Xor(Xor(a, b), b) == a
  {
    hide Xor;
    if a > 0 && b > 0 {
      XorCancels(a / 2, b / 2);
      XorStep(a, b);
      XorStep(Xor(a, b), b);
      BitTwice(a % 2, b % 2);
      SameHalves(Xor(Xor(a, b), b), a);
    } else {
      XorZero(a);
      XorZero(b);
      XorSelf(b);
    }
  }

  lemma XorZero(a: nat)
    ensures Xor(a, 0) == a && Xor(0, a) == a
  {
  }

  lemma SameHalves(x: nat, y: nat)
    requires x / 2 == y / 2 && x % 2 == y % 2
    ensures x == y
  {
  }

  lemma BitTwice(a: nat, b: nat)
    requires a < 2 && b < 2
    ensures ((a + b) % 2 + b) % 2 == a
  {
  }

  lemma XorStep(a: nat, b: nat)
    ensures Xor(a, b) / 2 == Xor(a / 2, b / 2) && Xor(a, b) % 2 == (a % 2 + b % 2) % 2
  {
  }

  lemma {:induction false} XorSelf(a: nat)
    ensures Xor(a, a) == 0
  {
    if a > 0 {
      XorSelf(a / 2);
    }
  }

  /** Little-endian value. */
  function LeInt(bytes: seq<byte>): (n: nat) {
    if bytes == [] then 0 else bytes[0] + 256 * LeInt(bytes[1..])
  }

  /** Big-endian value, the reading of math/big. */
  function BeInt(bytes: seq<byte>): (n: nat) {
    if bytes == [] then 0 else 256 * BeInt(bytes[..|bytes| - 1]) + bytes[|bytes| - 1]
  }

  /** n as a big-endian number of the given width. */
  function BeBytes(n: nat, width: nat): (bytes: seq<byte>)
    ensures |bytes| == width
  {
    if width == 0 then [] else BeBytes(n / 256, width - 1) + [n % 256]
  }

  lemma {:induction false} BeRoundTrip(n: nat, width: nat)
    ensures BeInt(BeBytes(n, width)) == n % Pow2(8 * width)
  {
    if width > 0 {
      var bytes := BeBytes(n, width);
      assert bytes[..width - 1] == BeBytes(n / 256, width - 1);
      BeRoundTrip(n / 256, width - 1);
      Pow2Add(8 * (width - 1), 8);
      DivModByte(n, Pow2(8 * (width - 1)));
    }
  }

  lemma {:induction false} BeBytesOf(bytes: seq<byte>)
    ensures BeBytes(BeInt(bytes), |bytes|) == bytes
    ensures BeInt(bytes) < Pow2(8 * |bytes|)
  {
    if bytes != [] {
      var init := bytes[..|bytes| - 1];
      BeBytesOf(init);
      Pow2Add(8 * |init|, 8);
      assert BeInt(bytes) / 256 == BeInt(init);
    }
  }

  lemma {:induction false} Pow2Add(a: nat, b: nat)
    ensures Pow2(a + b) == Pow2(a) * Pow2(b)
    ensures Pow2(8) == 256
  {
    Pow2Eight();
    if b > 0 {
      Pow2Add(a, b - 1);
      Pow2Next(a + b - 1);
      Pow2Next(b - 1);
      hide Pow2;
      MoveTwo(Pow2(a), Pow2(b - 1));
    }
  }

  lemma Pow2Eight()
    ensures Pow2(8) == 256
  {
    Pow2Next(7);
    Pow2Next(6);
    Pow2Next(5);
    Pow2Next(4);
    Pow2Next(3);
    Pow2Next(2);
    Pow2Next(1);
    Pow2Next(0);
    hide Pow2;
  }

  lemma Pow2Next(n: nat)
    ensures Pow2(n + 1) == 2 * Pow2(n) && Pow2(0) == 1
  {
  }

  lemma MoveTwo(x: int, y: int)
    ensures x * (2 * y) == 2 * (x * y)
  {
  }

  lemma DivModByte(n: nat, q: nat)
    requires q > 0
    ensures n % (q * 256) == 256 * (n / 256 % q) + n % 256
  {
    var h := n / 256;
    assert h == (h / q) * q + h % q;
    assert n == (h / q) * (q * 256) + (256 * (h % q) + n % 256) by {
      assert 256 * ((h / q) * q) == (h / q) * (q * 256);
    }
    DivModUnique(n, q * 256, h / q, 256 * (h % q) + n % 256);
  }

  function Reverse(bytes: seq<byte>): (r: seq<byte>)
    ensures |r| == |bytes| && forall i :: 0 <= i < |bytes| ==> r[i] == bytes[|bytes| - 1 - i]
  {
    if bytes == [] then [] else Reverse(bytes[1..]) + [bytes[0]]
  }

  lemma {:induction false} LeIsReversedBe(bytes: seq<byte>)
    ensures LeInt(bytes) == BeInt(Reverse(bytes))
  {
    if bytes != [] {
      LeIsReversedBe(bytes[1..]);
      assert Reverse(bytes)[..|bytes| - 1] == Reverse(bytes[1..]);
    }
  }

  lemma {:induction false} LeSplit(bytes: seq<byte>, i: nat)
    requires i <= |bytes|
    ensures LeInt(bytes) == LeInt(bytes[..i]) + Pow2(8 * i) * LeInt(bytes[i..])
  {
    if i > 0 {
      LeSplit(bytes[1..], i - 1);
      assert bytes[..i][1..] == bytes[1..][..i - 1] && bytes[i..] == bytes[1..][i - 1..];
      Pow2Add(8 * (i - 1), 8);
      MulLast(Pow2(8 * (i - 1)), LeInt(bytes[i..]));
    }
  }

  lemma MulLast(a: nat, b: nat)
    ensures 256 * (a * b) == a * 256 * b
  {
  }

  /** Bit t of a little-endian number is bit t % 8 of byte t / 8. */
  lemma {:induction false} LeBit(bytes: seq<byte>, t: nat)
    requires t < 8 * |bytes|
    ensures LeInt(bytes) / Pow2(t) % 2 == bytes[t / 8] / Pow2(t % 8) % 2
  {
    var rest := LeInt(bytes[1..]);
    if t < 8 {
      LowByteBit(bytes[0], rest, t);
    } else {
      LeBit(bytes[1..], t - 8);
      Pow2Add(8, t - 8);
      DivDiv(bytes[0] + 256 * rest, 256, Pow2(t - 8));
      assert (bytes[0] + 256 * rest) / 256 == rest;
      assert bytes[1..][(t - 8) / 8] == bytes[t / 8];
    }
  }

  lemma LowByteBit(low: byte, rest: nat, t: nat)
    requires t < 8
    ensures (low + 256 * rest) / Pow2(t) % 2 == low / Pow2(t) % 2
  {
    hide Pow2;
    var q, r := Pow2(t), Pow2(7 - t);
    Pow2Add(t, 7 - t);
    SevenBits();
    HighRest(rest, q, r);
    HighPart(low, r * rest, q);
  }

  lemma HighRest(rest: nat, q: nat, r: nat)
    requires q * r == 128
    ensures 256 * rest == 2 * (r * rest) * q
  {
    assert (r * rest) * q == (q * r) * rest;
  }

  lemma SevenBits()
    ensures Pow2(7) == 128
  {
    assert Pow2(7) == 2 * Pow2(6);
  }

  lemma HighPart(low: nat, high: nat, q: nat)
    requires q > 0
    ensures (low + 2 * high * q) / q % 2 == low / q % 2
  {
    assert low == (low / q) * q + low % q;
    assert low + 2 * high * q == (low / q + 2 * high) * q + low % q;
    DivModUnique(low + 2 * high * q, q, low / q + 2 * high, low % q);
  }

  lemma DivDiv(a: nat, b: nat, c: nat)
    requires b > 0 && c > 0
    ensures a / (b * c) == a / b / c
  {
    var h, s := Division(a, b);
    var q, r := Division(h, c);
    Nested(a, h, s, q, r, b, c);
  }

  lemma Division(a: nat, b: nat) returns (q: nat, r: nat)
    requires b > 0
    ensures q == a / b && a == q * b + r && r < b
  {
    q, r := a / b, a % b;
  }

  lemma Nested(a: nat, h: nat, s: nat, q: nat, r: nat, b: nat, c: nat)
    requires a == h * b + s && s < b && h == q * c + r && r < c
    ensures a / (b * c) == q
  {
    MulAdd(q * c, r, b);
    MulAssoc(q, c, b);
    MulAdd(c - 1 - r, r + 1, b);
    MulAdd(r, 1, b);
    MulNat(c - 1 - r, b);
    DivModUnique(a, b * c, q, r * b + s);
  }

  lemma MulAdd(x: int, y: int, z: int)
    ensures (x + y) * z == x * z + y * z
  {
  }

  lemma MulAssoc(x: int, y: int, z: int)
    ensures x * y * z == x * (z * y)
  {
  }
}
