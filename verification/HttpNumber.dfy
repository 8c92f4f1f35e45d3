/** Content-Length as the sender writes it: what the reader's trimming and Atoi
    take for n is n in decimal, with leading zeros, a sign and white space. */
module HttpNumber {
  import opened Seq32
  import opened Wrappers
  import opened Wire
  import opened HttpModel

  const PLUS: byte := 43
  const MINUS: byte := 45
  const DIGIT_0: byte := 48

  /** n in decimal, without leading zeros. */
  function Digits(n: nat): (s: Bytes)
    ensures s != [] && forall i :: 0 <= i < |s| ==> DIGIT_0 <= s[i] <= 57
  {
    if n < 10 then [DIGIT_0 + n] else Digits(n / 10) + [DIGIT_0 + n % 10]
  }

  function Repeat(c: byte, n: nat): (s: Bytes)
    ensures |s| == n && forall i :: 0 <= i < n ==> s[i] == c
  {
    if n == 0 then [] else [c] + Repeat(c, n - 1)
  }

  /** A run of white space, each character whole. */
  predicate Spaces(pieces: seq<Bytes>) {
    forall i :: 0 <= i < |pieces| ==> IsSpace(pieces[i])
  }

  /** How a length is written: white space, a sign, leading zeros, digits, white space. */
  datatype Written = Written(lead: seq<Bytes>, sign: Bytes, zeros: nat, trail: seq<Bytes>)

  predicate WrittenOk(w: Written, n: nat) {
    && Spaces(w.lead) && Spaces(w.trail)
    && (w.sign == [] || w.sign == [PLUS] || (w.sign == [MINUS] && n == 0))
  }

  function Text(w: Written, n: nat): Bytes {
    Concat(w.lead) + (w.sign + (Repeat(DIGIT_0, w.zeros) + Digits(n))) + Concat(w.trail)
  }

  /** The value announces n. */
  ghost predicate Announces(value: Bytes, n: nat) {
    n <= INT_MAX && exists w :: WrittenOk(w, n) && value == Text(w, n)
  }

  // ----- digits ----------------------------------------------------------

  lemma {:induction false} DecimalOfDigits(n: nat)
    ensures Decimal(Digits(n)) == n
  {
    if n >= 10 {
      DecimalOfDigits(n / 10);
      assert Digits(n)[..|Digits(n)| - 1] == Digits(n / 10);
    } else {
      assert Decimal([]) == 0;
      assert Digits(n)[..0] == [];
    }
  }

  lemma {:induction false} DecimalSkipsZeros(zeros: nat, s: Bytes)
    requires forall i :: 0 <= i < |s| ==> DIGIT_0 <= s[i] <= 57
    ensures Decimal(Repeat(DIGIT_0, zeros) + s) == Decimal(s)
    decreases |s|, zeros
  {
    var z := Repeat(DIGIT_0, zeros);
    if s != [] {
      DecimalSkipsZeros(zeros, s[..|s| - 1]);
      assert (z + s)[..|z + s| - 1] == z + s[..|s| - 1];
    } else if zeros > 0 {
      DecimalSkipsZeros(zeros - 1, []);
      RepeatEnds(DIGIT_0, zeros - 1);
      assert z + [] == z && Repeat(DIGIT_0, zeros - 1) + [] == Repeat(DIGIT_0, zeros - 1);
    }
  }

  lemma RepeatEnds(c: byte, n: nat)
    ensures Repeat(c, n + 1)[..n] == Repeat(c, n) && Repeat(c, n + 1)[n] == c
  {
  }

  /** A string of digits is the number it stands for behind leading zeros. */
  lemma {:induction false} DigitsShape(s: Bytes) returns (zeros: nat)
    requires AllDigits(s)
    ensures s == Repeat(DIGIT_0, zeros) + Digits(Decimal(s))
    decreases |s|
  {
    hide Digits, Repeat, Decimal;
    var (init, last) := (s[..|s| - 1], s[|s| - 1] - 48);
    SplitLast(s);
    if init == [] {
      zeros := 0;
      LastDigit(0, last);
      RepeatMore(0);
    } else {
      zeros := DigitsShape(init);
      var d := Decimal(init);
      LastDigit(d, last);
      if d == 0 {
        RepeatMore(zeros);
        LastDigit(0, 0);
        zeros := zeros + 1;
      } else {
        AppendLast(Repeat(DIGIT_0, zeros), Digits(d), [DIGIT_0 + last]);
      }
    }
  }

  lemma SplitLast(s: Bytes)
    requires AllDigits(s)
    ensures s == s[..|s| - 1] + [s[|s| - 1]]
    ensures Decimal(s) == 10 * Decimal(s[..|s| - 1]) + (s[|s| - 1] - 48) && Decimal([]) == 0
  {
  }

  lemma AppendLast(a: Bytes, b: Bytes, c: Bytes)
    ensures a + b + c == a + (b + c)
  {
  }

  lemma LastDigit(d: nat, last: nat)
    requires last < 10
    ensures d > 0 ==> Digits(10 * d + last) == Digits(d) + [DIGIT_0 + last]
    ensures Digits(last) == [DIGIT_0 + last]
  {
    assert (10 * d + last) / 10 == d && (10 * d + last) % 10 == last;
  }

  lemma RepeatMore(n: nat)
    ensures Repeat(DIGIT_0, n) + [DIGIT_0] == Repeat(DIGIT_0, n + 1) && Repeat(DIGIT_0, 0) == []
  {
    RepeatEnds(DIGIT_0, n);
  }

  // ----- white space -----------------------------------------------------

  /** Neither the first nor the last byte belongs to white space. */
  predicate Bare(s: Bytes) {
    s != [] && Solid(s[0]) && Solid(s[|s| - 1])
  }

  predicate Solid(c: byte) {
    DIGIT_0 <= c <= 57 || c == PLUS || c == MINUS
  }

  lemma FirstSpace(piece: Bytes, rest: Bytes)
    requires IsSpace(piece)
    ensures LeadingSpace(piece + rest) == |piece| > 0
  {
    var s := piece + rest;
    assert s[..|piece|] == piece;
    if |piece| >= 2 { assert s[..1][0] == piece[0]; }
    if |piece| >= 3 { assert s[..2][0] == piece[0] && s[..2][1] == piece[1]; }
  }

  lemma LastSpace(rest: Bytes, piece: Bytes)
    requires IsSpace(piece)
    ensures TrailingSpace(rest + piece) == |piece| > 0
  {
    var (s, n) := (rest + piece, |rest + piece|);
    assert s[n - |piece|..] == piece;
    if |piece| >= 2 { assert s[n - 1..][0] == piece[|piece| - 1]; }
    if |piece| >= 3 { assert s[n - 2..][0] == piece[1] && s[n - 2..][1] == piece[2]; }
  }

  lemma NoneInFront(s: Bytes, more: Bytes)
    requires Bare(s)
    ensures LeadingSpace(s + more) == 0
  {
    var t := s + more;
    assert t[..1][0] == s[0];
    if |t| >= 2 { assert t[..2][0] == s[0]; }
    if |t| >= 3 { assert t[..3][0] == s[0]; }
  }

  lemma NoneBehind(s: Bytes)
    requires Bare(s)
    ensures TrailingSpace(s) == 0
  {
    hide IsSpace, Solid;
    EndPiece(s, 1);
    if |s| >= 2 {
      EndPiece(s, 2);
      if |s| >= 3 {
        EndPiece(s, 3);
      }
    }
  }

  lemma EndPiece(s: Bytes, k: nat)
    requires 1 <= k <= |s| && Solid(s[|s| - 1])
    ensures !IsSpace(s[|s| - k..])
  {
    var piece := s[|s| - k..];
    assert piece[k - 1] == s[|s| - 1];
    SpaceEnd(piece);
    hide IsSpace;
  }

  lemma SpaceEnd(piece: Bytes)
    requires piece != [] && Solid(piece[|piece| - 1])
    ensures !IsSpace(piece)
  {
  }

  lemma {:induction false} TrimLeftOff(lead: seq<Bytes>, s: Bytes)
    requires Spaces(lead) && LeadingSpace(s) == 0
    ensures TrimSpaceLeft(Concat(lead) + s) == s
  {
    hide IsSpace, LeadingSpace;
    if lead == [] {
      assert Concat(lead) + s == s;
    } else {
      var rest := Concat(lead[1..]) + s;
      assert Concat(lead) + s == lead[0] + rest;
      FirstSpace(lead[0], rest);
      assert (lead[0] + rest)[|lead[0]|..] == rest;
      TrimLeftOff(lead[1..], s);
    }
  }

  lemma {:induction false} TrimRightOff(s: Bytes, trail: seq<Bytes>)
    requires Spaces(trail) && TrailingSpace(s) == 0
    ensures TrimSpaceRight(s + Concat(trail)) == s
    decreases |trail|
  {
    hide IsSpace, TrailingSpace;
    if trail == [] {
      assert s + Concat(trail) == s;
    } else {
      var (init, last) := (trail[..|trail| - 1], trail[|trail| - 1]);
      assert trail == init + [last];
      ConcatAppend(init, last);
      var rest := s + Concat(init);
      assert s + Concat(trail) == rest + last;
      LastSpace(rest, last);
      assert (rest + last)[..|rest|] == rest;
      TrimRightOff(s, init);
    }
  }

  lemma {:induction false} TrimLeftShape(s: Bytes) returns (lead: seq<Bytes>)
    ensures Spaces(lead) && s == Concat(lead) + TrimSpaceLeft(s)
    decreases |s|
  {
    hide LeadingSpace, TrimSpaceLeft, IsSpace, Concat;
    SpaceInFront(s);
    var n := LeadingSpace(s);
    if n > 0 {
      var more := TrimLeftShape(s[n..]);
      lead := [s[..n]] + more;
      ConcatCons(s[..n], more);
      AppendLast(s[..n], Concat(more), TrimSpaceLeft(s[n..]));
      assert s == s[..n] + s[n..];
    } else {
      lead := [];
      ConcatNone();
      assert [] + s == s;
    }
  }

  lemma SpaceInFront(s: Bytes)
    ensures var n := LeadingSpace(s);
      if n > 0 then IsSpace(s[..n]) && TrimSpaceLeft(s) == TrimSpaceLeft(s[n..]) else TrimSpaceLeft(s) == s
  {
    hide IsSpace;
  }

  lemma ConcatCons(piece: Bytes, more: seq<Bytes>)
    ensures Concat([piece] + more) == piece + Concat(more)
  {
    assert ([piece] + more)[1..] == more;
  }

  lemma ConcatNone()
    ensures Concat([]) == []
  {
  }

  lemma {:induction false} TrimRightShape(s: Bytes) returns (trail: seq<Bytes>)
    ensures Spaces(trail) && s == TrimSpaceRight(s) + Concat(trail)
    decreases |s|
  {
    hide TrailingSpace, TrimSpaceRight, IsSpace, Concat;
    SpaceBehind(s);
    if TrailingSpace(s) > 0 {
      var m := |s| - TrailingSpace(s);
      var more := TrimRightShape(s[..m]);
      trail := more + [s[m..]];
      ConcatAppend(more, s[m..]);
      AppendLast(TrimSpaceRight(s[..m]), Concat(more), s[m..]);
      assert s == s[..m] + s[m..];
    } else {
      trail := [];
      ConcatNone();
      assert s + [] == s;
    }
  }

  lemma SpaceBehind(s: Bytes)
    ensures var n := TrailingSpace(s);
      if n > 0 then IsSpace(s[|s| - n..]) && TrimSpaceRight(s) == TrimSpaceRight(s[..|s| - n])
      else TrimSpaceRight(s) == s
  {
    hide IsSpace;
  }

  // ----- the number ------------------------------------------------------

  /** The value of a sign and a number, within 64 bits. */
  function Signed64(sign: Bytes, n: nat): Option<int> {
    var m: int := n;
    var v: int := if sign == [MINUS] then -m else m;
    if -INT_MAX - 1 <= v <= INT_MAX then Some(v) else None
  }

  /** What Atoi makes of a sign and digits. */
  lemma AtoiOf(sign: Bytes, zeros: nat, n: nat)
    requires sign == [] || sign == [PLUS] || sign == [MINUS]
    ensures Atoi(sign + (Repeat(DIGIT_0, zeros) + Digits(n))) == Signed64(sign, n)
  {
    hide Decimal, Digits, Repeat;
    var digits := Repeat(DIGIT_0, zeros) + Digits(n);
    DecimalSkipsZeros(zeros, Digits(n));
    DecimalOfDigits(n);
    assert AllDigits(digits);
    hide AllDigits;
    if sign == [] {
      assert sign + digits == digits;
    } else {
      assert (sign + digits)[1..] == digits;
    }
  }

  lemma TextTrimmed(w: Written, n: nat)
    requires Spaces(w.lead) && Spaces(w.trail) && (w.sign == [] || w.sign == [PLUS] || w.sign == [MINUS])
    ensures TrimSpace(Text(w, n)) == w.sign + (Repeat(DIGIT_0, w.zeros) + Digits(n))
  {
    hide Digits, Repeat, LeadingSpace, TrailingSpace, IsSpace;
    var s := w.sign + (Repeat(DIGIT_0, w.zeros) + Digits(n));
    NoneBehind(s);
    NoneInFront(s, Concat(w.trail));
    assert Concat(w.lead) + s + Concat(w.trail) == Concat(w.lead) + (s + Concat(w.trail));
    TrimLeftOff(w.lead, s + Concat(w.trail));
    TrimRightOff(s, w.trail);
  }

  /** Every way to write a length, and every number too large or negative. */
  lemma NumberRoundTrip(w: Written, n: nat)
    requires Spaces(w.lead) && Spaces(w.trail) && (w.sign == [] || w.sign == [PLUS] || w.sign == [MINUS])
    ensures Atoi(TrimSpace(Text(w, n))) == Signed64(w.sign, n)
  {
    hide Atoi, TrimSpace, Text, Digits, Repeat;
    TextTrimmed(w, n);
    AtoiOf(w.sign, w.zeros, n);
  }

  /** Nothing else reads as a length. */
  lemma LengthIff(value: Bytes, n: nat)
    ensures Atoi(TrimSpace(value)) == Some(n) <==> Announces(value, n)
  {
    hide Text, Digits, Repeat, TrimSpaceLeft, TrimSpaceRight, IsSpace, Decimal;
    if Atoi(TrimSpace(value)) == Some(n) {
      var w := ReadAsLength(value, n);
    }
    if Announces(value, n) {
      var w :| WrittenOk(w, n) && value == Text(w, n);
      NumberRoundTrip(w, n);
    }
  }

  lemma ReadAsLength(value: Bytes, n: nat) returns (w: Written)
    requires Atoi(TrimSpace(value)) == Some(n)
    ensures n <= INT_MAX && WrittenOk(w, n) && value == Text(w, n)
  {
    hide Digits, Repeat, TrimSpaceLeft, TrimSpaceRight, IsSpace, Decimal;
    var s := TrimSpace(value);
    var sign := if s[0] == PLUS || s[0] == MINUS then s[..1] else [];
    var lead := TrimLeftShape(value);
    var trail := TrimRightShape(TrimSpaceLeft(value));
    var zeros := DigitsShape(s[|sign|..]);
    w := Written(lead, sign, zeros, trail);
    assert s == sign + s[|sign|..];
    assert value == Concat(lead) + (s + Concat(trail)) == Concat(lead) + s + Concat(trail);
  }
}
