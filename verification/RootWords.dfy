/** The square root of a double word in single words (softfp_template.h: sqrtrem_u where there is no wider type). */
module RootWords {
  import opened Powers
  import opened Jamming
  import opened Normalize
  import opened IntegerLoops

  // ----- the bounds that the words need, P being a quarter of the word radix

  lemma {:induction false} BitLenBelow(a: nat, k: nat)
    requires a < Pow2(k)
    ensures BitLen(a) <= k
  {
    if a > 0 {
      BitLenBounds(a);
      if BitLen(a) > k { Pow2Mono(k, BitLen(a) - 1); }
    }
  }

  /** Where the iteration starts: at half the word radix, or at a quarter of it or below. */
  lemma StartFacts(size: nat, a1: nat, a0: nat)
    requires size >= 4 && a1 < Pow2(size - 2) && a0 < Pow2(size) && (a1 != 0 || a0 != 0)
    ensures var s := InitialRoot(size, a1, a0);
            && 0 < s && (s == Pow2(size - 1) || s <= Pow2(size - 2))
            && Sq(s) >= Shl(a1, size) && (a1 == 0 ==> Sq(s) >= a0)
  {
    var l := RootBits(size, a1, a0);
    StartBits(size, a1, a0);
    var h := (l + 1) / 2;
    if h < size - 1 { Pow2Mono(h, size - 2); }
    SqPow(h);
    Pow2Mono(l, h + h);
    hide Pow2, Shl, Sq, BitLen, RootBits;
  }

  lemma StartBits(size: nat, a1: nat, a0: nat)
    requires size >= 4 && a1 < Pow2(size - 2) && a0 < Pow2(size) && (a1 != 0 || a0 != 0)
    ensures var l := RootBits(size, a1, a0);
            (l + 1) / 2 <= size - 1 && Pow2(l) >= Shl(a1, size) && (a1 == 0 ==> Pow2(l) >= a0)
  {
    hide Pow2, Shl, BitLen;
    if a1 != 0 {
      BitLenBelow(a1 - 1, size - 2);
      RootBitsBound(size, a1, 0);
    } else {
      BitLenBelow(a0 - 1, size);
      RootBitsBound(size, 0, a0);
      ShlOne(size);
    }
  }

  /** The high word is below every value of the iteration. */
  lemma HighBelow(a1: nat, a0: nat, P: nat, s: nat)
    requires a1 < P && a0 < 4 * P
    requires s > 0 && (s * s >= a1 * (4 * P) || a1 * (4 * P) + a0 < (s + 1) * (s + 1))
    ensures a1 < s
  {
    LeTimes(a1, 4 * (a1 + 1), 4 * P);
    Expand(a1);
    if s <= a1 {
      Squares(s + 1, a1 + 1);
      Squares(s, a1);
    }
  }

  lemma Expand(a: nat)
    ensures (a + 1) * (a + 1) == a * a + 2 * a + 1
    ensures a * (4 * (a + 1)) == 4 * (a * a) + 4 * a
    ensures a * (a + 1) == a * a + a && a * (a + 3) == a * a + 3 * a && a * (2 * a) == 2 * (a * a)
    ensures (a + 2) * a == a * a + 2 * a
  {
  }

  lemma Squares(a: nat, b: nat)
    requires a <= b
    ensures a * a <= b * b
  {
    assert b * b - a * a == (b - a) * (b + a);
  }

  lemma LeTimes(c: nat, a: nat, b: nat)
    requires a <= b
    ensures c * a <= c * b
  {
    assert c * b - c * a == c * (b - a);
  }

  /** A quotient below a bound. */
  lemma QuotientBelow(q: nat, s: nat, k: nat, a: nat)
    requires s > 0 && q * s <= a && a < s * k
    ensures q < k
  {
    if q >= k { LeTimes(s, k, q); }
  }

  /** The first sum fits a word. */
  lemma FirstSum(a1: nat, a0: nat, P: nat, s: nat, q: nat)
    requires 2 <= P && a1 < P && a0 < 4 * P && s > 0 && (s == 2 * P || s <= P)
    requires s * s >= a1 * (4 * P) && (a1 == 0 ==> s * s >= a0) && q * s <= a1 * (4 * P) + a0
    ensures q + s < 4 * P
  {
    var a, b := a1 * (4 * P) + a0, a1 * (4 * P);
    Expand(s);
    Below(a1, P);
    if s == 2 * P {
      DoubleSquare(P);
      QuotientBelow(q, s, 2 * P, a);
    } else if a1 == 0 {
      QuotientBelow(q, s, s + 1, a);
    } else {
      QuotientBelow(q, s, 2 * s, a);
    }
  }

  lemma Below(a1: nat, P: nat)
    requires a1 < P
    ensures a1 * (4 * P) + 4 * P <= 4 * (P * P) && (a1 > 0 ==> 4 * P <= a1 * (4 * P)) && (a1 == 0 ==> a1 * (4 * P) == 0)
    ensures a1 + 1 < P ==> a1 * (4 * P) + 8 * P <= 4 * (P * P)
  {
    LeTimes(4 * P, a1 + 1, P);
    if a1 > 0 { LeTimes(4 * P, 1, a1); }
    if a1 + 1 < P { LeTimes(4 * P, a1 + 2, P); }
  }

  lemma DoubleSquare(P: nat)
    ensures (2 * P) * (2 * P) == 4 * (P * P)
  {
  }

  /** A later sum fits a word, but for a single double word. */
  lemma LaterSum(a1: nat, a0: nat, P: nat, s: nat, q: nat)
    requires 2 <= P && a1 < P && a0 < 4 * P && 0 < s < 2 * P
    requires a1 * (4 * P) + a0 < (s + 1) * (s + 1) && q * s <= a1 * (4 * P) + a0
    ensures q + s >= 4 * P ==> s == 2 * P - 1 && a1 * (4 * P) + a0 + 1 == 4 * (P * P)
  {
    var a := a1 * (4 * P) + a0;
    Expand(s);
    QuotientBelow(q, s, s + 3, a);
    DoubleSquare(P);
    if q + s >= 4 * P {
      assert q == s + 2 && s + 1 == 2 * P;
    }
  }

  /** The double word that is the exception: what its first two turns do. */
  lemma LastDouble(a1: nat, a0: nat, P: nat, s: nat, q: nat, r: nat)
    requires 2 <= P && a1 * (4 * P) + a0 + 1 == 4 * (P * P) && s > 0
    requires a1 * (4 * P) + a0 == q * s + r && r < s
    ensures s == 2 * P ==> q == 2 * P - 1 && (q + s) / 2 == 2 * P - 1
    ensures s + 1 == 2 * P ==> q == s + 2
  {
    DoubleSquare(P);
    Expand(s);
    var a := a1 * (4 * P) + a0;
    DivModUnique(a, s, q, r);
    if s == 2 * P {
      DivModUnique(a, s, s - 1, s - 1) by { OneLess(s); }
    }
    if s + 1 == 2 * P {
      DivModUnique(a, s, s + 2, 0);
    }
  }

  lemma OneLess(s: nat)
    requires s > 0
    ensures s * s - 1 == (s - 1) * s + (s - 1)
  {
  }

  // ----- one turn

  /** The sum of two words. */
  function WordSum(size: nat, a: nat, b: nat): nat { Lo(Pow2(size), a + b) }

  lemma SumKept(size: nat, a: nat, b: nat)
    requires a + b < Pow2(size)
    ensures WordSum(size, a, b) == a + b
  {
    DivModUnique(a + b, Pow2(size), 0, a + b);
  }

  ghost predicate Operands(size: nat, a1: nat, a0: nat) {
    size >= 4 && a1 < Pow2(size - 2) && a0 < Pow2(size) && (a1 != 0 || a0 != 0)
  }

  /** The double word 63:255 of 8-bit words is the exception, and the quotient of its second turn is 129. */
  lemma SqrtRemWraps()
    ensures Shl(63, 8) + 255 + 1 == Pow2(2 * 8 - 2) && 16383 / 127 == 129 && WordSum(8, 129, 127) == 0
  {
    assert Pow2(7) == 128 && Pow2(8) == 256;
    Pow2Add(7, 7);
    ShlIs(63, 8);
  }

  /** The value of the iteration: the start, or one above which the square of its successor lies. */
  ghost predicate At(size: nat, a1: nat, a0: nat, s: nat) {
    var a := Shl(a1, size) + a0;
    && size > 0 && 0 < s && a1 < s <= Pow2(size)
    && (s == InitialRoot(size, a1, a0) || (a < Sq(s + 1) && s < Pow2(size - 1)))
  }

  /** The division that the loop makes can be called, and its sum with the divisor is a word unless the double word is
      the exception. */
  lemma Turn(size: nat, a1: nat, a0: nat, s: nat, q: nat, r: nat)
    requires Operands(size, a1, a0) && At(size, a1, a0, s)
    requires Shl(a1, size) + a0 == q * s + r && r < s
    ensures q + s >= Pow2(size) ==> Shl(a1, size) + a0 + 1 == Pow2(2 * size - 2)
    ensures q + s >= Pow2(size) ==> s + 1 == Pow2(size - 1)
    ensures Newton(Shl(a1, size) + a0, s) == (q + s) / 2
    ensures Shl(a1, size) + a0 + 1 == Pow2(2 * size - 2) ==>
              && (s == Pow2(size - 1) ==> (q + s) / 2 == s - 1)
              && (s + 1 == Pow2(size - 1) ==> q + s >= Pow2(size))
  {
    var P := Pow2(size - 2);
    Quarter(size, a1);
    if s == InitialRoot(size, a1, a0) { StartFacts(size, a1, a0); }
    DivModUnique(q * s + r, s, q, r);
    hide Pow2, Shl, InitialRoot;
    if Shl(a1, size) + a0 + 1 == Pow2(2 * size - 2) { LastDouble(a1, a0, P, s, q, r); }
    if s == InitialRoot(size, a1, a0) {
      FirstSum(a1, a0, P, s, q);
    } else {
      LaterSum(a1, a0, P, s, q);
    }
  }

  lemma Quarter(size: nat, a1: nat)
    requires size >= 4
    ensures Pow2(size) == 4 * Pow2(size - 2) && Pow2(size - 1) == 2 * Pow2(size - 2) && Pow2(size - 2) >= 4
    ensures Pow2(2 * size - 2) == 4 * (Pow2(size - 2) * Pow2(size - 2))
    ensures Shl(a1, size) == a1 * (4 * Pow2(size - 2))
  {
    Pow2Add(size - 1, size - 1);
    Pow2Mono(2, size - 2);
    var P := Pow2(size - 2);
    assert Pow2(size - 1) == 2 * P;
    assert (2 * P) * (2 * P) == 4 * (P * P);
  }

  lemma Started(size: nat, a1: nat, a0: nat)
    requires Operands(size, a1, a0)
    ensures At(size, a1, a0, InitialRoot(size, a1, a0))
  {
    StartFacts(size, a1, a0);
    Quarter(size, a1);
    var s := InitialRoot(size, a1, a0);
    hide InitialRoot, Pow2, Shl;
    HighBelow(a1, a0, Pow2(size - 2), s);
  }

  /** The next value. */
  lemma Moved(size: nat, a1: nat, a0: nat, s: nat, u: nat)
    requires Operands(size, a1, a0) && At(size, a1, a0, s) && u == Newton(Shl(a1, size) + a0, s) < s
    ensures At(size, a1, a0, u) && Shl(a1, size) + a0 < Sq(u + 1) && u < Pow2(size - 1)
  {
    Quarter(size, a1);
    StartFacts(size, a1, a0);
    NewtonStep(Shl(a1, size) + a0, s);
    RootPositive(Shl(a1, size) + a0, u, a1, a0, size);
    hide InitialRoot, Pow2, Shl, Newton;
    HighBelow(a1, a0, Pow2(size - 2), u);
  }

  /** The exception starts at half the word radix. */
  lemma LastStart(size: nat, a1: nat, a0: nat)
    requires Operands(size, a1, a0) && Shl(a1, size) + a0 + 1 == Pow2(2 * size - 2)
    ensures InitialRoot(size, a1, a0) == Pow2(size - 1)
  {
    var P := Pow2(size - 2);
    Quarter(size, a1);
    HighIs(a1, a0, P);
    assert Pow2(size - 2) == 2 * Pow2(size - 3);
    LengthIs(a1 - 1, size - 2);
  }

  lemma HighIs(a1: nat, a0: nat, P: nat)
    requires P > 0 && a1 < P && a0 < 4 * P && a1 * (4 * P) + a0 + 1 == 4 * (P * P)
    ensures a1 == P - 1
  {
    Below(a1, P);
  }

  lemma LengthIs(a: nat, k: nat)
    requires k >= 2 && a + 2 == Pow2(k)
    ensures BitLen(a) == k
  {
    Pow2Mono(2, k);
    BitLenBounds(a);
    BitLenBelow(a, k);
    assert Pow2(k) == 2 * Pow2(k - 1);
    Pow2Mono(1, k - 1);
    if BitLen(a) < k { Pow2Mono(BitLen(a), k - 1); }
  }

  /** The double word with which the sum wraps. */
  ghost predicate Last(size: nat, a1: nat, a0: nat) {
    size > 0 && Shl(a1, size) + a0 + 1 == Pow2(2 * size - 2)
  }

  /** A value that is not below the root. */
  ghost predicate NotBelow(size: nat, a1: nat, a0: nat, s: nat) {
    Shl(a1, size) + a0 < Sq(s + 1)
  }

  /** The loop stands at `s`, and `u` comes next. */
  ghost predicate Going(size: nat, a1: nat, a0: nat, s: nat, u: nat, wraps: bool) {
    && Operands(size, a1, a0) && At(size, a1, a0, s) && (wraps ==> Last(size, a1, a0))
    && (!wraps ==> u == Newton(Shl(a1, size) + a0, s))
    && (Last(size, a1, a0) && !wraps ==> s == Pow2(size - 1) && u == s - 1)
  }

  lemma GoingStep(size: nat, a1: nat, a0: nat, s: nat, u: nat)
    requires Going(size, a1, a0, s, u, false) && u < s
    ensures Operands(size, a1, a0) && At(size, a1, a0, u)
    ensures NotBelow(size, a1, a0, s) && NotBelow(size, a1, a0, u) && (Last(size, a1, a0) ==> u + 1 == Pow2(size - 1))
  {
    NewtonStep(Shl(a1, size) + a0, s);
    Moved(size, a1, a0, s, u);
    hide Pow2, Shl, Sq, Newton, At;
  }

  lemma GoingEnd(size: nat, a1: nat, a0: nat, s: nat, u: nat)
    requires Going(size, a1, a0, s, u, false) && u >= s
    ensures IsRoot(Shl(a1, size) + a0, s) <==> NotBelow(size, a1, a0, s)
    ensures !Last(size, a1, a0) && a0 < Pow2(size)
  {
    NewtonStep(Shl(a1, size) + a0, s);
    if Last(size, a1, a0) { HalfRadix(size); }
    hide Pow2, Shl, Sq, Newton;
  }

  /** sqrtrem_u in single words, for a high word below a quarter of the radix: as with a wider type, but for the largest
      such double word, with which the sum of quotient and divisor wraps to zero. */
  method SqrtRemWords(size: nat, a1: nat, a0: nat) returns (s: nat, inexact: bool, wraps: bool)
    requires size >= 4 && a1 < Pow2(size - 2) && a0 < Pow2(size)
    ensures wraps <==> Shl(a1, size) + a0 + 1 == Pow2(2 * size - 2)
    ensures !wraps ==> (IsRoot(Shl(a1, size) + a0, s) <==> Shl(a1, size) + a0 < Sq(InitialRoot(size, a1, a0) + 1))
    ensures !wraps ==> (inexact <==> Sq(s) != Shl(a1, size) + a0)
  {
    if a1 == 0 && a0 == 0 {
      ShlOne(size);
      Pow2Mono(1, 2 * size - 2);
      return 0, false, false;
    }
    s := Pow2((RootBits(size, a1, a0) + 1) / 2);
    ghost var s0 := s;
    assert s == InitialRoot(size, a1, a0) && Operands(size, a1, a0);
    Started(size, a1, a0);
    if Last(size, a1, a0) { LastStart(size, a1, a0); }
    var u;
    s, u, wraps := Iterate(size, a1, a0, s);
    inexact := a1 != Hi(Pow2(size), Sq(s)) || a0 != Lo(Pow2(size), Sq(s));
    SquareWords(size, a1, a0, s);
    hide Pow2, Shl, Sq, RootBits, InitialRoot;
  }

  /** The loop. */
  method Iterate(size: nat, a1: nat, a0: nat, s0: nat) returns (s: nat, u: nat, wraps: bool)
    requires size >= 4 && Operands(size, a1, a0) && At(size, a1, a0, s0)
    requires Last(size, a1, a0) ==> s0 == Pow2(size - 1)
    ensures wraps <==> Last(size, a1, a0)
    ensures !wraps ==> (IsRoot(Shl(a1, size) + a0, s) <==> NotBelow(size, a1, a0, s0))
  {
    hide *;
    s := s0;
    u, wraps := Next(size, a1, a0, s);
    while !wraps && u < s
      invariant Going(size, a1, a0, s, u, wraps)
      invariant !wraps ==> (NotBelow(size, a1, a0, s0) <==> NotBelow(size, a1, a0, s))
      decreases !wraps, s
    {
      GoingStep(size, a1, a0, s, u);
      s := u;
      u, wraps := Next(size, a1, a0, s);
    }
    if wraps {
      GoingWraps(size, a1, a0, s, u);
    } else {
      GoingEnd(size, a1, a0, s, u);
    }
  }

  lemma GoingWraps(size: nat, a1: nat, a0: nat, s: nat, u: nat)
    requires Going(size, a1, a0, s, u, true)
    ensures Last(size, a1, a0)
  {
    hide Last;
  }

  /** The quotient, and half its sum with the divisor. */
  method Next(size: nat, a1: nat, a0: nat, s: nat) returns (u: nat, wraps: bool)
    requires size >= 4 && Operands(size, a1, a0) && At(size, a1, a0, s)
    requires Last(size, a1, a0) ==> s == Pow2(size - 1) || s + 1 == Pow2(size - 1)
    ensures Going(size, a1, a0, s, u, wraps)
  {
    hide Newton, Shl, InitialRoot;
    var q, r := DivRemU(size, a1, a0, s);
    Turn(size, a1, a0, s, q, r);
    if q + s < Pow2(size) { SumKept(size, q, s); }
    HalfRadix(size);
    u := WordSum(size, q, s) / 2;
    wraps := q + s >= Pow2(size);
  }

  lemma HalfRadix(size: nat)
    requires size >= 4
    ensures Pow2(size - 1) >= 4
  {
    Pow2Mono(2, size - 1);
  }

  // ----- the square, as a double word

  lemma SquareWords(size: nat, a1: nat, a0: nat, s: nat)
    requires a0 < Pow2(size)
    ensures Sq(s) == Shl(a1, size) + a0 <==> a1 == Hi(Pow2(size), Sq(s)) && a0 == Lo(Pow2(size), Sq(s))
  {
    var p, x := Pow2(size), Sq(s);
    ShlIs(a1, size);
    hide Pow2, Sq, Shl;
    Words(x, p, a1, a0);
  }

  lemma ShlIs(a: nat, n: nat)
    ensures Shl(a, n) == a * Pow2(n)
  {
  }

  lemma Words(x: nat, p: nat, a1: nat, a0: nat)
    requires a0 < p
    ensures x == a1 * p + a0 <==> a1 == Hi(p, x) && a0 == Lo(p, x)
  {
    if x == a1 * p + a0 { DivModUnique(x, p, a1, a0); }
    Whole(x, p);
  }

  lemma Whole(x: nat, p: nat)
    requires p > 0
    ensures x == Hi(p, x) * p + Lo(p, x)
  {
  }
}
