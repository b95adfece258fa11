/** Section 4.3 leaves no freedom: an exact result, the sign of an exact zero and the flags before determine
    the delivered word and the flags after. */
module Uniqueness {
  import opened Powers
  import opened IeeeFormat
  import opened Rounding

  lemma SameWord(f: Format, r: nat, r': nat)
    requires f.Word(r) && f.Word(r') && f.Negative(r) == f.Negative(r') && f.MagBits(r) == f.MagBits(r')
    ensures r == r'
  {
    Fields(f, r);
    Fields(f, r');
  }

  lemma Fields(f: Format, r: nat)
    requires f.Word(r)
    ensures r == Encode(f, f.Negative(r), f.MagBits(r))
  {
    var s := f.SignBit();
    hide FormatSizes.SignBit;
    assert r == s * (r / s) + r % s;
    WordDigit(r, s);
  }

  lemma WordDigit(r: nat, s: nat)
    requires s > 0 && r < 2 * s
    ensures r / s == if r < s then 0 else 1
  {
    if r < s { DivModUnique(r, s, 0, r); } else { DivModUnique(r, s, 1, r - s); }
  }

  lemma SameMag(f: Format, a: nat, b: nat)
    requires Mag(f, a) == Mag(f, b)
    ensures a == b
  {
    if a < b { MagMono(f, a, b); }
    if b < a { MagMono(f, b, a); }
  }

  /** Words of the same sign with the same value are the same word. */
  lemma SameValue(f: Format, r: nat, r': nat)
    requires f.Word(r) && f.Word(r') && f.Negative(r) == f.Negative(r') && Abs(Value(f, r)) == Abs(Value(f, r'))
    ensures r == r'
  {
    hide Mag, FormatSizes.Negative, FormatSizes.MagBits, FormatSizes.Word;
    SameMag(f, f.MagBits(r), f.MagBits(r'));
    SameWord(f, r, r');
  }

  lemma Parity(f: Format, r: nat)
    requires f.Word(r)
    ensures r % 2 == f.MagBits(r) % 2
  {
    hide FormatSizes.SignBit, FormatSizes.MagBits, FormatSizes.Negative, FormatSizes.Inf;
    Fields(f, r);
    InfEven(f);
    EvenPlus(if f.Negative(r) then f.SignBit() else 0, f.MagBits(r));
  }

  lemma EvenPlus(s: nat, m: nat)
    requires s % 2 == 0
    ensures (s + m) % 2 == m % 2
  {
  }

  /** Of two even neighbours of the same sign neither is nearest: an odd word lies strictly between. */
  lemma EvenTie(f: Format, x: real, r: nat, r': nat)
    requires f.Finite(r) && f.Finite(r') && f.Negative(r) == f.Negative(r')
    requires r % 2 == 0 && r' % 2 == 0 && f.MagBits(r) < f.MagBits(r')
    requires Abs(Value(f, r) - x) == Abs(Value(f, r') - x)
    ensures exists z :: f.Finite(z) && Abs(Value(f, z) - x) < Abs(Value(f, r) - x)
  {
    Parity(f, r);
    Parity(f, r');
    var e, e' := f.MagBits(r), f.MagBits(r');
    var z := Encode(f, f.Negative(r), e + 1);
    EncodeFields(f, f.Negative(r), e + 1);
    MagSucc(f, e);
    MagMono(f, e + 1, e');
    hide Mag, FormatSizes.MagBits, FormatSizes.Negative, FormatSizes.Inf;
    assert Abs(Value(f, z) - x) < Abs(Value(f, r) - x);
  }

  lemma NearestUnique(f: Format, rm: RoundingMode, x: real, r: nat, r': nat)
    requires rm == RNE || rm == RMM
    requires CorrectlyRounded(f, rm, x, r) && CorrectlyRounded(f, rm, x, r') && f.Negative(r) == f.Negative(r')
    requires f.Finite(r) && f.Finite(r')
    ensures r == r'
  {
    assert NoCloser(f, rm, x, r, r') && NoCloser(f, rm, x, r', r);
    if Value(f, r) == Value(f, r') {
      SameValue(f, r, r');
    } else if rm == RNE {
      if f.MagBits(r) < f.MagBits(r') {
        EvenTie(f, x, r, r');
      } else if f.MagBits(r') < f.MagBits(r) {
        EvenTie(f, x, r', r);
      } else {
        SameWord(f, r, r');
      }
    }
  }

  lemma CorrectlyRoundedUnique(f: Format, rm: RoundingMode, x: real, r: nat, r': nat)
    requires CorrectlyRounded(f, rm, x, r) && CorrectlyRounded(f, rm, x, r') && f.Negative(r) == f.Negative(r')
    ensures r == r'
  {
    if f.Finite(r) && f.Finite(r') {
      if rm == RNE || rm == RMM {
        NearestUnique(f, rm, x, r, r');
      } else {
        hide Mag, FormatSizes.Inf, FormatSizes.MagBits, FormatSizes.Negative;
        assert Abs(Value(f, r)) == Abs(Value(f, r'));
        SameValue(f, r, r');
      }
    } else {
      hide Value, OverflowThreshold, NoCloser, FormatSizes.Inf, FormatSizes.MagBits, FormatSizes.Negative;
      assert !f.Finite(r) && !f.Finite(r');
      SameWord(f, r, r');
    }
  }

  /** The specification of an operation is a function of the exact result, the zero sign, the mode and the flags. */
  lemma DeliversUnique(f: Format, rm: RoundingMode, x: real, zeroSign: bool, before: Flags,
                       r: nat, after: Flags, r': nat, after': Flags)
    requires Delivers(f, rm, x, zeroSign, before, r, after) && Delivers(f, rm, x, zeroSign, before, r', after')
    ensures r == r' && after == after'
  {
    hide CorrectlyRounded, Exact, Tiny, Overflows, FormatSizes.Negative;
    CorrectlyRoundedUnique(f, rm, x, r, r');
  }
}
