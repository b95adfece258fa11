/** The double-word steps of fma_sf and normalize2_sf: shifts, addition with carry, subtraction with borrow. */
module DoubleWord {
  import opened Powers
  import opened IeeeFormat
  import opened Rounding
  import opened Jamming
  import opened RoundPack
  import opened Normalize

  /** The number held in the words `hi` and `lo` of `size` bits. */
  ghost function Wide(size: nat, hi: nat, lo: nat): nat {
    Shl(hi, size) + lo
  }

  lemma WideSplit(size: nat, hi: nat, lo: nat)
    requires lo < Pow2(size)
    ensures Wide(size, hi, lo) / Pow2(size) == hi && Wide(size, hi, lo) % Pow2(size) == lo
  {
    DivModUnique(Wide(size, hi, lo), Pow2(size), hi, lo);
  }

  lemma WideOrder(size: nat, hi: nat, lo: nat, hi': nat, lo': nat)
    requires lo < Pow2(size) && lo' < Pow2(size)
    ensures hi < hi' ==> Wide(size, hi, lo) < Wide(size, hi', lo')
    ensures hi == hi' ==> (Wide(size, hi, lo) <= Wide(size, hi', lo') <==> lo <= lo')
  {
    hide Shl, Pow2;
    if hi < hi' {
      ShlMono(hi + 1, hi', size);
      ShlSucc(hi, size);
    }
  }

  lemma WideBounds(size: nat, hi: nat, lo: nat, n: nat)
    requires lo < Pow2(size)
    ensures hi < Pow2(n) <==> Wide(size, hi, lo) < Pow2(size + n)
  {
    Pow2Add(size, n);
    WideSplit(size, hi, lo);
    QuotientBelow(Wide(size, hi, lo), Pow2(size), Pow2(n));
  }

  /** Left shift of a double word by at most a word, with no bits lost at the top. */
  method ShiftLeft(size: nat, hi: nat, lo: nat, d: nat) returns (hi': nat, lo': nat)
    requires d <= size && lo < Pow2(size) && Shl(Wide(size, hi, lo), d) < Pow2(size + size)
    ensures Wide(size, hi', lo') == Shl(Wide(size, hi, lo), d) && lo' < Pow2(size) && hi' < Pow2(size)
  {
    hide Shl, Pow2, Shr, Low;
    hi' := Shl(hi, d) + Shr(lo, size - d);
    lo' := Shl(Low(lo, size - d), d);
    LowShift(size, lo, d);
    ShlSum(Shl(hi, size), lo, d);
    ShlSum(Shl(hi, d), Shr(lo, size - d), size);
    ShlTwice(hi, size, d);
    ShlTwice(hi, d, size);
    WideBounds(size, hi', lo', size);
  }

  /** A word shifted left by `d` splits at the word boundary. */
  lemma LowShift(size: nat, lo: nat, d: nat)
    requires d <= size
    ensures Shl(lo, d) == Shl(Shr(lo, size - d), size) + Shl(Low(lo, size - d), d)
    ensures Shl(Low(lo, size - d), d) < Pow2(size)
  {
    hide Shl, Pow2, Shr, Low;
    var q, r := Shr(lo, size - d), Low(lo, size - d);
    ShrLow(lo, size - d);
    ShlSum(Shl(q, size - d), r, d);
    ShlTwice(q, size - d, d);
    ShlMono(r, Pow2(size - d), d);
    ShlPow(size - d, d);
  }

  /** r_mant0 += c_mant0; r_mant1 += c_mant1 + carry. */
  method AddWide(size: nat, hi: nat, lo: nat, chi: nat, clo: nat) returns (hi': nat, lo': nat)
    requires lo < Pow2(size) && clo < Pow2(size)
    requires Wide(size, hi, lo) + Wide(size, chi, clo) < Pow2(size + size)
    ensures Wide(size, hi', lo') == Wide(size, hi, lo) + Wide(size, chi, clo) && lo' < Pow2(size) && hi' < Pow2(size)
  {
    var word := Pow2(size);
    lo' := (lo + clo) % word;
    SumWraps(lo, clo, word);
    hi' := hi + chi + (if lo' < clo then 1 else 0);
    ShlSum(hi, chi, size);
    ShlSucc(hi + chi, size);
    hide Shl, Pow2;
    WideBounds(size, hi', lo', size);
  }

  lemma SumWraps(a: nat, b: nat, word: nat)
    requires a < word && b < word
    ensures (a + b) % word == (if a + b < word then a + b else a + b - word)
  {
    DivModUnique(a + b, word, if a + b < word then 0 else 1, if a + b < word then a + b else a + b - word);
  }

  /** r_mant0 -= c_mant0; r_mant1 = r_mant1 - c_mant1 - borrow. */
  method SubWide(size: nat, hi: nat, lo: nat, chi: nat, clo: nat) returns (hi': nat, lo': nat)
    requires lo < Pow2(size) && clo < Pow2(size)
    requires Wide(size, chi, clo) <= Wide(size, hi, lo)
    ensures Wide(size, hi', lo') == Wide(size, hi, lo) - Wide(size, chi, clo) && lo' < Pow2(size) && hi' <= hi
  {
    var word := Pow2(size);
    lo' := (lo + word - clo) % word;
    DifferenceWraps(lo, clo, word);
    WideOrder(size, hi, lo, chi, clo);
    hide Shl, Pow2;
    var borrow := if lo' > lo then 1 else 0;
    hi' := hi - chi - borrow;
    ShlSum(hi', chi + borrow, size);
    ShlSucc(chi, size);
  }

  lemma DifferenceWraps(a: nat, b: nat, word: nat)
    requires a < word && b < word
    ensures (a + word - b) % word == (if b <= a then a - b else a + word - b)
  {
    DivModUnique(a + word - b, word, if b <= a then 1 else 0, if b <= a then a - b else a + word - b);
  }

  // ----- right shift with the lost bits jammed

  lemma JamShiftIs(m: nat, d: nat)
    ensures JamShift(m, d) == Jam(Shr(m, d), Low(m, d) != 0)
  {
  }

  lemma JamWide(size: nat, hi: nat, lo: nat, sticky: bool)
    requires size > 0 && lo < Pow2(size)
    ensures Jam(Wide(size, hi, lo), sticky) == Wide(size, hi, Jam(lo, sticky)) && Jam(lo, sticky) < Pow2(size)
  {
    hide Shl, Pow2;
    Pow2Even(size);
    ShlEven(hi, size);
  }

  /** A shift by less than a word moves low bits of the high word into the low word. */
  lemma ShiftedWide(size: nat, hi: nat, lo: nat, s: nat)
    requires s <= size && lo < Pow2(size)
    ensures var lo' := Shl(Low(hi, s), size - s) + Shr(lo, s);
      lo' < Pow2(size) && Shr(Wide(size, hi, lo), s) == Wide(size, Shr(hi, s), lo')
    ensures Low(Wide(size, hi, lo), s) == Low(lo, s)
  {
    hide Shl, Pow2, Shr, Low;
    var hq, hr, lq, lr := Shr(hi, s), Low(hi, s), Shr(lo, s), Low(lo, s);
    ShrLow(hi, s);
    ShrLow(lo, s);
    ShlSum(Shl(hq, s), hr, size);
    ShlTwice(hq, s, size);
    ShlTwice(hq, size, s);
    ShlTwice(hr, size - s, s);
    ShlSum(Shl(hr, size - s), lq, s);
    ShlSum(Shl(hq, size), Shl(hr, size - s) + lq, s);
    ShrLowUnique(Wide(size, hi, lo), s, Wide(size, hq, Shl(hr, size - s) + lq), lr);
    ShlMono(hr + 1, Pow2(s), size - s);
    ShlPow(s, size - s);
    ShlSucc(hr, size - s);
    ShrBelow(lo, s, size);
  }

  lemma ShrBelow(a: nat, s: nat, size: nat)
    requires s <= size && a < Pow2(size)
    ensures Shr(a, s) < Pow2(size - s)
  {
    Pow2Add(size - s, s);
    QuotientBelow(a, Pow2(s), Pow2(size - s));
  }

  /** A shift by a word and more only keeps bits of the high word. */
  lemma ShiftedFar(size: nat, hi: nat, d: nat)
    ensures Shr(Shl(hi, size), size + d) == Shr(hi, d)
    ensures Low(Shl(hi, size), size + d) != 0 <==> Low(hi, d) != 0
  {
    hide Shl, Pow2, Shr, Low;
    var q, r := Shr(hi, d), Low(hi, d);
    ShrLow(hi, d);
    ShlSum(Shl(q, d), r, size);
    ShlTwice(q, d, size);
    ShlMono(r, Pow2(d), size);
    ShlPow(d, size);
    ShrLowUnique(Shl(hi, size), size + d, q, Shl(r, size));
    ShlOne(size);
    ShlMono(0, r, size);
  }

  lemma ShrToZero(a: nat, d: nat)
    requires a < Pow2(d)
    ensures Shr(a, d) == 0 && Low(a, d) == a
  {
    ShlOne(d);
    ShrLowUnique(a, d, 0, a);
  }

  /** The alignment shift of fma_sf. Past a word it drops the low word: then only the size of the result matters. */
  method ShiftRightJam(f: Format, hi: nat, lo: nat, shift: nat) returns (hi': nat, lo': nat)
    requires hi < Pow2(f.Size()) && lo < Pow2(f.Size())
    ensures lo' < Pow2(f.Size())
    ensures shift <= f.Size() || lo == 0 ==>
      Wide(f.Size(), hi', lo') == JamShift(Wide(f.Size(), hi, lo), shift)
    ensures shift > f.Size() ==> hi' == 0 && (hi > 0 ==> lo' > 0)
  {
    var size := f.Size();
    hide Shl, Pow2, Shr, Low, Jam, JamShift;
    if shift >= 2 * size {
      lo' := if lo != 0 || hi != 0 then 1 else 0;
      hi' := 0;
      FarShift(size, hi, shift, lo');
    } else if shift >= size + 1 {
      lo' := RshiftRnd(f, hi, shift - size);
      hi' := 0;
      MiddleShift(f, hi, shift, lo');
    } else if shift == size {
      lo' := Jam(hi, lo != 0);
      hi' := 0;
      WordShift(size, hi, lo);
    } else if shift != 0 {
      lo' := Jam(Shl(Low(hi, shift), size - shift) + Shr(lo, shift), Low(lo, shift) != 0);
      hi' := Shr(hi, shift);
      NearShift(size, hi, lo, shift);
    } else {
      hi', lo' := hi, lo;
      NoJam(Wide(size, hi, lo));
    }
  }

  lemma NoJam(a: nat)
    ensures JamShift(a, 0) == a
  {
  }

  lemma NearShift(size: nat, hi: nat, lo: nat, s: nat)
    requires 0 < s < size && lo < Pow2(size)
    ensures var lo' := Jam(Shl(Low(hi, s), size - s) + Shr(lo, s), Low(lo, s) != 0);
      lo' < Pow2(size) && Wide(size, Shr(hi, s), lo') == JamShift(Wide(size, hi, lo), s)
  {
    hide Shl, Pow2, Shr, Low;
    ShiftedWide(size, hi, lo, s);
    JamShiftIs(Wide(size, hi, lo), s);
    hide JamShift, Wide, Jam;
    JamWide(size, Shr(hi, s), Shl(Low(hi, s), size - s) + Shr(lo, s), Low(lo, s) != 0);
  }

  lemma WordShift(size: nat, hi: nat, lo: nat)
    requires size > 0 && hi < Pow2(size) && lo < Pow2(size)
    ensures Jam(hi, lo != 0) < Pow2(size)
    ensures Wide(size, 0, Jam(hi, lo != 0)) == JamShift(Wide(size, hi, lo), size)
  {
    ShrLowUnique(Wide(size, hi, lo), size, hi, lo);
    JamShiftIs(Wide(size, hi, lo), size);
    JamWide(size, 0, hi, lo != 0);
    ShlOne(size);
  }

  lemma MiddleShift(f: Format, hi: nat, shift: nat, lo': nat)
    requires hi < Pow2(f.Size()) && shift > f.Size() && lo' == RshiftRnd(f, hi, shift - f.Size())
    ensures lo' < Pow2(f.Size()) && (hi > 0 ==> lo' > 0)
    ensures Wide(f.Size(), 0, lo') == JamShift(Wide(f.Size(), hi, 0), shift)
  {
    var size := f.Size();
    RshiftIsJam(f, hi, shift - size);
    JamShiftIs(hi, shift - size);
    ShiftedFar(size, hi, shift - size);
    JamShiftIs(Shl(hi, size), shift);
    ShlOne(size);
    ShrLow(hi, shift - size);
    ShlOne(shift - size);
    hide Shl, Pow2, Shr, Low, JamShift;
    ShrSmaller(hi, shift - size);
  }

  lemma ShrSmaller(a: nat, d: nat)
    ensures Shr(a, d) <= a && (d > 0 && a > 0 ==> Shr(a, d) < a)
  {
    ShrLow(a, d);
    var q := Shr(a, d);
    if d > 0 && q > 0 { Pow2Mono(1, d); TimesMono(2, Pow2(d), q); assert Shl(q, d) == Times(Pow2(d), q); }
    if d == 0 { ShlZero(q); }
  }

  lemma FarShift(size: nat, hi: nat, shift: nat, lo': nat)
    requires size > 0 && hi < Pow2(size) && shift >= 2 * size && lo' <= 1
    ensures lo' < Pow2(size)
    ensures (lo' == if hi != 0 then 1 else 0) ==> Wide(size, 0, lo') == JamShift(Wide(size, hi, 0), shift)
  {
    ShlOne(size);
    WideBounds(size, hi, 0, size);
    Pow2Mono(size + size, shift);
    ShrToZero(Wide(size, hi, 0), shift);
    JamShiftIs(Wide(size, hi, 0), shift);
    ShlMono(0, hi, size);
    Pow2Mono(1, size);
  }
}
