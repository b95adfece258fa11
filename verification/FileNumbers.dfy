/** Numbers and times in the file list (build_filelist.c: scan_dir; fs_utils.c: parse_uint32_base, parse_uint64_base,
    parse_time). The library's strtoul is that of a host whose unsigned long has 64 bits. */
module FileNumbers {
  import opened Quotients
  import opened FileText
  import opened Widths

  const ZERO: Byte := 48
  const BILLION: nat := 1000000000

  // ----- printing

  /** The digits of a number. */
  function Digits(n: nat, base: nat): (s: Text)
    requires 2 <= base <= 16
    ensures s != []
  {
    if n < base then [HexDigit(n)] else Digits(n / base, base) + [HexDigit(n % base)]
  }

  /** Digits with zeros in front, at least `width` of them. */
  function Padded(n: nat, base: nat, width: nat): Text
    requires 2 <= base <= 16
  {
    var s := Digits(n, base);
    if |s| < width then seq(width - |s|, i => ZERO) + s else s
  }

  /** The digits at the end, zeros in front of them, and no more than it takes. */
  lemma PaddedIs(n: nat, base: nat, width: nat)
    requires 2 <= base <= 16
    ensures var d, s := Digits(n, base), Padded(n, base, width); var k := |s| - |d|;
            0 <= k && s[k..] == d && (k > 0 ==> |s| == width) && (forall i :: 0 <= i < k ==> s[i] == '0' as int) &&
            width <= |s|
  {
    hide Digits;
  }

  lemma {:induction false} FirstDigit(n: nat, base: nat)
    requires 2 <= base <= 16
    ensures Digits(n, base)[0] == ZERO <==> n == 0
  {
    if n >= base {
      FirstDigit(n / base, base);
      Positive(n, base);
      assert Digits(n, base)[0] == Digits(n / base, base)[0];
    }
  }

  lemma Positive(n: nat, base: nat)
    requires 0 < base <= n
    ensures n / base > 0
  {
  }

  // ----- reading

  /** The value of a digit, or -1. */
  function Digit(c: Byte, base: nat): (d: int)
    ensures -1 <= d < base
  {
    var h := HexValue(c);
    if h < base then h else -1
  }

  function ReadDigits(t: Text, p: nat, base: nat, acc: nat): (r: (nat, nat))
    requires p <= |t|
    ensures p <= r.1 <= |t|
    decreases |t| - p
  {
    var d := Digit(Char(t, p), base);
    if p == |t| || d < 0 then (acc, p) else ReadDigits(t, p + 1, base, acc * base + d)
  }

  /** Whether a hexadecimal number with a prefix begins here. */
  predicate HexPrefix(t: Text, p: nat) {
    Char(t, p) == ZERO && (Char(t, p + 1) == 120 || Char(t, p + 1) == 88) && Digit(Char(t, p + 2), 16) >= 0
  }

  /** The digits that strtoul reads; base 0 is decimal unless there is a prefix. */
  function Magnitude(t: Text, p: nat, base: nat): (r: Parsed<nat>)
    requires p <= |t|
    ensures r.Done? ==> p < r.next <= |t|
  {
    if (base == 0 || base == 16) && HexPrefix(t, p) then
      var (v, q) := ReadDigits(t, p + 2, 16, 0);
      Done(v, q)
    else
      var b := if base == 0 then (if Char(t, p) == ZERO then 8 else 10) else base;
      var (v, q) := ReadDigits(t, p, b, 0);
      if q == p then Fail else Done(v, q)
  }

  const MINUS: Byte := 45
  const PLUS: Byte := 43

  /** isspace */
  predicate IsWhite(c: Byte) { c == SPACE || 9 <= c <= 13 }

  function SkipWhite(t: Text, p: nat): (q: nat)
    requires p <= |t|
    ensures p <= q <= |t|
    decreases |t| - p
  {
    if IsWhite(Char(t, p)) then SkipWhite(t, p + 1) else p
  }

  /** A magnitude that does not fit is the largest number; one behind a minus sign is negated. */
  function Fitted(v: nat, negative: bool): (n: nat)
    ensures n < U64 && (v < U64 && !negative ==> n == v)
  {
    if v >= U64 then U64 - 1 else if negative then (U64 - v) % U64 else v
  }

  /** strtoul, strtoull */
  function Strtoul(t: Text, p: nat, base: nat): (r: Parsed<nat>)
    requires p <= |t|
    ensures r.Done? ==> p < r.next <= |t| && r.value < U64
  {
    var q := SkipWhite(t, p);
    var c := Char(t, q);
    match Magnitude(t, if c == MINUS || c == PLUS then q + 1 else q, base)
    case Fail => Fail
    case Done(v, end) => Done(Fitted(v, c == MINUS), end)
  }

  /** parse_uint32_base, parse_uint64_base: the number is stored in a word that holds the numbers below `width`. */
  function NumberAt(t: Text, p: nat, base: nat, width: nat): (r: Parsed<nat>)
    requires p <= |t| && 0 < width
    ensures r.Done? ==> p < r.next <= |t| && r.value < width
  {
    match Strtoul(t, SkipSpaces(t, p), base)
    case Fail => Fail
    case Done(v, q) => Done(v % width, q)
  }

  // ----- numbers are read back

  lemma DigitBack(d: nat, base: nat)
    requires d < base <= 16
    ensures Digit(HexDigit(d), base) == d
  {
  }

  lemma {:induction false} DigitsBack(t: Text, p: nat, n: nat, base: nat)
    requires 2 <= base <= 16 && At(t, p, Digits(n, base))
    ensures p + |Digits(n, base)| <= |t|
    ensures ReadDigits(t, p, base, 0) == ReadDigits(t, p + |Digits(n, base)|, base, n)
  {
    hide *;
    DigitsDef(n, base);
    if n < base {
      OneDigit(t, p, n, base, 0);
    } else {
      var q, d := n / base, n % base;
      Split(n, base);
      AtSplit(t, p, Digits(q, base), [HexDigit(d)]);
      DigitsBack(t, p, q, base);
      OneDigit(t, p + |Digits(q, base)|, d, base, q);
    }
  }

  lemma DigitsDef(n: nat, base: nat)
    requires 2 <= base <= 16
    ensures Digits(n, base) == if n < base then [HexDigit(n)] else Digits(n / base, base) + [HexDigit(n % base)]
  {
  }

  lemma OneDigit(t: Text, p: nat, d: nat, base: nat, acc: nat)
    requires d < base <= 16 && At(t, p, [HexDigit(d)])
    ensures p < |t| && ReadDigits(t, p, base, acc) == ReadDigits(t, p + 1, base, acc * base + d)
  {
    DigitBack(d, base);
    AtChar(t, p, [HexDigit(d)], 0);
  }

  lemma EndOfDigits(t: Text, p: nat, base: nat, acc: nat)
    requires p <= |t| && Digit(Char(t, p), base) < 0
    ensures ReadDigits(t, p, base, acc) == (acc, p)
  {
  }

  /** A character that ends every number. */
  predicate EndsNumber(c: Byte) { c == SPACE || c == NEWLINE || c == DOT }

  /** After a space, a number that is printed in a base is read back in it; decimal numbers also in base 0. */
  lemma NumberBack(t: Text, p: nat, n: nat, base: nat, width: nat, d: Byte)
    requires (base == 8 || base == 10 || base == 16) && EndsNumber(d) && At(t, p, [SPACE] + Digits(n, base) + [d])
    requires n < width <= U64
    ensures p <= |t| && NumberAt(t, p, if base == 10 then 0 else base, width) == Done(n, p + 1 + |Digits(n, base)|)
  {
    hide *;
    var s := Digits(n, base);
    assert [SPACE] + s + [d] == [SPACE] + (s + [d]);
    AtSplit(t, p, [SPACE], s + [d]);
    AtSplit(t, p + 1, s, [d]);
    AtChar(t, p + 1, s, 0);
    AtChar(t, p + 1 + |s|, [d], 0);
    DigitsBegin(n, base);
    OneSpace(t, p);
    MagnitudeBack(t, p + 1, n, base);
    Stored(t, p, p + 1, if base == 10 then 0 else base, n, p + 1 + |s|, width);
  }

  lemma OneSpace(t: Text, p: nat)
    requires At(t, p, [SPACE]) && 48 <= Char(t, p + 1)
    ensures p < |t| && SkipSpaces(t, p) == p + 1
  {
    AtChar(t, p, [SPACE], 0);
    assert SkipSpaces(t, p + 1) == p + 1;
  }

  lemma {:induction false} DigitsBegin(n: nat, base: nat)
    requires 2 <= base <= 16
    ensures 48 <= Digits(n, base)[0]
  {
    if n >= base { DigitsBegin(n / base, base); }
  }

  /** A number without a sign that fits is stored as it is. */
  lemma Stored(t: Text, p: nat, q: nat, base: nat, n: nat, end: nat, width: nat)
    requires p <= |t| && q <= |t| && SkipSpaces(t, p) == q && 48 <= Char(t, q) && n < width <= U64
    requires Magnitude(t, q, base) == Done(n, end)
    ensures NumberAt(t, p, base, width) == Done(n, end)
  {
    hide SkipSpaces, Magnitude, Fitted;
    assert SkipWhite(t, q) == q;
    SmallRemainder(n, width);
  }

  lemma SmallRemainder(n: nat, width: nat)
    requires n < width
    ensures n % width == n
  {
  }

  lemma MagnitudeBack(t: Text, p: nat, n: nat, base: nat)
    requires (base == 8 || base == 10 || base == 16) && At(t, p, Digits(n, base)) &&
             EndsNumber(Char(t, p + |Digits(n, base)|))
    ensures p <= |t| && Magnitude(t, p, if base == 10 then 0 else base) == Done(n, p + |Digits(n, base)|)
  {
    var s := Digits(n, base);
    FirstDigit(n, base);
    AtChar(t, p, s, 0);
    DigitsBack(t, p, n, base);
    hide At;
    EndOfDigits(t, p + |s|, base, n);
    if n == 0 {
      if base == 10 {
        EndOfDigits(t, p + 1, 8, 0);
      }
    }
  }

  lemma {:induction false} ZerosBack(t: Text, p: nat, k: nat, base: nat)
    requires 2 <= base <= 16 && At(t, p, seq(k, i => ZERO))
    ensures p + k <= |t| && ReadDigits(t, p, base, 0) == ReadDigits(t, p + k, base, 0)
    decreases k
  {
    if k > 0 {
      var z: Text := seq(k, i => ZERO);
      AtChar(t, p, z, 0);
      assert z == [ZERO] + seq(k - 1, i => ZERO);
      AtSplit(t, p, [ZERO], seq(k - 1, i => ZERO));
      ZerosBack(t, p + 1, k - 1, base);
    }
  }

  /** A padded octal number at the start of a line. */
  lemma PaddedBack(t: Text, p: nat, n: nat, width: nat, bound: nat)
    requires At(t, p, Padded(n, 8, width)) && EndsNumber(Char(t, p + |Padded(n, 8, width)|)) && n < bound <= U64
    ensures p <= |t| && NumberAt(t, p, 8, bound) == Done(n, p + |Padded(n, 8, width)|)
  {
    hide *;
    var s, x := Digits(n, 8), Padded(n, 8, width);
    var q := if |s| < width then p + width - |s| else p;
    PaddedBegins(t, p, n, width);
    if |s| < width {
      AtSplit(t, p, seq(width - |s|, i => ZERO), s);
      ZerosBack(t, p, width - |s|, 8);
    }
    DigitsBack(t, q, n, 8);
    OctalEnds(t, q + |s|, n);
    OctalIs(t, p, n, p + |x|);
    Stored(t, p, p, 8, n, p + |x|, bound);
  }

  lemma PaddedBegins(t: Text, p: nat, n: nat, width: nat)
    requires At(t, p, Padded(n, 8, width))
    ensures p <= |t| && SkipSpaces(t, p) == p && 48 <= Char(t, p) && 0 < |Padded(n, 8, width)|
    ensures var s := Digits(n, 8);
            Padded(n, 8, width) == if |s| < width then seq(width - |s|, i => ZERO) + s else s
  {
    DigitsBegin(n, 8);
    AtChar(t, p, Padded(n, 8, width), 0);
    hide At, Digits;
  }

  lemma OctalEnds(t: Text, p: nat, n: nat)
    requires p <= |t| && EndsNumber(Char(t, p))
    ensures ReadDigits(t, p, 8, n) == (n, p)
  {
    EndOfDigits(t, p, 8, n);
  }

  lemma OctalIs(t: Text, p: nat, n: nat, end: nat)
    requires p <= |t| && p < end && ReadDigits(t, p, 8, 0) == (n, end)
    ensures Magnitude(t, p, 8) == Done(n, end)
  {
    hide ReadDigits;
  }

  // ----- times

  function Ten(k: nat): (n: nat)
    ensures n > 0
  {
    if k == 0 then 1 else 10 * Ten(k - 1)
  }

  /** The digits after the point of `w` parts of 10^k, without zeros at the end. */
  function Fraction(w: nat, k: nat): Text
    requires w < Ten(k)
  {
    if w == 0 then [] else [TenthDigit(w, k)] + Fraction(w % Ten(k - 1), k - 1)
  }

  function TenthDigit(w: nat, k: nat): Byte
    requires 0 < w < Ten(k)
  {
    FirstTenth(w, k);
    48 + w / Ten(k - 1)
  }

  lemma FirstTenth(w: nat, k: nat)
    requires 0 < w < Ten(k)
    ensures k > 0 && w / Ten(k - 1) < 10
  {
    var m := Ten(k - 1);
    Split(w, m);
    if w / m >= 10 { Monotone(10, w / m, m); }
  }

  function TimeText(sec: nat, nsec: nat): Text
    requires nsec < BILLION
  {
    TenNine();
    Digits(sec, 10) + if nsec == 0 then [] else [DOT] + Fraction(nsec, 9)
  }

  lemma TenNine()
    ensures Ten(9) == BILLION && Ten(8) == 100000000
  {
    assert Ten(4) == 10000;
  }

  /** A part of 10^k, as the code keeps it: scaled to 10^9. */
  lemma ScaledDigit(w: nat, k: nat, v: nat)
    requires 0 < w < Ten(k) && k <= 9 && v == w * Ten(9 - k)
    ensures k > 0 && v / 100000000 == w / Ten(k - 1)
    ensures v % 100000000 * 10 == w % Ten(k - 1) * Ten(10 - k)
  {
    FirstTenth(w, k);
    TenNine();
    TenProduct(k - 1, 9 - k);
    assert Ten(10 - k) == 10 * Ten(9 - k);
    hide Ten;
    ScaledQuotient(w, Ten(k - 1), Ten(9 - k), v);
    Tenfold(w % Ten(k - 1), Ten(9 - k));
  }

  lemma ScaledQuotient(w: nat, a: nat, c: nat, v: nat)
    requires 0 < a && 0 < c && v == w * c
    ensures 0 < a * c && v / (a * c) == w / a && v % (a * c) == w % a * c
  {
    var q, r := w / a, w % a;
    Split(w, a);
    Distribute(q, a, r, c);
    Monotone(r + 1, a, c);
    assert (r + 1) * c == r * c + c;
    Monotone(1, a, c);
    Unique(q, a * c, v);
  }

  lemma Tenfold(r: nat, c: nat)
    ensures r * c * 10 == r * (10 * c)
  {
  }

  lemma Distribute(q: nat, a: nat, r: nat, c: nat)
    ensures (q * a + r) * c == q * (a * c) + r * c
  {
    Product(q, a, c);
  }

  lemma {:induction false} TenProduct(i: nat, j: nat)
    ensures Ten(i) * Ten(j) == Ten(i + j)
  {
    if i > 0 {
      TenProduct(i - 1, j);
      Product(10, Ten(i - 1), Ten(j));
    }
  }

  /** The loop that prints the nanoseconds. */
  method PrintTime(f: Text, sec: nat, nsec: nat) returns (out: Text)
    requires nsec < BILLION
    ensures out == f + TimeText(sec, nsec)
  {
    hide *;
    TimeTextParts(f, sec, nsec);
    out := f + Digits(sec, 10);
    if nsec != 0 {
      out := PrintFraction(out + [DOT], nsec);
    }
  }

  lemma TimeTextParts(f: Text, sec: nat, nsec: nat)
    requires nsec < BILLION
    ensures nsec < Ten(9)
    ensures f + TimeText(sec, nsec) ==
            if nsec == 0 then f + Digits(sec, 10) else f + Digits(sec, 10) + [DOT] + Fraction(nsec, 9)
  {
    TenNine();
    hide Digits, Fraction, Ten;
  }

  method PrintFraction(f: Text, nsec: nat) returns (out: Text)
    requires nsec < Ten(9) && nsec < BILLION
    ensures out == f + Fraction(nsec, 9)
  {
    TenNine();
    NoScale(nsec);
    hide Fraction, Ten;
    out := f;
    var v: nat := nsec;
    ghost var w, k: nat := nsec, 9;
    while v != 0
      invariant k <= 9 && w < Ten(k) && v == w * Ten(9 - k) && out + Fraction(w, k) == f + Fraction(nsec, 9)
      decreases k
    {
      PositiveParts(w, k, v);
      ScaledDigit(w, k, v);
      FractionStep(out, w, k);
      out := out + [48 + v / 100000000];
      v := v % 100000000 * 10;
      w, k := w % Ten(k - 1), k - 1;
    }
    PositiveParts(w, k, v);
    FractionDef(w, k);
  }

  lemma NoScale(n: nat)
    ensures n == n * Ten(0)
  {
  }

  lemma PositiveParts(w: nat, k: nat, v: nat)
    requires k <= 9 && v == w * Ten(9 - k)
    ensures v == 0 <==> w == 0
  {
    if w > 0 { Monotone(1, w, Ten(9 - k)); }
  }

  lemma FractionStep(out: Text, w: nat, k: nat)
    requires 0 < w < Ten(k)
    ensures k > 0 && w % Ten(k - 1) < Ten(k - 1) && 0 <= 48 + w / Ten(k - 1) < 256
    ensures out + Fraction(w, k) == out + [48 + w / Ten(k - 1)] + Fraction(w % Ten(k - 1), k - 1)
  {
    FirstTenth(w, k);
  }

  /** The loop of parse_time: each digit counts a tenth of the one before it. */
  function ReadFraction(t: Text, p: nat, m: nat, acc: nat): (r: (nat, nat))
    requires p <= |t|
    ensures p <= r.1 <= |t|
    decreases |t| - p
  {
    if p < |t| && 48 <= t[p] <= 57 then ReadFraction(t, p + 1, m / 10, acc + Weight(t[p] - 48, m / 10)) else (acc, p)
  }

  /** What a digit adds. */
  function Weight(d: nat, m: nat): nat { d * m }

  lemma ReadFractionStep(t: Text, p: nat, m: nat, acc: nat)
    requires p <= |t|
    ensures 48 <= Char(t, p) <= 57 ==>
              p < |t| && ReadFraction(t, p, m, acc) == ReadFraction(t, p + 1, m / 10, acc + Weight(t[p] - 48, m / 10))
    ensures !(48 <= Char(t, p) <= 57) ==> ReadFraction(t, p, m, acc) == (acc, p)
  {
    hide Weight;
  }

  datatype Time = Time(sec: nat, nsec: nat)

  /** What parse_time reads. */
  function TimeAt(t: Text, p: nat): (r: Parsed<Time>)
    requires p <= |t|
    ensures r.Done? ==> p < r.next <= |t|
  {
    match NumberAt(t, p, 0, U32)
    case Fail => Fail
    case Done(sec, q) =>
      if Char(t, q) == DOT then
        var (v, n) := ReadFraction(t, q + 1, BILLION, 0);
        Done(Time(sec, v), n)
      else Done(Time(sec, 0), q)
  }

  /** parse_time */
  method ParseTime(t: Text, p: nat) returns (r: Parsed<Time>)
    requires p <= |t|
    ensures r == TimeAt(t, p)
  {
    var sec := NumberAt(t, p, 0, U32);
    if sec.Fail? {
      return Fail;
    }
    if Char(t, sec.next) != DOT {
      return Done(Time(sec.value, 0), sec.next);
    }
    var v, n := ParseFraction(t, sec.next + 1);
    r := Done(Time(sec.value, v), n);
  }

  method ParseFraction(t: Text, p: nat) returns (v: nat, q: nat)
    requires p <= |t|
    ensures (v, q) == ReadFraction(t, p, BILLION, 0)
  {
    hide Weight, ReadFraction;
    var m := BILLION;
    v, q := 0, p;
    while 48 <= Char(t, q) <= 57
      invariant q <= |t| && 0 <= m && ReadFraction(t, p, BILLION, 0) == ReadFraction(t, q, m, v)
      decreases |t| - q
    {
      ReadFractionStep(t, q, m, v);
      m := m / 10;
      v := v + Weight(t[q] - 48, m);
      q := q + 1;
    }
    ReadFractionStep(t, q, m, v);
  }

  lemma {:induction false} FractionBack(t: Text, p: nat, w: nat, k: nat, acc: nat)
    requires w < Ten(k) && At(t, p, Fraction(w, k)) && EndsNumber(Char(t, p + |Fraction(w, k)|))
    ensures p <= |t| && ReadFraction(t, p, Ten(k), acc) == (acc + w, p + |Fraction(w, k)|)
    decreases k
  {
    hide *;
    FractionDef(w, k);
    if w == 0 {
      FractionEnd(t, p, Ten(k), acc);
    } else {
      var m := Ten(k - 1);
      var d, rest := w / m, w % m;
      AtSplit(t, p, [TenthDigit(w, k)], Fraction(rest, k - 1));
      AtChar(t, p, [TenthDigit(w, k)], 0);
      AtLength(t, p, [TenthDigit(w, k)]);
      ReadFractionStep(t, p, Ten(k), acc);
      FractionBack(t, p + 1, rest, k - 1, acc + Weight(d, m));
      SplitWeight(w, m);
    }
  }

  lemma AtLength(t: Text, p: nat, s: Text)
    requires At(t, p, s)
    ensures p + |s| <= |t|
  {
  }

  lemma SplitWeight(w: nat, m: nat)
    requires 0 < m
    ensures w == Weight(w / m, m) + w % m
  {
    Split(w, m);
  }

  lemma FractionDef(w: nat, k: nat)
    requires w < Ten(k)
    ensures w == 0 ==> Fraction(w, k) == []
    ensures w > 0 ==> k > 0 && Ten(k) / 10 == Ten(k - 1) && w % Ten(k - 1) < Ten(k - 1) && w / Ten(k - 1) < 10
    ensures w > 0 ==> TenthDigit(w, k) == 48 + w / Ten(k - 1)
    ensures w > 0 ==> Fraction(w, k) == [TenthDigit(w, k)] + Fraction(w % Ten(k - 1), k - 1)
  {
    if w > 0 { FirstTenth(w, k); }
  }

  lemma FractionEnd(t: Text, p: nat, m: nat, acc: nat)
    requires At(t, p, []) && EndsNumber(Char(t, p))
    ensures p <= |t| && ReadFraction(t, p, m, acc) == (acc, p)
  {
  }

  /** A time is read back to the nanosecond. */
  lemma TimeBack(t: Text, p: nat, sec: nat, nsec: nat)
    requires sec < U32 && nsec < BILLION && At(t, p, [SPACE] + TimeText(sec, nsec) + [SPACE])
    ensures p <= |t| && TimeAt(t, p) == Done(Time(sec, nsec), p + 1 + |TimeText(sec, nsec)|)
  {
    hide *;
    var s := Digits(sec, 10);
    TimeTextIs(sec, nsec);
    if nsec == 0 {
      NumberBack(t, p, sec, 10, U32, SPACE);
      AtChar(t, p, [SPACE] + s + [SPACE], 1 + |s|);
      TimeAtIs(t, p, sec, p + 1 + |s|);
    } else {
      var f := Fraction(nsec, 9);
      AtSplit(t, p, [SPACE] + s + [DOT], f + [SPACE]);
      NumberBack(t, p, sec, 10, U32, DOT);
      AtChar(t, p, [SPACE] + s + [DOT], 1 + |s|);
      TimeAtIs(t, p, sec, p + 1 + |s|);
      AtSplit(t, p + 2 + |s|, f, [SPACE]);
      AtChar(t, p + 2 + |s| + |f|, [SPACE], 0);
      FractionBack(t, p + 2 + |s|, nsec, 9, 0);
    }
  }

  lemma TimeTextIs(sec: nat, nsec: nat)
    requires nsec < BILLION
    ensures nsec < Ten(9) && Ten(9) == BILLION && EndsNumber(SPACE) && EndsNumber(DOT) && SPACE != DOT && U32 <= U64
    ensures var s := Digits(sec, 10); var x := TimeText(sec, nsec);
            if nsec == 0 then x == s && [SPACE] + x + [SPACE] == [SPACE] + s + [SPACE]
            else |x| == |s| + 1 + |Fraction(nsec, 9)|
                 && [SPACE] + x + [SPACE] == ([SPACE] + s + [DOT]) + (Fraction(nsec, 9) + [SPACE])
  {
    TenNine();
    hide Digits, Fraction, Ten;
  }

  lemma TimeAtIs(t: Text, p: nat, sec: nat, q: nat)
    requires p <= |t| && NumberAt(t, p, 0, U32) == Done(sec, q)
    ensures q <= |t| && (Char(t, q) != DOT ==> TimeAt(t, p) == Done(Time(sec, 0), q))
    ensures Char(t, q) == DOT ==> q < |t|
    ensures Char(t, q) == DOT ==>
              TimeAt(t, p) == Done(Time(sec, ReadFraction(t, q + 1, BILLION, 0).0),
                                   ReadFraction(t, q + 1, BILLION, 0).1)
  {
    hide NumberAt, ReadFraction;
  }
}
