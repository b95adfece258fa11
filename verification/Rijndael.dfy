/** AES without tables (FIPS 197): multiplication of polynomials, the substitution by inverses, and the rounds on an
    array of bytes. The cipher of the tables is this one. */
module Rijndael {
  import opened Aes
  import opened AesKeys
  import opened CbcFile

  // ----- section 4.2: bytes as polynomials

  /** What bit `i` of `b` contributes to the product. */
  function Term(a: bv16, b: bv16, i: bv16): bv16
    requires i < 8
  {
    if (b >> i) & 1 == 1 then a << i else 0
  }

  /** The product of two polynomials with coefficients modulo 2. */
  function Product(a: bv8, b: bv8): bv16 {
    var x, y := a as bv16, b as bv16;
    Term(x, y, 0) ^ Term(x, y, 1) ^ Term(x, y, 2) ^ Term(x, y, 3) ^ Term(x, y, 4) ^ Term(x, y, 5) ^ Term(x, y, 6) ^
    Term(x, y, 7)
  }

  /** Without the power `i` of x: x^8 + x^4 + x^3 + x + 1 is zero. */
  function Without(p: bv16, i: bv16): bv16
    requires 8 <= i < 16
  {
    if (p >> i) & 1 == 1 then p ^ (0x11b << (i - 8)) else p
  }

  function Mul(a: bv8, b: bv8): bv8 {
    var p := Without(Without(Without(Without(Without(Without(Without(Product(a, b), 14), 13), 12), 11), 10), 9), 8);
    (p & 0xff) as bv8
  }

  lemma MulByTwo(x: bv8)
    ensures M2(x) == Mul(0x02, x)
  {
  }

  lemma MulByThree(x: bv8)
    ensures M3(x) == Mul(0x03, x)
  {
  }

  lemma MulByNine(x: bv8)
    ensures M9(x) == Mul(0x09, x)
  {
  }

  lemma MulByEleven(x: bv8)
    ensures MB(x) == Mul(0x0b, x)
  {
  }

  lemma MulByThirteen(x: bv8)
    ensures MD(x) == Mul(0x0d, x)
  {
  }

  lemma MulByFourteen(x: bv8)
    ensures ME(x) == Mul(0x0e, x)
  {
  }

  lemma MulByOne(x: bv8)
    ensures Mul(0x01, x) == x
  {
  }

  // ----- section 5.1.1: the substitution

  function Rotl(y: bv8, n: bv4): bv8
    requires 0 < n < 8
  {
    (y << n) | (y >> (8 - n))
  }

  function Affine(y: bv8): bv8 {
    y ^ Rotl(y, 1) ^ Rotl(y, 2) ^ Rotl(y, 3) ^ Rotl(y, 4) ^ 0x63
  }

  /** The byte that the affine step takes to `s`. */
  function Unaffine(s: bv8): bv8 {
    Rotl(s, 1) ^ Rotl(s, 3) ^ Rotl(s, 6) ^ 0x05
  }

  lemma AffineBack(s: bv8)
    ensures Affine(Unaffine(s)) == s
  {
  }

  lemma SboxInverts(x: bv8)
    requires x != 0
    ensures Mul(x, Unaffine(S(x))) == 1
  {
  }

  /** The substitution is the inverse in the field, zero standing for itself, and then the affine step. */
  lemma SboxIs(x: bv8)
    ensures exists y: bv8 :: (if x == 0 then y == 0 else Mul(x, y) == 1) && S(x) == Affine(y)
  {
    var y := Unaffine(S(x));
    AffineBack(S(x));
    if x == 0 {
      ZeroByte();
    } else {
      SboxInverts(x);
    }
    hide *;
    assert if x == 0 then y == 0 else Mul(x, y) == 1;
  }

  lemma ZeroByte()
    ensures S(0) == 0x63 && Unaffine(S(0)) == 0
  {
  }

  // ----- section 5.1: the rounds on an array of bytes, column by column

  type Bytes16 = s: seq<bv8> | |s| == BLOCK witness seq(16, i => 0)

  function SubBytes(s: Bytes16): Bytes16 {
    seq(16, i requires 0 <= i < 16 => S(s[i]))
  }

  function Shifted(s: Bytes16, c: nat, r: nat): bv8 {
    s[4 * ((c + r) % 4) + r % 4]
  }

  /** Row `r` moves by `r` places. */
  function ShiftRows(s: Bytes16): Bytes16 {
    seq(16, i requires 0 <= i < 16 => Shifted(s, i / 4, i % 4))
  }

  /** The coefficients of 3x^3 + x^2 + x + 2. */
  function Coefficient(k: nat): bv8 {
    if k == 0 then 0x02 else if k == 3 then 0x03 else 0x01
  }

  function Mixed(s: Bytes16, c: nat, r: nat): bv8 {
    if c >= 4 then 0
    else
      Sum4(Mul(Coefficient((r + 4) % 4), s[4 * c]), Mul(Coefficient((r + 3) % 4), s[4 * c + 1]),
           Mul(Coefficient((r + 2) % 4), s[4 * c + 2]), Mul(Coefficient((r + 1) % 4), s[4 * c + 3]))
  }

  /** A column times this polynomial, modulo x^4 + 1. */
  function MixColumns(s: Bytes16): Bytes16 {
    seq(16, i requires 0 <= i < 16 => Mixed(s, i / 4, i % 4))
  }

  function AddRoundKey(s: Bytes16, k: Bytes16): Bytes16 {
    seq(16, i requires 0 <= i < 16 => Add(s[i], k[i]))
  }

  /** The bytes of the round keys, `rounds` + 1 of them. */
  function RoundBytes(rk: seq<Col>, r: nat): Bytes16
    requires 4 * r + 4 <= |rk|
  {
    FromCol(rk[4 * r]) + FromCol(rk[4 * r + 1]) + FromCol(rk[4 * r + 2]) + FromCol(rk[4 * r + 3])
  }

  /** The state after `r` full rounds. */
  function Rounds(input: Bytes16, rk: seq<Col>, r: nat): Bytes16
    requires 4 * r + 4 <= |rk|
  {
    if r == 0 then AddRoundKey(input, RoundBytes(rk, 0))
    else AddRoundKey(MixColumns(ShiftRows(SubBytes(Rounds(input, rk, r - 1)))), RoundBytes(rk, r))
  }

  function Rijndael(input: Bytes16, rk: seq<Col>, rounds: nat): Bytes16
    requires 0 < rounds && 4 * rounds + 4 <= |rk|
  {
    AddRoundKey(ShiftRows(SubBytes(Rounds(input, rk, rounds - 1))), RoundBytes(rk, rounds))
  }

  // ----- the rounds of the tables are these

  lemma SameBytes(a: Bytes16, b: Bytes16)
    requires a[0] == b[0] && a[1] == b[1] && a[2] == b[2] && a[3] == b[3]
    requires a[4] == b[4] && a[5] == b[5] && a[6] == b[6] && a[7] == b[7]
    requires a[8] == b[8] && a[9] == b[9] && a[10] == b[10] && a[11] == b[11]
    requires a[12] == b[12] && a[13] == b[13] && a[14] == b[14] && a[15] == b[15]
    ensures a == b
  {
  }

  lemma StateBytes(s: State)
    ensures var b := FromState(s);
      && b[0] == s.s0.b0 && b[1] == s.s0.b1 && b[2] == s.s0.b2 && b[3] == s.s0.b3
      && b[4] == s.s1.b0 && b[5] == s.s1.b1 && b[6] == s.s1.b2 && b[7] == s.s1.b3
      && b[8] == s.s2.b0 && b[9] == s.s2.b1 && b[10] == s.s2.b2 && b[11] == s.s2.b3
      && b[12] == s.s3.b0 && b[13] == s.s3.b1 && b[14] == s.s3.b2 && b[15] == s.s3.b3
  {
  }

  lemma PlaceOf(c: nat, r: nat)
    requires c < 4 && r < 4
    ensures (4 * c + r) % 4 == r && (4 * c + r) / 4 == c
  {
  }

  lemma ShiftedColumn(s: Bytes16, c: nat)
    requires c < 4
    ensures var t := ShiftRows(s);
      && t[4 * c] == Shifted(s, c, 0) && t[4 * c + 1] == Shifted(s, c, 1)
      && t[4 * c + 2] == Shifted(s, c, 2) && t[4 * c + 3] == Shifted(s, c, 3)
  {
    hide Shifted;
    PlaceOf(c, 0);
    PlaceOf(c, 1);
    PlaceOf(c, 2);
    PlaceOf(c, 3);
  }

  lemma MixedColumnAt(s: Bytes16, c: nat)
    requires c < 4
    ensures var t := MixColumns(s);
      && t[4 * c] == Mixed(s, c, 0) && t[4 * c + 1] == Mixed(s, c, 1)
      && t[4 * c + 2] == Mixed(s, c, 2) && t[4 * c + 3] == Mixed(s, c, 3)
  {
    hide Mixed;
    PlaceOf(c, 0);
    PlaceOf(c, 1);
    PlaceOf(c, 2);
    PlaceOf(c, 3);
  }

  lemma ShiftedPlaces(s: Bytes16)
    ensures var t := ShiftRows(s);
      && t[0] == s[0] && t[1] == s[5] && t[2] == s[10] && t[3] == s[15]
      && t[4] == s[4] && t[5] == s[9] && t[6] == s[14] && t[7] == s[3]
      && t[8] == s[8] && t[9] == s[13] && t[10] == s[2] && t[11] == s[7]
      && t[12] == s[12] && t[13] == s[1] && t[14] == s[6] && t[15] == s[11]
  {
    ShiftedColumn(s, 0);
    ShiftedColumn(s, 1);
    ShiftedColumn(s, 2);
    ShiftedColumn(s, 3);
    hide ShiftRows;
  }

  lemma MixedPlaces(s: Bytes16)
    ensures var t := MixColumns(s);
      && t[0] == Mixed(s, 0, 0) && t[1] == Mixed(s, 0, 1) && t[2] == Mixed(s, 0, 2) && t[3] == Mixed(s, 0, 3)
      && t[4] == Mixed(s, 1, 0) && t[5] == Mixed(s, 1, 1) && t[6] == Mixed(s, 1, 2) && t[7] == Mixed(s, 1, 3)
      && t[8] == Mixed(s, 2, 0) && t[9] == Mixed(s, 2, 1) && t[10] == Mixed(s, 2, 2) && t[11] == Mixed(s, 2, 3)
      && t[12] == Mixed(s, 3, 0) && t[13] == Mixed(s, 3, 1) && t[14] == Mixed(s, 3, 2) && t[15] == Mixed(s, 3, 3)
  {
    hide *;
    MixedColumnAt(s, 0);
    MixedColumnAt(s, 1);
    MixedColumnAt(s, 2);
    MixedColumnAt(s, 3);
  }

  lemma SubstitutedPlaces(s: Bytes16)
    ensures var t := SubBytes(s);
      && t[0] == S(s[0]) && t[1] == S(s[1]) && t[2] == S(s[2]) && t[3] == S(s[3])
      && t[4] == S(s[4]) && t[5] == S(s[5]) && t[6] == S(s[6]) && t[7] == S(s[7])
      && t[8] == S(s[8]) && t[9] == S(s[9]) && t[10] == S(s[10]) && t[11] == S(s[11])
      && t[12] == S(s[12]) && t[13] == S(s[13]) && t[14] == S(s[14]) && t[15] == S(s[15])
  {
    hide S;
  }

  lemma ShiftedBytes(s: State)
    ensures FromState(SubShift(s)) == ShiftRows(SubBytes(FromState(s)))
  {
    var b := FromState(s);
    StateBytes(s);
    StateBytes(SubShift(s));
    SubstitutedPlaces(b);
    ShiftedPlaces(SubBytes(b));
    hide S, FromState, ShiftRows, SubBytes;
    SameBytes(FromState(SubShift(s)), ShiftRows(SubBytes(b)));
  }

  lemma AddedBytes(s: State, k: State)
    ensures FromState(XorState(s, k)) == AddRoundKey(FromState(s), FromState(k))
  {
    StateBytes(s);
    StateBytes(k);
    StateBytes(XorState(s, k));
    hide Add, FromState;
    SameBytes(FromState(XorState(s, k)), AddRoundKey(FromState(s), FromState(k)));
  }

  /** One byte of a mixed column. */
  lemma MixedByte(a: bv8, b: bv8, c: bv8, d: bv8)
    ensures Sum4(Mul(0x02, a), Mul(0x03, b), Mul(0x01, c), Mul(0x01, d)) == Sum4(M2(a), M3(b), c, d)
    ensures Sum4(Mul(0x01, d), Mul(0x02, a), Mul(0x03, b), Mul(0x01, c)) == Sum4(d, M2(a), M3(b), c)
    ensures Sum4(Mul(0x01, c), Mul(0x01, d), Mul(0x02, a), Mul(0x03, b)) == Sum4(c, d, M2(a), M3(b))
    ensures Sum4(Mul(0x03, b), Mul(0x01, c), Mul(0x01, d), Mul(0x02, a)) == Sum4(M3(b), c, d, M2(a))
  {
    hide *;
    MulByTwo(a);
    MulByThree(b);
    MulByOne(c);
    MulByOne(d);
  }

  lemma MixedBytes(s: State)
    ensures FromState(MixState(s)) == MixColumns(FromState(s))
  {
    var b := FromState(s);
    StateBytes(s);
    StateBytes(MixState(s));
    MixedPlaces(b);
    hide M2, M3, Mul, Sum4, FromState, Mix, MixColumns;
    MixedColumn(s.s0);
    MixedColumn(s.s1);
    MixedColumn(s.s2);
    MixedColumn(s.s3);
    SameBytes(FromState(MixState(s)), MixColumns(b));
  }

  lemma MixedColumn(c: Col)
    ensures Mix(c).b0 == Sum4(Mul(0x02, c.b0), Mul(0x03, c.b1), Mul(0x01, c.b2), Mul(0x01, c.b3))
    ensures Mix(c).b1 == Sum4(Mul(0x01, c.b0), Mul(0x02, c.b1), Mul(0x03, c.b2), Mul(0x01, c.b3))
    ensures Mix(c).b2 == Sum4(Mul(0x01, c.b0), Mul(0x01, c.b1), Mul(0x02, c.b2), Mul(0x03, c.b3))
    ensures Mix(c).b3 == Sum4(Mul(0x03, c.b0), Mul(0x01, c.b1), Mul(0x01, c.b2), Mul(0x02, c.b3))
  {
    hide M2, M3, Mul, Sum4;
    MixedByte(c.b0, c.b1, c.b2, c.b3);
    MixedByte(c.b1, c.b2, c.b3, c.b0);
    MixedByte(c.b2, c.b3, c.b0, c.b1);
    MixedByte(c.b3, c.b0, c.b1, c.b2);
  }

  lemma {:induction false} RoundsAre(b: State, rk: seq<Col>, r: nat)
    requires 4 * r + 4 <= |rk|
    ensures FromState(Encrypting(b, rk, r)) == Rounds(FromState(b), rk, r)
  {
    hide SubShift, MixState, XorState, FromState, FromCol, EncRound, SubBytes, ShiftRows, MixColumns, AddRoundKey;
    KeyBytes(rk, r);
    if r == 0 {
      AddedBytes(b, RoundKey(rk, 0));
    } else {
      var s := Encrypting(b, rk, r - 1);
      RoundsAre(b, rk, r - 1);
      EncRoundIs(s, RoundKey(rk, r));
      AddedBytes(MixState(SubShift(s)), RoundKey(rk, r));
      MixedBytes(SubShift(s));
      ShiftedBytes(s);
    }
  }

  lemma KeyBytes(rk: seq<Col>, r: nat)
    requires 4 * r + 4 <= |rk|
    ensures FromState(RoundKey(rk, r)) == RoundBytes(rk, r)
  {
  }

  lemma CipherIs(b: State, input: Bytes16, rk: seq<Col>, rounds: nat)
    requires 0 < rounds && 4 * rounds + 4 <= |rk|
    ensures 4 * (rounds - 1) + 4 <= |rk|
    ensures Cipher(b, rk, rounds) == EncLast(Encrypting(b, rk, rounds - 1), RoundKey(rk, rounds))
    ensures Rijndael(input, rk, rounds) ==
            AddRoundKey(ShiftRows(SubBytes(Rounds(input, rk, rounds - 1))), RoundBytes(rk, rounds))
  {
    hide EncLast, Encrypting, Rounds, SubBytes, ShiftRows, AddRoundKey, RoundBytes, RoundKey;
  }

  /** The cipher of the tables is the cipher of the standard, for every block and every round keys. */
  lemma CipherIsRijndael(input: Bytes16, rk: seq<Col>, rounds: nat)
    requires 0 < rounds && 4 * rounds + 4 <= |rk|
    ensures FromState(Cipher(ToState(input), rk, rounds)) == Rijndael(input, rk, rounds)
  {
    hide *;
    var b := ToState(input);
    var s := Encrypting(b, rk, rounds - 1);
    CbcFile.Bytes(input, b);
    CipherIs(b, input, rk, rounds);
    RoundsAre(b, rk, rounds - 1);
    KeyBytes(rk, rounds);
    EncRoundIs(s, RoundKey(rk, rounds));
    AddedBytes(SubShift(s), RoundKey(rk, rounds));
    ShiftedBytes(s);
  }

  // ----- section 5.2: the key expansion

  /** The round constants are the powers of x. */
  lemma RconIs(i: nat)
    ensures Rcon(0) == 1 && Rcon(i + 1) == Mul(0x02, Rcon(i))
  {
    MulByTwo(Rcon(i));
    hide Mul;
  }

  lemma XorIs(c: Col, d: Col)
    ensures Xor(c, d) == Col(c.b0 ^ d.b0, c.b1 ^ d.b1, c.b2 ^ d.b2, c.b3 ^ d.b3)
  {
  }

  lemma FirstByte(c: Col, x: bv8)
    ensures Xor(c, Col(x, 0, 0, 0)) == Col(c.b0 ^ x, c.b1, c.b2, c.b3)
  {
  }

  /** The words of the schedule, byte by byte. */
  lemma KeyWordIs(key: seq<Col>, i: nat)
    requires (|key| == 4 || |key| == 6 || |key| == 8) && |key| <= i
    ensures var nk := |key|; var before, last := KeyWord(key, i - nk), KeyWord(key, i - 1);
      KeyWord(key, i) ==
      Xor(before,
          if i % nk == 0 then Col(S(last.b1) ^ Rcon(i / nk - 1), S(last.b2), S(last.b3), S(last.b0))
          else if nk == 8 && i % nk == 4 then Col(S(last.b0), S(last.b1), S(last.b2), S(last.b3))
          else last)
  {
    hide S, Rcon, Xor;
    var nk, last := |key|, KeyWord(key, i - 1);
    if i % nk == 0 {
      FirstByte(SubWord(RotWord(last)), Rcon(i / nk - 1));
    }
  }
}
