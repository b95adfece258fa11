/** AES by tables (aes.c): the equivalent inverse cipher undoes the cipher for every block and every round keys. A
    32-bit word is a column of four bytes, the most significant first. */
module Aes {

  /** The substitution table of section 5.1.1 of FIPS 197, four bytes a word. */
  function SboxWord(w: bv8): bv32 {
    if w < 0x04 then (if w < 0x02 then (if w < 0x01 then 0x637c777b else 0xf26b6fc5)
                      else if w < 0x03 then 0x3001672b else 0xfed7ab76)
    else if w < 0x08 then (if w < 0x06 then (if w < 0x05 then 0xca82c97d else 0xfa5947f0)
                           else if w < 0x07 then 0xadd4a2af else 0x9ca472c0)
    else if w < 0x0c then (if w < 0x0a then (if w < 0x09 then 0xb7fd9326 else 0x363ff7cc)
                           else if w < 0x0b then 0x34a5e5f1 else 0x71d83115)
    else if w < 0x10 then (if w < 0x0e then (if w < 0x0d then 0x04c723c3 else 0x1896059a)
                           else if w < 0x0f then 0x071280e2 else 0xeb27b275)
    else if w < 0x14 then (if w < 0x12 then (if w < 0x11 then 0x09832c1a else 0x1b6e5aa0)
                           else if w < 0x13 then 0x523bd6b3 else 0x29e32f84)
    else if w < 0x18 then (if w < 0x16 then (if w < 0x15 then 0x53d100ed else 0x20fcb15b)
                           else if w < 0x17 then 0x6acbbe39 else 0x4a4c58cf)
    else if w < 0x1c then (if w < 0x1a then (if w < 0x19 then 0xd0efaafb else 0x434d3385)
                           else if w < 0x1b then 0x45f9027f else 0x503c9fa8)
    else if w < 0x20 then (if w < 0x1e then (if w < 0x1d then 0x51a3408f else 0x929d38f5)
                           else if w < 0x1f then 0xbcb6da21 else 0x10fff3d2)
    else if w < 0x24 then (if w < 0x22 then (if w < 0x21 then 0xcd0c13ec else 0x5f974417)
                           else if w < 0x23 then 0xc4a77e3d else 0x645d1973)
    else if w < 0x28 then (if w < 0x26 then (if w < 0x25 then 0x60814fdc else 0x222a9088)
                           else if w < 0x27 then 0x46eeb814 else 0xde5e0bdb)
    else if w < 0x2c then (if w < 0x2a then (if w < 0x29 then 0xe0323a0a else 0x4906245c)
                           else if w < 0x2b then 0xc2d3ac62 else 0x9195e479)
    else if w < 0x30 then (if w < 0x2e then (if w < 0x2d then 0xe7c8376d else 0x8dd54ea9)
                           else if w < 0x2f then 0x6c56f4ea else 0x657aae08)
    else if w < 0x34 then (if w < 0x32 then (if w < 0x31 then 0xba78252e else 0x1ca6b4c6)
                           else if w < 0x33 then 0xe8dd741f else 0x4bbd8b8a)
    else if w < 0x38 then (if w < 0x36 then (if w < 0x35 then 0x703eb566 else 0x4803f60e)
                           else if w < 0x37 then 0x613557b9 else 0x86c11d9e)
    else if w < 0x3c then (if w < 0x3a then (if w < 0x39 then 0xe1f89811 else 0x69d98e94)
                           else if w < 0x3b then 0x9b1e87e9 else 0xce5528df)
    else (if w < 0x3e then (if w < 0x3d then 0x8ca1890d else 0xbfe64268)
          else if w < 0x3f then 0x41992d0f else 0xb054bb16)
  }

  /** The inverse table of section 5.3.2. */
  function InvSboxWord(w: bv8): bv32 {
    if w < 0x04 then (if w < 0x02 then (if w < 0x01 then 0x52096ad5 else 0x3036a538)
                      else if w < 0x03 then 0xbf40a39e else 0x81f3d7fb)
    else if w < 0x08 then (if w < 0x06 then (if w < 0x05 then 0x7ce33982 else 0x9b2fff87)
                           else if w < 0x07 then 0x348e4344 else 0xc4dee9cb)
    else if w < 0x0c then (if w < 0x0a then (if w < 0x09 then 0x547b9432 else 0xa6c2233d)
                           else if w < 0x0b then 0xee4c950b else 0x42fac34e)
    else if w < 0x10 then (if w < 0x0e then (if w < 0x0d then 0x082ea166 else 0x28d924b2)
                           else if w < 0x0f then 0x765ba249 else 0x6d8bd125)
    else if w < 0x14 then (if w < 0x12 then (if w < 0x11 then 0x72f8f664 else 0x86689816)
                           else if w < 0x13 then 0xd4a45ccc else 0x5d65b692)
    else if w < 0x18 then (if w < 0x16 then (if w < 0x15 then 0x6c704850 else 0xfdedb9da)
                           else if w < 0x17 then 0x5e154657 else 0xa78d9d84)
    else if w < 0x1c then (if w < 0x1a then (if w < 0x19 then 0x90d8ab00 else 0x8cbcd30a)
                           else if w < 0x1b then 0xf7e45805 else 0xb8b34506)
    else if w < 0x20 then (if w < 0x1e then (if w < 0x1d then 0xd02c1e8f else 0xca3f0f02)
                           else if w < 0x1f then 0xc1afbd03 else 0x01138a6b)
    else if w < 0x24 then (if w < 0x22 then (if w < 0x21 then 0x3a911141 else 0x4f67dcea)
                           else if w < 0x23 then 0x97f2cfce else 0xf0b4e673)
    else if w < 0x28 then (if w < 0x26 then (if w < 0x25 then 0x96ac7422 else 0xe7ad3585)
                           else if w < 0x27 then 0xe2f937e8 else 0x1c75df6e)
    else if w < 0x2c then (if w < 0x2a then (if w < 0x29 then 0x47f11a71 else 0x1d29c589)
                           else if w < 0x2b then 0x6fb7620e else 0xaa18be1b)
    else if w < 0x30 then (if w < 0x2e then (if w < 0x2d then 0xfc563e4b else 0xc6d27920)
                           else if w < 0x2f then 0x9adbc0fe else 0x78cd5af4)
    else if w < 0x34 then (if w < 0x32 then (if w < 0x31 then 0x1fdda833 else 0x8807c731)
                           else if w < 0x33 then 0xb1121059 else 0x2780ec5f)
    else if w < 0x38 then (if w < 0x36 then (if w < 0x35 then 0x60517fa9 else 0x19b54a0d)
                           else if w < 0x37 then 0x2de57a9f else 0x93c99cef)
    else if w < 0x3c then (if w < 0x3a then (if w < 0x39 then 0xa0e03b4d else 0xae2af5b0)
                           else if w < 0x3b then 0xc8ebbb3c else 0x83539961)
    else (if w < 0x3e then (if w < 0x3d then 0x172b047e else 0xba77d626)
          else if w < 0x3f then 0xe1691463 else 0x55210c7d)
  }

  /** Byte `l` of a word. */
  function Pick(w: bv32, l: bv8): bv8 {
    if l == 0 then (w >> 24) as bv8
    else if l == 1 then ((w >> 16) & 0xff) as bv8
    else if l == 2 then ((w >> 8) & 0xff) as bv8
    else (w & 0xff) as bv8
  }

  function S(x: bv8): bv8 { Pick(SboxWord(x >> 2), x & 3) }

  function Si(x: bv8): bv8 { Pick(InvSboxWord(x >> 2), x & 3) }

  lemma SiS(x: bv8)
    ensures Si(S(x)) == x
  {
  }

  // ----- the field of section 4 of FIPS 197: addition, and multiplication by constants

  function Add(x: bv8, y: bv8): bv8 { x ^ y }

  function Sum3(x: bv8, y: bv8, z: bv8): bv8 { Add(Add(x, y), z) }

  function Sum4(x: bv8, y: bv8, z: bv8, w: bv8): bv8 { Add(Sum3(x, y, z), w) }

  function M2(x: bv8): bv8 { Add(x << 1, 0x1b * (x >> 7)) }

  function M4(x: bv8): bv8 { M2(M2(x)) }

  function M8(x: bv8): bv8 { M2(M4(x)) }

  function M3(x: bv8): bv8 { Add(M2(x), x) }

  function M9(x: bv8): bv8 { Add(M8(x), x) }

  function MB(x: bv8): bv8 { Sum3(M8(x), M2(x), x) }

  function MD(x: bv8): bv8 { Sum3(M8(x), M4(x), x) }

  function ME(x: bv8): bv8 { Sum3(M8(x), M4(x), M2(x)) }

  // ----- columns and the tables by their definition

  datatype Col = Col(b0: bv8, b1: bv8, b2: bv8, b3: bv8)

  function Xor(x: Col, y: Col): Col {
    Col(Add(x.b0, y.b0), Add(x.b1, y.b1), Add(x.b2, y.b2), Add(x.b3, y.b3))
  }

  function Te0(x: bv8): Col { Col(M2(S(x)), S(x), S(x), M3(S(x))) }

  function Te1(x: bv8): Col { Col(M3(S(x)), M2(S(x)), S(x), S(x)) }

  function Te2(x: bv8): Col { Col(S(x), M3(S(x)), M2(S(x)), S(x)) }

  function Te3(x: bv8): Col { Col(S(x), S(x), M3(S(x)), M2(S(x))) }

  function Td0(x: bv8): Col { Col(ME(Si(x)), M9(Si(x)), MD(Si(x)), MB(Si(x))) }

  function Td1(x: bv8): Col { Col(MB(Si(x)), ME(Si(x)), M9(Si(x)), MD(Si(x))) }

  function Td2(x: bv8): Col { Col(MD(Si(x)), MB(Si(x)), ME(Si(x)), M9(Si(x))) }

  function Td3(x: bv8): Col { Col(M9(Si(x)), MD(Si(x)), MB(Si(x)), ME(Si(x))) }

  /** One word of a round: four table entries and the word of the round key. */
  function EncWord(a: Col, b: Col, c: Col, d: Col, k: Col): Col {
    Xor(Xor(Xor(Xor(Te0(a.b0), Te1(b.b1)), Te2(c.b2)), Te3(d.b3)), k)
  }

  function DecWord(a: Col, b: Col, c: Col, d: Col, k: Col): Col {
    Xor(Xor(Xor(Xor(Td0(a.b0), Td1(b.b1)), Td2(c.b2)), Td3(d.b3)), k)
  }

  function EncLastWord(a: Col, b: Col, c: Col, d: Col, k: Col): Col {
    Xor(Col(S(a.b0), S(b.b1), S(c.b2), S(d.b3)), k)
  }

  function DecLastWord(a: Col, b: Col, c: Col, d: Col, k: Col): Col {
    Xor(Col(Si(a.b0), Si(b.b1), Si(c.b2), Si(d.b3)), k)
  }

  // ----- the columns of section 5.1.3 and 5.3.3

  function Mix(c: Col): Col {
    Col(Sum4(M2(c.b0), M3(c.b1), c.b2, c.b3), Sum4(c.b0, M2(c.b1), M3(c.b2), c.b3),
        Sum4(c.b0, c.b1, M2(c.b2), M3(c.b3)), Sum4(M3(c.b0), c.b1, c.b2, M2(c.b3)))
  }

  function InvMix(c: Col): Col {
    Col(Sum4(ME(c.b0), MB(c.b1), MD(c.b2), M9(c.b3)), Sum4(M9(c.b0), ME(c.b1), MB(c.b2), MD(c.b3)),
        Sum4(MD(c.b0), M9(c.b1), ME(c.b2), MB(c.b3)), Sum4(MB(c.b0), MD(c.b1), M9(c.b2), ME(c.b3)))
  }

  lemma AddAssoc(x: bv8, y: bv8, z: bv8)
    ensures Add(Add(x, y), z) == Add(x, Add(y, z))
  {
  }

  lemma AddComm(x: bv8, y: bv8)
    ensures Add(x, y) == Add(y, x) && Add(x, 0) == x && Add(x, x) == 0
  {
  }

  lemma Regroup2(a: bv8, b: bv8, c: bv8, d: bv8)
    ensures Add(Add(a, c), Add(b, d)) == Add(Add(a, b), Add(c, d))
  {
    hide Add;
    AddAssoc(a, c, Add(b, d));
    AddAssoc(c, b, d);
    AddComm(c, b);
    AddAssoc(b, c, d);
    AddAssoc(a, b, Add(c, d));
  }

  lemma Regroup3(a: bv8, b: bv8, c: bv8, d: bv8, e: bv8, f: bv8)
    ensures Sum3(Add(a, d), Add(b, e), Add(c, f)) == Add(Sum3(a, b, c), Sum3(d, e, f))
  {
    hide Add;
    Regroup2(a, b, d, e);
    Regroup2(Add(a, b), c, Add(d, e), f);
  }

  lemma Regroup4(a: bv8, b: bv8, c: bv8, d: bv8, e: bv8, f: bv8, g: bv8, h: bv8)
    ensures Sum4(Add(a, e), Add(b, f), Add(c, g), Add(d, h)) == Add(Sum4(a, b, c, d), Sum4(e, f, g, h))
  {
    hide Add, Sum3;
    Regroup3(a, b, c, e, f, g);
    Regroup2(Sum3(a, b, c), d, Sum3(e, f, g), h);
  }

  lemma Linear2(x: bv8, y: bv8)
    ensures M2(Add(x, y)) == Add(M2(x), M2(y))
  {
  }

  lemma Linear48(x: bv8, y: bv8)
    ensures M4(Add(x, y)) == Add(M4(x), M4(y)) && M8(Add(x, y)) == Add(M8(x), M8(y))
  {
    hide M2, Add;
    Linear2(x, y);
    Linear2(M2(x), M2(y));
    Linear2(M4(x), M4(y));
  }

  /** Multiplication by the inverse coefficients distributes over addition. */
  lemma Linear(x: bv8, y: bv8)
    ensures ME(Add(x, y)) == Add(ME(x), ME(y)) && MB(Add(x, y)) == Add(MB(x), MB(y))
    ensures MD(Add(x, y)) == Add(MD(x), MD(y)) && M9(Add(x, y)) == Add(M9(x), M9(y))
  {
    hide M2, M4, M8, Add, Sum3;
    Linear2(x, y);
    Linear48(x, y);
    Regroup3(M8(x), M4(x), M2(x), M8(y), M4(y), M2(y));
    Regroup3(M8(x), M2(x), x, M8(y), M2(y), y);
    Regroup3(M8(x), M4(x), x, M8(y), M4(y), y);
    Regroup2(M8(x), x, M8(y), y);
  }

  lemma InvMixLinear(p: Col, q: Col)
    ensures InvMix(Xor(p, q)) == Xor(InvMix(p), InvMix(q))
  {
    hide ME, MB, MD, M9, Add, Sum4;
    Linear(p.b0, q.b0); Linear(p.b1, q.b1); Linear(p.b2, q.b2); Linear(p.b3, q.b3);
    Regroup4(ME(p.b0), MB(p.b1), MD(p.b2), M9(p.b3), ME(q.b0), MB(q.b1), MD(q.b2), M9(q.b3));
    Regroup4(M9(p.b0), ME(p.b1), MB(p.b2), MD(p.b3), M9(q.b0), ME(q.b1), MB(q.b2), MD(q.b3));
    Regroup4(MD(p.b0), M9(p.b1), ME(p.b2), MB(p.b3), MD(q.b0), M9(q.b1), ME(q.b2), MB(q.b3));
    Regroup4(MB(p.b0), MD(p.b1), M9(p.b2), ME(p.b3), MB(q.b0), MD(q.b1), M9(q.b2), ME(q.b3));
  }

  /** The coefficient matrices are inverse: what each byte of a column contributes. */
  lemma Coefficients(x: bv8)
    ensures Sum4(ME(M2(x)), MB(x), MD(x), M9(M3(x))) == x
    ensures Sum4(M9(M2(x)), ME(x), MB(x), MD(M3(x))) == 0
  {
  }

  lemma Coefficients2(x: bv8)
    ensures Sum4(MD(M2(x)), M9(x), ME(x), MB(M3(x))) == 0
    ensures Sum4(MB(M2(x)), MD(x), M9(x), ME(M3(x))) == 0
  {
  }

  lemma Rotate1(a: bv8, b: bv8, c: bv8, d: bv8)
    ensures Sum4(a, b, c, d) == Sum4(d, a, b, c)
  {
    hide Add;
    AddComm(Add(Add(a, b), c), d);
    AddAssoc(d, Add(a, b), c);
    AddAssoc(d, a, b);
  }

  lemma Rotate(a: bv8, b: bv8, c: bv8, d: bv8)
    ensures Sum4(a, b, c, d) == Sum4(d, a, b, c) && Sum4(a, b, c, d) == Sum4(c, d, a, b) &&
            Sum4(a, b, c, d) == Sum4(b, c, d, a)
  {
    hide Sum4;
    Rotate1(a, b, c, d);
    Rotate1(d, a, b, c);
    Rotate1(c, d, a, b);
  }

  /** One byte of a column, mixed and unmixed. */
  lemma OneByte(x: bv8)
    ensures InvMix(Col(M2(x), x, x, M3(x))) == Col(x, 0, 0, 0)
    ensures InvMix(Col(M3(x), M2(x), x, x)) == Col(0, x, 0, 0)
    ensures InvMix(Col(x, M3(x), M2(x), x)) == Col(0, 0, x, 0)
    ensures InvMix(Col(x, x, M3(x), M2(x))) == Col(0, 0, 0, x)
  {
    hide M2, M3, M9, MB, MD, ME, Add, Sum4;
    Coefficients(x);
    Coefficients2(x);
    Rotate(ME(M2(x)), MB(x), MD(x), M9(M3(x)));
    Rotate(M9(M2(x)), ME(x), MB(x), MD(M3(x)));
    Rotate(MD(M2(x)), M9(x), ME(x), MB(M3(x)));
    Rotate(MB(M2(x)), MD(x), M9(x), ME(M3(x)));
  }

  lemma SumsOf4(a: Col, b: Col, c: Col, d: Col)
    ensures Xor(Xor(a, b), Xor(c, d)) ==
            Col(Sum4(a.b0, b.b0, c.b0, d.b0), Sum4(a.b1, b.b1, c.b1, d.b1), Sum4(a.b2, b.b2, c.b2, d.b2),
                Sum4(a.b3, b.b3, c.b3, d.b3))
  {
    hide Add;
    AddAssoc(Add(a.b0, b.b0), c.b0, d.b0);
    AddAssoc(Add(a.b1, b.b1), c.b1, d.b1);
    AddAssoc(Add(a.b2, b.b2), c.b2, d.b2);
    AddAssoc(Add(a.b3, b.b3), c.b3, d.b3);
  }

  lemma Units(c: Col)
    ensures Xor(Xor(Col(c.b0, 0, 0, 0), Col(0, c.b1, 0, 0)), Xor(Col(0, 0, c.b2, 0), Col(0, 0, 0, c.b3))) == c
  {
    hide Add;
    AddComm(0, 0);
    AddComm(c.b0, 0); AddComm(c.b1, 0); AddComm(c.b2, 0); AddComm(c.b3, 0);
  }

  lemma InvMixOfMix(c: Col)
    ensures InvMix(Mix(c)) == c
  {
    var p, q := Col(M2(c.b0), c.b0, c.b0, M3(c.b0)), Col(M3(c.b1), M2(c.b1), c.b1, c.b1);
    var r, s := Col(c.b2, M3(c.b2), M2(c.b2), c.b2), Col(c.b3, c.b3, M3(c.b3), M2(c.b3));
    hide M2, M3, Add, Sum4, InvMix, Xor;
    SumsOf4(p, q, r, s);
    assert Mix(c) == Xor(Xor(p, q), Xor(r, s));
    InvMixLinear(Xor(p, q), Xor(r, s));
    InvMixLinear(p, q);
    InvMixLinear(r, s);
    OneByte(c.b0); OneByte(c.b1); OneByte(c.b2); OneByte(c.b3);
    Units(c);
  }

  // ----- rounds

  datatype State = State(s0: Col, s1: Col, s2: Col, s3: Col)

  function XorState(x: State, y: State): State {
    State(Xor(x.s0, y.s0), Xor(x.s1, y.s1), Xor(x.s2, y.s2), Xor(x.s3, y.s3))
  }

  function EncRound(s: State, k: State): State {
    State(EncWord(s.s0, s.s1, s.s2, s.s3, k.s0), EncWord(s.s1, s.s2, s.s3, s.s0, k.s1),
          EncWord(s.s2, s.s3, s.s0, s.s1, k.s2), EncWord(s.s3, s.s0, s.s1, s.s2, k.s3))
  }

  function DecRound(s: State, k: State): State {
    State(DecWord(s.s0, s.s3, s.s2, s.s1, k.s0), DecWord(s.s1, s.s0, s.s3, s.s2, k.s1),
          DecWord(s.s2, s.s1, s.s0, s.s3, k.s2), DecWord(s.s3, s.s2, s.s1, s.s0, k.s3))
  }

  function EncLast(s: State, k: State): State {
    State(EncLastWord(s.s0, s.s1, s.s2, s.s3, k.s0), EncLastWord(s.s1, s.s2, s.s3, s.s0, k.s1),
          EncLastWord(s.s2, s.s3, s.s0, s.s1, k.s2), EncLastWord(s.s3, s.s0, s.s1, s.s2, k.s3))
  }

  function DecLast(s: State, k: State): State {
    State(DecLastWord(s.s0, s.s3, s.s2, s.s1, k.s0), DecLastWord(s.s1, s.s0, s.s3, s.s2, k.s1),
          DecLastWord(s.s2, s.s1, s.s0, s.s3, k.s2), DecLastWord(s.s3, s.s2, s.s1, s.s0, k.s3))
  }

  /** The round key at position `r` of a schedule. */
  function RoundKey(rk: seq<Col>, r: nat): State
    requires 4 * r + 4 <= |rk|
  {
    State(rk[4 * r], rk[4 * r + 1], rk[4 * r + 2], rk[4 * r + 3])
  }

  /** The state after `r` full rounds. */
  function Encrypting(b: State, rk: seq<Col>, r: nat): State
    requires 4 * r + 4 <= |rk|
  {
    if r == 0 then XorState(b, RoundKey(rk, 0)) else EncRound(Encrypting(b, rk, r - 1), RoundKey(rk, r))
  }

  function Decrypting(b: State, rk: seq<Col>, r: nat): State
    requires 4 * r + 4 <= |rk|
  {
    if r == 0 then XorState(b, RoundKey(rk, 0)) else DecRound(Decrypting(b, rk, r - 1), RoundKey(rk, r))
  }

  function Cipher(b: State, rk: seq<Col>, rounds: nat): State
    requires rounds > 0 && 4 * rounds + 4 <= |rk|
  {
    EncLast(Encrypting(b, rk, rounds - 1), RoundKey(rk, rounds))
  }

  function InvCipher(b: State, rk: seq<Col>, rounds: nat): State
    requires rounds > 0 && 4 * rounds + 4 <= |rk|
  {
    DecLast(Decrypting(b, rk, rounds - 1), RoundKey(rk, rounds))
  }

  function InvMixState(s: State): State { State(InvMix(s.s0), InvMix(s.s1), InvMix(s.s2), InvMix(s.s3)) }

  /** Word `i` of the decryption schedule: the round keys reversed, the inner ones unmixed (section 5.3.5). */
  function DecKeyWord(rk: seq<Col>, rounds: nat, i: nat): Col
    requires 4 * rounds + 4 <= |rk| && i < 4 * rounds + 4
  {
    var w := rk[4 * (rounds - i / 4) + i % 4];
    if i < 4 || i >= 4 * rounds then w else InvMix(w)
  }

  ghost predicate IsDecSchedule(dk: seq<Col>, rk: seq<Col>, rounds: nat) {
    4 * rounds + 4 <= |rk| && 4 * rounds + 4 <= |dk| && forall i :: 0 <= i < 4 * rounds + 4 ==>
      dk[i] == DecKeyWord(rk, rounds, i)
  }

  // ----- decryption undoes encryption

  /** The substitution and the row shift alone. */
  function SubShift(s: State): State {
    State(Col(S(s.s0.b0), S(s.s1.b1), S(s.s2.b2), S(s.s3.b3)), Col(S(s.s1.b0), S(s.s2.b1), S(s.s3.b2), S(s.s0.b3)),
          Col(S(s.s2.b0), S(s.s3.b1), S(s.s0.b2), S(s.s1.b3)), Col(S(s.s3.b0), S(s.s0.b1), S(s.s1.b2), S(s.s2.b3)))
  }

  function MixState(s: State): State { State(Mix(s.s0), Mix(s.s1), Mix(s.s2), Mix(s.s3)) }

  lemma EncWordIs(a: Col, b: Col, c: Col, d: Col, k: Col)
    ensures EncWord(a, b, c, d, k) == Xor(Mix(Col(S(a.b0), S(b.b1), S(c.b2), S(d.b3))), k)
  {
    hide S, M2, M3, Add;
  }

  lemma DecWordIs(a: Col, b: Col, c: Col, d: Col, k: Col)
    ensures DecWord(a, b, c, d, k) == Xor(InvMix(Col(Si(a.b0), Si(b.b1), Si(c.b2), Si(d.b3))), k)
  {
    hide Si, ME, MB, MD, M9, Add;
  }

  lemma EncRoundIs(s: State, k: State)
    ensures EncRound(s, k) == XorState(MixState(SubShift(s)), k) && EncLast(s, k) == XorState(SubShift(s), k)
  {
    hide EncWord, S, Mix, Xor;
    EncWordIs(s.s0, s.s1, s.s2, s.s3, k.s0);
    EncWordIs(s.s1, s.s2, s.s3, s.s0, k.s1);
    EncWordIs(s.s2, s.s3, s.s0, s.s1, k.s2);
    EncWordIs(s.s3, s.s0, s.s1, s.s2, k.s3);
  }

  /** Undoing the substitution and the row shift. */
  function InvSubShift(s: State): State {
    State(Col(Si(s.s0.b0), Si(s.s3.b1), Si(s.s2.b2), Si(s.s1.b3)),
          Col(Si(s.s1.b0), Si(s.s0.b1), Si(s.s3.b2), Si(s.s2.b3)),
          Col(Si(s.s2.b0), Si(s.s1.b1), Si(s.s0.b2), Si(s.s3.b3)),
          Col(Si(s.s3.b0), Si(s.s2.b1), Si(s.s1.b2), Si(s.s0.b3)))
  }

  lemma DecRoundIs(s: State, k: State)
    ensures DecRound(s, k) == XorState(InvMixState(InvSubShift(s)), k) && DecLast(s, k) == XorState(InvSubShift(s), k)
  {
    hide DecWord, Si, InvMix, Xor;
    DecWordIs(s.s0, s.s3, s.s2, s.s1, k.s0);
    DecWordIs(s.s1, s.s0, s.s3, s.s2, k.s1);
    DecWordIs(s.s2, s.s1, s.s0, s.s3, k.s2);
    DecWordIs(s.s3, s.s2, s.s1, s.s0, k.s3);
  }

  lemma ColS(c: Col)
    ensures Si(S(c.b0)) == c.b0 && Si(S(c.b1)) == c.b1 && Si(S(c.b2)) == c.b2 && Si(S(c.b3)) == c.b3
  {
    hide S, Si;
    SiS(c.b0); SiS(c.b1); SiS(c.b2); SiS(c.b3);
  }

  lemma SubShiftUndone(s: State)
    ensures InvSubShift(SubShift(s)) == s
  {
    hide S, Si;
    ColS(s.s0); ColS(s.s1); ColS(s.s2); ColS(s.s3);
  }

  lemma XorTwice(x: Col, k: Col)
    ensures Xor(Xor(x, k), k) == x
  {
    hide Add;
    AddAssoc(x.b0, k.b0, k.b0); AddAssoc(x.b1, k.b1, k.b1); AddAssoc(x.b2, k.b2, k.b2); AddAssoc(x.b3, k.b3, k.b3);
    AddComm(k.b0, k.b0); AddComm(k.b1, k.b1); AddComm(k.b2, k.b2); AddComm(k.b3, k.b3);
    AddComm(x.b0, 0); AddComm(x.b1, 0); AddComm(x.b2, 0); AddComm(x.b3, 0);
  }

  lemma XorStateTwice(x: State, k: State)
    ensures XorState(XorState(x, k), k) == x
  {
    hide Xor;
    XorTwice(x.s0, k.s0); XorTwice(x.s1, k.s1); XorTwice(x.s2, k.s2); XorTwice(x.s3, k.s3);
  }

  /** Unmixing a mixed column with a key added leaves the column with the unmixed key added. */
  lemma UnmixWord(c: Col, k: Col)
    ensures Xor(InvMix(Xor(Mix(c), k)), InvMix(k)) == c
  {
    hide Mix, InvMix, Xor;
    InvMixLinear(Mix(c), k);
    InvMixOfMix(c);
    XorTwice(c, InvMix(k));
  }

  /** One round of decryption undoes one round of encryption, between the substitutions. */
  lemma RoundUndone(s: State, k: State)
    ensures DecRound(SubShift(EncRound(s, k)), InvMixState(k)) == SubShift(s)
  {
    hide SubShift, EncRound, DecRound, InvSubShift, Mix, InvMix, Xor;
    EncRoundIs(s, k);
    DecRoundIs(SubShift(EncRound(s, k)), InvMixState(k));
    SubShiftUndone(EncRound(s, k));
    var c := SubShift(s);
    UnmixWord(c.s0, k.s0); UnmixWord(c.s1, k.s1); UnmixWord(c.s2, k.s2); UnmixWord(c.s3, k.s3);
  }

  lemma DecRoundKey(dk: seq<Col>, rk: seq<Col>, rounds: nat, r: nat)
    requires IsDecSchedule(dk, rk, rounds) && r <= rounds
    ensures RoundKey(dk, r) == if r == 0 || r == rounds then RoundKey(rk, rounds - r)
            else InvMixState(RoundKey(rk, rounds - r))
  {
    hide InvMix;
    var i := 4 * r;
    assert i / 4 == r && (i + 1) / 4 == r && (i + 2) / 4 == r && (i + 3) / 4 == r;
    assert dk[i] == DecKeyWord(rk, rounds, i) && dk[i + 1] == DecKeyWord(rk, rounds, i + 1);
    assert dk[i + 2] == DecKeyWord(rk, rounds, i + 2) && dk[i + 3] == DecKeyWord(rk, rounds, i + 3);
  }

  /** After `r` rounds of decryption the state is the one that round `rounds` - 1 - `r` of encryption left, substituted
      and shifted. */
  lemma {:induction false} DecryptingUndoes(b: State, rk: seq<Col>, dk: seq<Col>, rounds: nat, r: nat)
    requires rounds > 0 && IsDecSchedule(dk, rk, rounds) && r < rounds
    ensures Decrypting(Cipher(b, rk, rounds), dk, r) == SubShift(Encrypting(b, rk, rounds - 1 - r))
    decreases r
  {
    hide SubShift, EncRound, DecRound, EncLast, InvMixState, XorState, RoundKey;
    if r == 0 {
      DecRoundKey(dk, rk, rounds, 0);
      EncRoundIs(Encrypting(b, rk, rounds - 1), RoundKey(rk, rounds));
      XorStateTwice(SubShift(Encrypting(b, rk, rounds - 1)), RoundKey(rk, rounds));
    } else {
      DecryptingUndoes(b, rk, dk, rounds, r - 1);
      DecRoundKey(dk, rk, rounds, r);
      RoundUndone(Encrypting(b, rk, rounds - 1 - r), RoundKey(rk, rounds - r));
    }
  }

  /** The equivalent inverse cipher undoes the cipher, for every block and every schedule. */
  lemma InvCipherUndoes(b: State, rk: seq<Col>, dk: seq<Col>, rounds: nat)
    requires rounds > 0 && IsDecSchedule(dk, rk, rounds)
    ensures InvCipher(Cipher(b, rk, rounds), dk, rounds) == b
  {
    hide SubShift, InvSubShift, EncRound, DecRound, DecLast, InvMixState, XorState, RoundKey, Cipher;
    DecryptingUndoes(b, rk, dk, rounds, rounds - 1);
    DecRoundKey(dk, rk, rounds, rounds);
    DecRoundIs(SubShift(Encrypting(b, rk, 0)), RoundKey(rk, 0));
    SubShiftUndone(Encrypting(b, rk, 0));
    XorStateTwice(b, RoundKey(rk, 0));
  }
}
