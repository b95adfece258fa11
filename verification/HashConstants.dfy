/** The constants and the words of FIPS 180-4 without naming how the program has them: roots of primes, bits, and
    numbers. */
module HashConstants {
  import opened Sha256
  import opened Hmac
  import opened Quotients

  // ----- sections 4.2.2 and 5.3.3: the first 32 bits of the fractions of roots of primes

  /** `n` is the largest whole number below the cube root of `p` * 2^96. */
  predicate IsCubeRoot(p: nat, whole: nat, fraction: Word) {
    var n := whole * 0x1_0000_0000 + fraction as nat;
    n * n * n <= p * 0x1_0000_0000_0000_0000_0000_0000 < (n + 1) * (n + 1) * (n + 1)
  }

  predicate IsSquareRoot(p: nat, whole: nat, fraction: Word) {
    var n := whole * 0x1_0000_0000 + fraction as nat;
    n * n <= p * 0x1_0000_0000_0000_0000 < (n + 1) * (n + 1)
  }

  lemma Root(p: nat, whole: nat, fraction: Word, f: nat)
    requires fraction as nat == f
    requires var n := whole * 0x1_0000_0000 + f;
             n * n * n <= p * 0x1_0000_0000_0000_0000_0000_0000 < (n + 1) * (n + 1) * (n + 1)
    ensures IsCubeRoot(p, whole, fraction)
  {
  }

  lemma Roots1()
    ensures
      && IsCubeRoot(2, 1, KAt(0))
      && IsCubeRoot(3, 1, KAt(1))
      && IsCubeRoot(5, 1, KAt(2))
      && IsCubeRoot(7, 1, KAt(3))
      && IsCubeRoot(11, 2, KAt(4))
      && IsCubeRoot(13, 2, KAt(5))
      && IsCubeRoot(17, 2, KAt(6))
      && IsCubeRoot(19, 2, KAt(7))
  {
    Table1();
    Root(2, 1, 0x428a2f98, 1116352408);
    Root(3, 1, 0x71374491, 1899447441);
    Root(5, 1, 0xb5c0fbcf, 3049323471);
    Root(7, 1, 0xe9b5dba5, 3921009573);
    Root(11, 2, 0x3956c25b, 961987163);
    Root(13, 2, 0x59f111f1, 1508970993);
    Root(17, 2, 0x923f82a4, 2453635748);
    Root(19, 2, 0xab1c5ed5, 2870763221);
    hide KAt;
  }

  lemma Table1()
    ensures KAt(0) == 0x428a2f98 && KAt(1) == 0x71374491 && KAt(2) == 0xb5c0fbcf && KAt(3) == 0xe9b5dba5 &&
            KAt(4) == 0x3956c25b && KAt(5) == 0x59f111f1 && KAt(6) == 0x923f82a4 && KAt(7) == 0xab1c5ed5
  {
  }

  lemma Roots2()
    ensures
      && IsCubeRoot(23, 2, KAt(8))
      && IsCubeRoot(29, 3, KAt(9))
      && IsCubeRoot(31, 3, KAt(10))
      && IsCubeRoot(37, 3, KAt(11))
      && IsCubeRoot(41, 3, KAt(12))
      && IsCubeRoot(43, 3, KAt(13))
      && IsCubeRoot(47, 3, KAt(14))
      && IsCubeRoot(53, 3, KAt(15))
  {
    Table2();
    Root(23, 2, 0xd807aa98, 3624381080);
    Root(29, 3, 0x12835b01, 310598401);
    Root(31, 3, 0x243185be, 607225278);
    Root(37, 3, 0x550c7dc3, 1426881987);
    Root(41, 3, 0x72be5d74, 1925078388);
    Root(43, 3, 0x80deb1fe, 2162078206);
    Root(47, 3, 0x9bdc06a7, 2614888103);
    Root(53, 3, 0xc19bf174, 3248222580);
    hide KAt;
  }

  lemma Table2()
    ensures KAt(8) == 0xd807aa98 && KAt(9) == 0x12835b01 && KAt(10) == 0x243185be && KAt(11) == 0x550c7dc3 &&
            KAt(12) == 0x72be5d74 && KAt(13) == 0x80deb1fe && KAt(14) == 0x9bdc06a7 && KAt(15) == 0xc19bf174
  {
  }

  lemma Roots3()
    ensures
      && IsCubeRoot(59, 3, KAt(16))
      && IsCubeRoot(61, 3, KAt(17))
      && IsCubeRoot(67, 4, KAt(18))
      && IsCubeRoot(71, 4, KAt(19))
      && IsCubeRoot(73, 4, KAt(20))
      && IsCubeRoot(79, 4, KAt(21))
      && IsCubeRoot(83, 4, KAt(22))
      && IsCubeRoot(89, 4, KAt(23))
  {
    Table3();
    Root(59, 3, 0xe49b69c1, 3835390401);
    Root(61, 3, 0xefbe4786, 4022224774);
    Root(67, 4, 0x0fc19dc6, 264347078);
    Root(71, 4, 0x240ca1cc, 604807628);
    Root(73, 4, 0x2de92c6f, 770255983);
    Root(79, 4, 0x4a7484aa, 1249150122);
    Root(83, 4, 0x5cb0a9dc, 1555081692);
    Root(89, 4, 0x76f988da, 1996064986);
    hide KAt;
  }

  lemma Table3()
    ensures KAt(16) == 0xe49b69c1 && KAt(17) == 0xefbe4786 && KAt(18) == 0x0fc19dc6 && KAt(19) == 0x240ca1cc &&
            KAt(20) == 0x2de92c6f && KAt(21) == 0x4a7484aa && KAt(22) == 0x5cb0a9dc && KAt(23) == 0x76f988da
  {
  }

  lemma Roots4()
    ensures
      && IsCubeRoot(97, 4, KAt(24))
      && IsCubeRoot(101, 4, KAt(25))
      && IsCubeRoot(103, 4, KAt(26))
      && IsCubeRoot(107, 4, KAt(27))
      && IsCubeRoot(109, 4, KAt(28))
      && IsCubeRoot(113, 4, KAt(29))
      && IsCubeRoot(127, 5, KAt(30))
      && IsCubeRoot(131, 5, KAt(31))
  {
    Table4();
    Root(97, 4, 0x983e5152, 2554220882);
    Root(101, 4, 0xa831c66d, 2821834349);
    Root(103, 4, 0xb00327c8, 2952996808);
    Root(107, 4, 0xbf597fc7, 3210313671);
    Root(109, 4, 0xc6e00bf3, 3336571891);
    Root(113, 4, 0xd5a79147, 3584528711);
    Root(127, 5, 0x06ca6351, 113926993);
    Root(131, 5, 0x14292967, 338241895);
    hide KAt;
  }

  lemma Table4()
    ensures KAt(24) == 0x983e5152 && KAt(25) == 0xa831c66d && KAt(26) == 0xb00327c8 && KAt(27) == 0xbf597fc7 &&
            KAt(28) == 0xc6e00bf3 && KAt(29) == 0xd5a79147 && KAt(30) == 0x06ca6351 && KAt(31) == 0x14292967
  {
  }

  lemma Roots5()
    ensures
      && IsCubeRoot(137, 5, KAt(32))
      && IsCubeRoot(139, 5, KAt(33))
      && IsCubeRoot(149, 5, KAt(34))
      && IsCubeRoot(151, 5, KAt(35))
      && IsCubeRoot(157, 5, KAt(36))
      && IsCubeRoot(163, 5, KAt(37))
      && IsCubeRoot(167, 5, KAt(38))
      && IsCubeRoot(173, 5, KAt(39))
  {
    Table5();
    Root(137, 5, 0x27b70a85, 666307205);
    Root(139, 5, 0x2e1b2138, 773529912);
    Root(149, 5, 0x4d2c6dfc, 1294757372);
    Root(151, 5, 0x53380d13, 1396182291);
    Root(157, 5, 0x650a7354, 1695183700);
    Root(163, 5, 0x766a0abb, 1986661051);
    Root(167, 5, 0x81c2c92e, 2177026350);
    Root(173, 5, 0x92722c85, 2456956037);
    hide KAt;
  }

  lemma Table5()
    ensures KAt(32) == 0x27b70a85 && KAt(33) == 0x2e1b2138 && KAt(34) == 0x4d2c6dfc && KAt(35) == 0x53380d13 &&
            KAt(36) == 0x650a7354 && KAt(37) == 0x766a0abb && KAt(38) == 0x81c2c92e && KAt(39) == 0x92722c85
  {
  }

  lemma Roots6()
    ensures
      && IsCubeRoot(179, 5, KAt(40))
      && IsCubeRoot(181, 5, KAt(41))
      && IsCubeRoot(191, 5, KAt(42))
      && IsCubeRoot(193, 5, KAt(43))
      && IsCubeRoot(197, 5, KAt(44))
      && IsCubeRoot(199, 5, KAt(45))
      && IsCubeRoot(211, 5, KAt(46))
      && IsCubeRoot(223, 6, KAt(47))
  {
    Table6();
    Root(179, 5, 0xa2bfe8a1, 2730485921);
    Root(181, 5, 0xa81a664b, 2820302411);
    Root(191, 5, 0xc24b8b70, 3259730800);
    Root(193, 5, 0xc76c51a3, 3345764771);
    Root(197, 5, 0xd192e819, 3516065817);
    Root(199, 5, 0xd6990624, 3600352804);
    Root(211, 5, 0xf40e3585, 4094571909);
    Root(223, 6, 0x106aa070, 275423344);
    hide KAt;
  }

  lemma Table6()
    ensures KAt(40) == 0xa2bfe8a1 && KAt(41) == 0xa81a664b && KAt(42) == 0xc24b8b70 && KAt(43) == 0xc76c51a3 &&
            KAt(44) == 0xd192e819 && KAt(45) == 0xd6990624 && KAt(46) == 0xf40e3585 && KAt(47) == 0x106aa070
  {
  }

  lemma Roots7()
    ensures
      && IsCubeRoot(227, 6, KAt(48))
      && IsCubeRoot(229, 6, KAt(49))
      && IsCubeRoot(233, 6, KAt(50))
      && IsCubeRoot(239, 6, KAt(51))
      && IsCubeRoot(241, 6, KAt(52))
      && IsCubeRoot(251, 6, KAt(53))
      && IsCubeRoot(257, 6, KAt(54))
      && IsCubeRoot(263, 6, KAt(55))
  {
    Table7();
    Root(227, 6, 0x19a4c116, 430227734);
    Root(229, 6, 0x1e376c08, 506948616);
    Root(233, 6, 0x2748774c, 659060556);
    Root(239, 6, 0x34b0bcb5, 883997877);
    Root(241, 6, 0x391c0cb3, 958139571);
    Root(251, 6, 0x4ed8aa4a, 1322822218);
    Root(257, 6, 0x5b9cca4f, 1537002063);
    Root(263, 6, 0x682e6ff3, 1747873779);
    hide KAt;
  }

  lemma Table7()
    ensures KAt(48) == 0x19a4c116 && KAt(49) == 0x1e376c08 && KAt(50) == 0x2748774c && KAt(51) == 0x34b0bcb5 &&
            KAt(52) == 0x391c0cb3 && KAt(53) == 0x4ed8aa4a && KAt(54) == 0x5b9cca4f && KAt(55) == 0x682e6ff3
  {
  }

  lemma Roots8()
    ensures
      && IsCubeRoot(269, 6, KAt(56))
      && IsCubeRoot(271, 6, KAt(57))
      && IsCubeRoot(277, 6, KAt(58))
      && IsCubeRoot(281, 6, KAt(59))
      && IsCubeRoot(283, 6, KAt(60))
      && IsCubeRoot(293, 6, KAt(61))
      && IsCubeRoot(307, 6, KAt(62))
      && IsCubeRoot(311, 6, KAt(63))
  {
    Table8();
    Root(269, 6, 0x748f82ee, 1955562222);
    Root(271, 6, 0x78a5636f, 2024104815);
    Root(277, 6, 0x84c87814, 2227730452);
    Root(281, 6, 0x8cc70208, 2361852424);
    Root(283, 6, 0x90befffa, 2428436474);
    Root(293, 6, 0xa4506ceb, 2756734187);
    Root(307, 6, 0xbef9a3f7, 3204031479);
    Root(311, 6, 0xc67178f2, 3329325298);
    hide KAt;
  }

  lemma Table8()
    ensures KAt(56) == 0x748f82ee && KAt(57) == 0x78a5636f && KAt(58) == 0x84c87814 && KAt(59) == 0x8cc70208 &&
            KAt(60) == 0x90befffa && KAt(61) == 0xa4506ceb && KAt(62) == 0xbef9a3f7 && KAt(63) == 0xc67178f2
  {
  }

  lemma InitialRoots()
    ensures var h := Init();
      && IsSquareRoot(2, 1, h[0])
      && IsSquareRoot(3, 1, h[1])
      && IsSquareRoot(5, 2, h[2])
      && IsSquareRoot(7, 2, h[3])
      && IsSquareRoot(11, 3, h[4])
      && IsSquareRoot(13, 3, h[5])
      && IsSquareRoot(17, 4, h[6])
      && IsSquareRoot(19, 4, h[7])
  {
  }

  // ----- sections 3.1, 3.2 and 4.1.2: words

  lemma Rotr2(x: Word)
    ensures Rotr(x, 2) == (x >> 2) | (x << 30)
  {
  }

  lemma Rotr13(x: Word)
    ensures Rotr(x, 13) == (x >> 13) | (x << 19)
  {
  }

  lemma Rotr22(x: Word)
    ensures Rotr(x, 22) == (x >> 22) | (x << 10)
  {
  }

  lemma Rotr6(x: Word)
    ensures Rotr(x, 6) == (x >> 6) | (x << 26)
  {
  }

  lemma Rotr11(x: Word)
    ensures Rotr(x, 11) == (x >> 11) | (x << 21)
  {
  }

  lemma Rotr25(x: Word)
    ensures Rotr(x, 25) == (x >> 25) | (x << 7)
  {
  }

  lemma Rotr7(x: Word)
    ensures Rotr(x, 7) == (x >> 7) | (x << 25)
  {
  }

  lemma Rotr18(x: Word)
    ensures Rotr(x, 18) == (x >> 18) | (x << 14)
  {
  }

  lemma Rotr17(x: Word)
    ensures Rotr(x, 17) == (x >> 17) | (x << 15)
  {
  }

  lemma Rotr19(x: Word)
    ensures Rotr(x, 19) == (x >> 19) | (x << 13)
  {
  }

  /** The functions of section 4.1.2 */
  lemma BigSigma0Is(x: Word)
    ensures BigSigma0(x) == Xor3(Rotr(x, 2), Rotr(x, 13), Rotr(x, 22))
  {
    hide Rotr;
  }

  function Xor3(p: Word, q: Word, r: Word): Word { p ^ q ^ r }

  lemma BigSigma1Is(x: Word)
    ensures BigSigma1(x) == Xor3(Rotr(x, 6), Rotr(x, 11), Rotr(x, 25))
  {
    hide Rotr;
  }

  lemma SmallSigma0Is(x: Word)
    ensures SmallSigma0(x) == Xor3(Rotr(x, 7), Rotr(x, 18), x >> 3)
  {
    hide Rotr;
  }

  lemma SmallSigma1Is(x: Word)
    ensures SmallSigma1(x) == Xor3(Rotr(x, 17), Rotr(x, 19), x >> 10)
  {
    hide Rotr;
  }

  /** Each bit is chosen by the bit of `x`. */
  lemma ChIs(x: Word, y: Word, z: Word)
    ensures Ch(x, y, z) & x == y & x && Ch(x, y, z) & !x == z & !x
  {
  }

  /** Each bit is the one that two of the three have at least. */
  lemma MajIs(x: Word, y: Word, z: Word)
    ensures Maj(x, y, z) == (x & y) | (x & z) | (y & z)
  {
  }

  /** Addition modulo 2^32 */
  lemma SumIs(p: Word, q: Word)
    ensures Sum(p, q) == p + q
  {
  }

  /** The first byte of a word is the most significant one. */
  lemma WordAtIs(b: seq<bv8>, i: nat)
    requires i + 4 <= |b|
    ensures var w := WordAt(b, i);
      && w >> 24 == b[i] as Word && (w >> 16) & 0xff == b[i + 1] as Word
      && (w >> 8) & 0xff == b[i + 2] as Word && w & 0xff == b[i + 3] as Word
  {
  }

  lemma DigestIs(s: Regs, j: nat)
    requires j < 8
    ensures WordAt(Digest(s), 4 * j) == s[j]
  {
    hide *;
    DigestFirst(s);
    FirstPart(s, 8, j);
    PartWord(Digest(s), 4 * j, s[j]);
  }

  /** The bytes of the first `k` registers. */
  function First(s: Regs, k: nat): (b: seq<bv8>)
    requires k <= 8
    ensures |b| == 4 * k
  {
    if k == 0 then [] else First(s, k - 1) + WordBytes(s[k - 1])
  }

  lemma DigestFirst(s: Regs)
    ensures Digest(s) == First(s, 8)
  {
    hide WordBytes;
    assert First(s, 0) == [];
    assert First(s, 1) == WordBytes(s[0]);
    assert First(s, 2) == First(s, 1) + WordBytes(s[1]);
    assert First(s, 3) == First(s, 2) + WordBytes(s[2]);
    assert First(s, 4) == First(s, 3) + WordBytes(s[3]);
    assert First(s, 5) == First(s, 4) + WordBytes(s[4]);
    assert First(s, 6) == First(s, 5) + WordBytes(s[5]);
    assert First(s, 7) == First(s, 6) + WordBytes(s[6]);
    assert First(s, 8) == First(s, 7) + WordBytes(s[7]);
  }

  lemma {:induction false} FirstPart(s: Regs, k: nat, j: nat)
    requires j < k <= 8
    ensures First(s, k)[4 * j..4 * j + 4] == WordBytes(s[j])
  {
    hide WordBytes;
    if j < k - 1 {
      FirstPart(s, k - 1, j);
      assert First(s, k)[4 * j..4 * j + 4] == First(s, k - 1)[4 * j..4 * j + 4];
    }
  }

  lemma PartWord(b: seq<bv8>, i: nat, w: Word)
    requires i + 4 <= |b| && b[i..i + 4] == WordBytes(w)
    ensures WordAt(b, i) == w
  {
    hide WordAt, WordBytes;
    WordOfBytes(w);
    SameWord(b, i, WordBytes(w));
  }

  lemma SameWord(b: seq<bv8>, i: nat, w: seq<bv8>)
    requires i + 4 <= |b| && |w| == 4 && b[i..i + 4] == w
    ensures WordAt(b, i) == WordAt(w, 0)
  {
    assert b[i] == w[0] && b[i + 1] == w[1] && b[i + 2] == w[2] && b[i + 3] == w[3];
  }

  lemma WordOfBytes(w: Word)
    ensures WordAt(WordBytes(w), 0) == w
  {
  }

  /** Byte `j` of a number in `k` bytes. */
  lemma {:induction false} BigEndianIs(n: nat, k: nat, j: nat)
    requires j < k
    ensures BigEndian(n, k)[j] == (n / Power256(k - 1 - j) % 256) as bv8
  {
    hide *;
    BigEndianStep(n, k, j);
    PowerStep(k - 1 - j);
    if j < k - 1 {
      BigEndianIs(n / 256, k - 1, j);
      DivTwice(n, Power256(k - 2 - j));
    }
  }

  lemma BigEndianStep(n: nat, k: nat, j: nat)
    requires j < k
    ensures |BigEndian(n, k)| == k && |BigEndian(n / 256, k - 1)| == k - 1
    ensures if j == k - 1 then BigEndian(n, k)[j] == (n % 256) as bv8
            else BigEndian(n, k)[j] == BigEndian(n / 256, k - 1)[j]
  {
  }

  lemma PowerStep(i: nat)
    ensures Power256(i) == if i == 0 then 1 else 256 * Power256(i - 1)
  {
  }

  // ----- section 2 of RFC 2104

  /** HMAC for a key that is cut to its hash if it is long, filled up with zeros and added to the two pads. */
  lemma HmacIs(key: seq<bv8>, m: seq<bv8>, inner: seq<bv8>, outer: seq<bv8>)
    requires |inner| == 64 && |outer| == 64
    requires var k := if |key| > 64 then Sha(key) else key;
             forall i :: 0 <= i < 64 ==>
               var b: bv8 := if i < |k| then k[i] else 0; inner[i] == b ^ 0x36 && outer[i] == b ^ 0x5c
    ensures HmacSha(key, m) == Sha(outer + Sha(inner + m))
  {
    hide Sha;
    var k := BlockKey(key);
    assert XorAll(k, 0x36) == inner;
    assert XorAll(k, 0x5c) == outer;
  }

  // ----- section 5.2 of RFC 8018

  /** The sum of two blocks, bit by bit. */
  lemma XorWithIs(s: seq<bv8>, t: seq<bv8>, i: nat)
    requires i < |s| == |t|
    ensures XorWith(s, t)[i] == s[i] ^ t[i]
  {
  }

  /** Block `i` of PBKDF2 begins with the MAC of the salt and `i` in four bytes; with one iteration that is all. */
  lemma FirstIterations(pwd: seq<bv8>, salt: seq<bv8>, i: nat, u1: seq<bv8>, u2: seq<bv8>)
    requires u1 == HmacSha(pwd, salt + BigEndian(i, 4)) && u2 == HmacSha(pwd, u1)
    ensures F(pwd, salt, 1, i) == u1
    ensures forall j :: 0 <= j < 32 ==> F(pwd, salt, 2, i)[j] == u1[j] ^ u2[j]
  {
    hide HmacSha, BigEndian;
    var first := salt + BigEndian(i, 4);
    assert U(pwd, first, 0) == first;
    assert U(pwd, first, 1) == u1;
    ZeroSum(SumU(pwd, first, 0), u1);
  }

  lemma ZeroSum(z: seq<bv8>, u: seq<bv8>)
    requires |z| == |u| && forall i :: 0 <= i < |z| ==> z[i] == 0
    ensures XorWith(z, u) == u
  {
  }
}
