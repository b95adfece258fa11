/** The hash function of sha256.c, and FIPS 180-4 as its specification. */
module Sha256 {
  type Word = bv32
  type Regs = s: seq<Word> | |s| == 8 witness [0, 0, 0, 0, 0, 0, 0, 0]

  // ----- section 4.1.2 of FIPS 180-4

  function Rotr(x: Word, n: nat): Word
    requires 0 < n < 32
  {
    (x >> n) | (x << (32 - n))
  }

  function Ch(x: Word, y: Word, z: Word): Word { (x & y) ^ (!x & z) }

  function Maj(x: Word, y: Word, z: Word): Word { (x & y) ^ (x & z) ^ (y & z) }

  function BigSigma0(x: Word): Word { Rotr(x, 2) ^ Rotr(x, 13) ^ Rotr(x, 22) }

  function BigSigma1(x: Word): Word { Rotr(x, 6) ^ Rotr(x, 11) ^ Rotr(x, 25) }

  function SmallSigma0(x: Word): Word { Rotr(x, 7) ^ Rotr(x, 18) ^ (x >> 3) }

  function SmallSigma1(x: Word): Word { Rotr(x, 17) ^ Rotr(x, 19) ^ (x >> 10) }

  /** The constants of section 4.2.2 */
  function K(): seq<Word> {
    [0x428a2f98, 0x71374491, 0xb5c0fbcf, 0xe9b5dba5, 0x3956c25b, 0x59f111f1, 0x923f82a4, 0xab1c5ed5,
     0xd807aa98, 0x12835b01, 0x243185be, 0x550c7dc3, 0x72be5d74, 0x80deb1fe, 0x9bdc06a7, 0xc19bf174]
    + [0xe49b69c1, 0xefbe4786, 0x0fc19dc6, 0x240ca1cc, 0x2de92c6f, 0x4a7484aa, 0x5cb0a9dc, 0x76f988da,
       0x983e5152, 0xa831c66d, 0xb00327c8, 0xbf597fc7, 0xc6e00bf3, 0xd5a79147, 0x06ca6351, 0x14292967]
    + [0x27b70a85, 0x2e1b2138, 0x4d2c6dfc, 0x53380d13, 0x650a7354, 0x766a0abb, 0x81c2c92e, 0x92722c85,
       0xa2bfe8a1, 0xa81a664b, 0xc24b8b70, 0xc76c51a3, 0xd192e819, 0xd6990624, 0xf40e3585, 0x106aa070]
    + [0x19a4c116, 0x1e376c08, 0x2748774c, 0x34b0bcb5, 0x391c0cb3, 0x4ed8aa4a, 0x5b9cca4f, 0x682e6ff3,
       0x748f82ee, 0x78a5636f, 0x84c87814, 0x8cc70208, 0x90befffa, 0xa4506ceb, 0xbef9a3f7, 0xc67178f2]
  }

  function KAt(t: nat): Word
    requires t < 64
  {
    K()[t]
  }

  // ----- section 6.2.2

  function WordAt(b: seq<bv8>, i: nat): Word
    requires i + 4 <= |b|
  {
    ((b[i] as Word) << 24) | ((b[i + 1] as Word) << 16) | ((b[i + 2] as Word) << 8) | (b[i + 3] as Word)
  }

  /** Addition modulo 2^32 */
  function Sum(p: Word, q: Word): Word { p + q }

  /** Word `t` of the message schedule. */
  function W(block: seq<bv8>, t: nat): Word
    requires |block| == 64
  {
    if t < 16 then WordAt(block, 4 * t)
    else Sum(Sum(Sum(SmallSigma1(W(block, t - 2)), W(block, t - 7)), SmallSigma0(W(block, t - 15))), W(block, t - 16))
  }

  function T1(e: Word, f: Word, g: Word, h: Word, k: Word, w: Word): Word {
    Sum(Sum(Sum(Sum(h, BigSigma1(e)), Ch(e, f, g)), k), w)
  }

  function T2(a: Word, b: Word, c: Word): Word { Sum(BigSigma0(a), Maj(a, b, c)) }

  function Round(s: Regs, k: Word, w: Word): Regs {
    var t1 := T1(s[4], s[5], s[6], s[7], k, w);
    [Sum(t1, T2(s[0], s[1], s[2])), s[0], s[1], s[2], Sum(s[3], t1), s[4], s[5], s[6]]
  }

  function Rounds(s: Regs, block: seq<bv8>, t: nat): Regs
    requires |block| == 64 && t <= 64
  {
    if t == 0 then s else Round(Rounds(s, block, t - 1), KAt(t - 1), W(block, t - 1))
  }

  function AddRegs(s: Regs, r: Regs): Regs {
    seq(8, i requires 0 <= i < 8 => Sum(s[i], r[i]))
  }

  function Compressed(s: Regs, block: seq<bv8>): Regs
    requires |block| == 64
  {
    AddRegs(s, Rounds(s, block, 64))
  }

  function Hashed(s: Regs, data: seq<bv8>): Regs
    requires |data| % 64 == 0
    decreases |data|
  {
    if data == [] then s else Compressed(Hashed(s, data[..|data| - 64]), data[|data| - 64..])
  }

  function Init(): Regs {
    [0x6A09E667, 0xBB67AE85, 0x3C6EF372, 0xA54FF53A, 0x510E527F, 0x9B05688C, 0x1F83D9AB, 0x5BE0CD19]
  }

  // ----- section 5.1.1

  /** The number `n` in `k` bytes, the most significant first, modulo 2^(8k). */
  function BigEndian(n: nat, k: nat): (b: seq<bv8>)
    ensures |b| == k
  {
    if k == 0 then [] else BigEndian(n / 256, k - 1) + [(n % 256) as bv8]
  }

  function ZeroCount(n: nat): nat {
    (119 - n % 64) % 64
  }

  lemma PaddedLength(n: nat)
    ensures (n + 1 + ZeroCount(n) + 8) % 64 == 0
  {
  }

  function Zeros(n: nat): (z: seq<bv8>)
    ensures |z| == n
  {
    seq(n, i => 0)
  }

  function Padded(m: seq<bv8>): (r: seq<bv8>)
    ensures |r| % 64 == 0
  {
    PaddedLength(|m|);
    m + [0x80] + Zeros(ZeroCount(|m|)) + BigEndian(8 * |m|, 8)
  }

  function WordBytes(w: Word): (b: seq<bv8>)
    ensures |b| == 4
  {
    [((w >> 24) & 255) as bv8, ((w >> 16) & 255) as bv8, ((w >> 8) & 255) as bv8, (w & 255) as bv8]
  }

  function Digest(s: Regs): (d: seq<bv8>)
    ensures |d| == 32
  {
    WordBytes(s[0]) + WordBytes(s[1]) + WordBytes(s[2]) + WordBytes(s[3])
    + WordBytes(s[4]) + WordBytes(s[5]) + WordBytes(s[6]) + WordBytes(s[7])
  }

  /** The hash of a message. */
  function Sha(m: seq<bv8>): (d: seq<bv8>)
    ensures |d| == 32
  {
    Digest(Hashed(Init(), Padded(m)))
  }
}
