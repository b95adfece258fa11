/** HMAC and PBKDF2 over the hash of sha256.c (fs_wget.c: hmac_sha256_init, hmac_sha256_update, hmac_sha256_final,
    pbkdf2_hmac_sha256). */
module Hmac {
  import opened Sequences
  import opened Sha256
  import opened ShaContext

  const BLOCK: nat := 64
  const DIGEST: nat := 32
  const SALT_MAX: nat := 32

  function Xor(a: bv8, b: bv8): bv8 { a ^ b }

  function XorAll(s: seq<bv8>, b: bv8): (r: seq<bv8>)
    ensures |r| == |s|
  {
    seq(|s|, i requires 0 <= i < |s| => Xor(s[i], b))
  }

  function XorWith(s: seq<bv8>, t: seq<bv8>): (r: seq<bv8>)
    requires |s| == |t|
    ensures |r| == |s|
  {
    seq(|s|, i requires 0 <= i < |s| => Xor(s[i], t[i]))
  }

  // ----- section 2 of RFC 2104

  function BlockKey(key: seq<bv8>): (k: seq<bv8>)
    ensures |k| == BLOCK
  {
    if |key| > BLOCK then Sha(key) + Zeros(BLOCK - DIGEST) else key + Zeros(BLOCK - |key|)
  }

  function HmacSha(key: seq<bv8>, m: seq<bv8>): (d: seq<bv8>)
    ensures |d| == DIGEST
  {
    var k := BlockKey(key);
    Sha(XorAll(k, 0x5c) + Sha(XorAll(k, 0x36) + m))
  }

  // ----- section 5.2 of RFC 8018

  function U(pwd: seq<bv8>, first: seq<bv8>, n: nat): (u: seq<bv8>) {
    if n == 0 then first else HmacSha(pwd, U(pwd, first, n - 1))
  }

  /** The sum of U_1 .. U_n. */
  function SumU(pwd: seq<bv8>, first: seq<bv8>, n: nat): (f: seq<bv8>)
    ensures |f| == DIGEST
  {
    if n == 0 then Zeros(DIGEST) else XorWith(SumU(pwd, first, n - 1), HmacSha(pwd, U(pwd, first, n - 1)))
  }

  function F(pwd: seq<bv8>, salt: seq<bv8>, iter: nat, i: nat): (f: seq<bv8>)
    ensures |f| == DIGEST
  {
    SumU(pwd, salt + BigEndian(i, 4), iter)
  }

  /** The blocks from number `i`, cut to `n` bytes. */
  function Derived(pwd: seq<bv8>, salt: seq<bv8>, iter: nat, i: nat, n: nat): (k: seq<bv8>)
    ensures |k| == n
    decreases n
  {
    if n <= DIGEST then F(pwd, salt, iter, i)[..n]
    else F(pwd, salt, iter, i) + Derived(pwd, salt, iter, i + 1, n - DIGEST)
  }

  // ----- the code

  /** HMAC_SHA256_CTX */
  class HmacContext {
    const ctx: Context
    const pad: array<bv8>

    /** `m` was put in under `key`. */
    ghost predicate Fed(key: seq<bv8>, m: seq<bv8>)
      reads this, pad, ctx, ctx.state, ctx.buf
    {
      && pad.Length == BLOCK + DIGEST && pad != ctx.buf && pad[..BLOCK] == XorAll(BlockKey(key), 0x36)
      && ctx.Fed(XorAll(BlockKey(key), 0x36) + m)
    }

    /** hmac_sha256_init */
    constructor (key: seq<bv8>)
      ensures Fed(key, []) && fresh(pad) && fresh(ctx) && fresh(ctx.state) && fresh(ctx.buf)
    {
      hide Sha, Context.Fed, Xor;
      var k := key;
      if |key| > BLOCK {
        k := Hash(key);
      }
      var p := new bv8[96](i => 0);
      var c := new Context();
      pad, ctx := p, c;
      new;
      forall i | 0 <= i < |k| {
        pad[i] := k[i];
      }
      assert pad[..BLOCK] == BlockKey(key);
      XorIntoPad(pad, 0x36);
      assert [] + pad[..BLOCK] == pad[..BLOCK] == XorAll(BlockKey(key), 0x36) + [];
      ctx.Update(pad[..BLOCK], []);
    }

    /** hmac_sha256_update: the length is an int. */
    method Update(data: seq<bv8>, ghost key: seq<bv8>, ghost m: seq<bv8>)
      requires Fed(key, m) && |data| < 0x8000_0000
      modifies ctx, ctx.state, ctx.buf
      ensures Fed(key, m + data)
    {
      hide Context.Fed, XorAll, BlockKey, Passes;
      ShortPasses(ctx.curlen, |data|);
      ctx.Update(data, XorAll(BlockKey(key), 0x36) + m);
      Assoc(XorAll(BlockKey(key), 0x36), m, data);
    }

    /** hmac_sha256_final */
    method Final(ghost key: seq<bv8>, ghost m: seq<bv8>) returns (out: seq<bv8>)
      requires Fed(key, m)
      modifies ctx, ctx.state, ctx.buf, pad
      ensures out == HmacSha(key, m)
    {
      hide Context.Fed, XorAll, BlockKey, Sha, Xor;
      var inner := ctx.Final(XorAll(BlockKey(key), 0x36) + m);
      XorIntoPad(pad, Xor(0x36, 0x5c));
      PadsDiffer(BlockKey(key));
      forall i | 0 <= i < DIGEST {
        pad[BLOCK + i] := inner[i];
      }
      assert pad[..] == XorAll(BlockKey(key), 0x5c) + inner;
      out := Hash(pad[..]);
    }
  }

  /** The loop that changes the padded key. */
  method XorIntoPad(pad: array<bv8>, b: bv8)
    requires pad.Length == BLOCK + DIGEST
    modifies pad
    ensures pad[..BLOCK] == XorAll(old(pad[..BLOCK]), b) && pad[BLOCK..] == old(pad[BLOCK..])
  {
    hide Xor;
    var i := 0;
    while i < BLOCK
      invariant 0 <= i <= BLOCK && forall j :: 0 <= j < pad.Length ==>
                  pad[j] == if j < i then Xor(old(pad[j]), b) else old(pad[j])
    {
      pad[i] := Xor(pad[i], b);
      i := i + 1;
    }
  }

  lemma PadBits(x: bv8)
    ensures (x ^ 0x36) ^ (0x36 ^ 0x5c) == x ^ 0x5c
  {
  }

  lemma PadsDiffer(k: seq<bv8>)
    ensures XorAll(XorAll(k, 0x36), Xor(0x36, 0x5c)) == XorAll(k, 0x5c)
  {
    forall i | 0 <= i < |k| ensures Xor(Xor(k[i], 0x36), Xor(0x36, 0x5c)) == Xor(k[i], 0x5c) { PadBits(k[i]); }
    hide Xor;
  }

  /** The inner loop of pbkdf2_hmac_sha256. */
  method Iterate(pwd: seq<bv8>, first: seq<bv8>, iter: nat) returns (f: seq<bv8>)
    requires |first| < 0x8000_0000
    ensures f == SumU(pwd, first, iter)
  {
    hide HmacSha, Zeros, XorWith;
    f := Zeros(DIGEST);
    var u := first;
    var it := 0;
    while it < iter
      invariant it <= iter && |u| < 0x8000_0000 && u == U(pwd, first, it) && f == SumU(pwd, first, it)
    {
      u := Mac(pwd, u);
      f := XorWith(f, u);
      it := it + 1;
    }
  }

  method Mac(pwd: seq<bv8>, m: seq<bv8>) returns (out: seq<bv8>)
    requires |m| < 0x8000_0000
    ensures out == HmacSha(pwd, m)
  {
    hide HmacSha, HmacContext.Fed;
    var ctx := new HmacContext(pwd);
    ctx.Update(m, pwd, []);
    assert [] + m == m;
    out := ctx.Final(pwd, m);
  }

  /** pbkdf2_hmac_sha256 */
  method Pbkdf2(pwd: seq<bv8>, salt: seq<bv8>, iter: nat, keyLen: nat) returns (out: seq<bv8>)
    requires |salt| <= SALT_MAX
    ensures out == Derived(pwd, salt, iter, 1, keyLen)
  {
    hide SumU, BigEndian;
    out := [];
    var i, left := 1, keyLen;
    while left > 0
      invariant 0 <= left <= keyLen && 1 <= i
      invariant Derived(pwd, salt, iter, 1, keyLen) == out + Derived(pwd, salt, iter, i, left)
    {
      var f := Iterate(pwd, salt + BigEndian(i, 4), iter);
      var l := if left < DIGEST then left else DIGEST;
      DerivedStep(pwd, salt, iter, i, left);
      Assoc(out, f[..l], Derived(pwd, salt, iter, i + 1, left - l));
      out := out + f[..l];
      left := left - l;
      i := i + 1;
    }
  }

  lemma DerivedStep(pwd: seq<bv8>, salt: seq<bv8>, iter: nat, i: nat, left: nat)
    requires left > 0
    ensures var l := if left < DIGEST then left else DIGEST;
            Derived(pwd, salt, iter, i, left) == F(pwd, salt, iter, i)[..l] + Derived(pwd, salt, iter, i + 1, left - l)
  {
    hide F;
    if left == DIGEST {
      assert Derived(pwd, salt, iter, i + 1, 0) == [];
    }
  }
}
