/** Cipher block chaining in place and the decryption of a file that arrives in chunks (aes.c: AES_cbc_encrypt,
    fs_wget.c: decrypt_file, decrypt_file_flush). */
module CbcFile {
  import opened Aes
  import opened AesKeys

  const BLOCK: nat := 16

  // ----- blocks as bytes

  function ToCol(b: seq<bv8>, o: nat): Col
    requires o + 4 <= |b|
  {
    Col(b[o], b[o + 1], b[o + 2], b[o + 3])
  }

  function ToState(b: seq<bv8>): State
    requires |b| == BLOCK
  {
    State(ToCol(b, 0), ToCol(b, 4), ToCol(b, 8), ToCol(b, 12))
  }

  function FromCol(c: Col): (b: seq<bv8>)
    ensures |b| == 4
  {
    [c.b0, c.b1, c.b2, c.b3]
  }

  function FromState(s: State): (b: seq<bv8>)
    ensures |b| == BLOCK
  {
    FromCol(s.s0) + FromCol(s.s1) + FromCol(s.s2) + FromCol(s.s3)
  }

  lemma Bytes(b: seq<bv8>, s: State)
    ensures |b| == BLOCK ==> FromState(ToState(b)) == b
    ensures ToState(FromState(s)) == s
  {
  }

  function XorBytes(a: seq<bv8>, b: seq<bv8>): (r: seq<bv8>)
    requires |a| == |b|
    ensures |r| == |a|
  {
    seq(|a|, i requires 0 <= i < |a| => Add(a[i], b[i]))
  }

  lemma XorBytesTwice(a: seq<bv8>, b: seq<bv8>)
    requires |a| == |b|
    ensures XorBytes(XorBytes(a, b), b) == a
  {
    hide Add;
    forall i | 0 <= i < |a| ensures XorBytes(XorBytes(a, b), b)[i] == a[i] {
      AddAssoc(a[i], b[i], b[i]);
      AddComm(b[i], b[i]);
      AddComm(a[i], 0);
    }
  }

  // ----- section 6.2 of NIST SP 800-38A, on a schedule and its number of rounds

  datatype Key = Key(enc: seq<Col>, dec: seq<Col>, rounds: nat) {
    ghost predicate Valid() {
      rounds > 0 && IsDecSchedule(dec, enc, rounds)
    }
  }

  ghost function EncBlock(k: Key, b: seq<bv8>): (r: seq<bv8>)
    requires k.Valid() && |b| == BLOCK
    ensures |r| == BLOCK
  {
    FromState(Cipher(ToState(b), k.enc, k.rounds))
  }

  ghost function DecBlock(k: Key, b: seq<bv8>): (r: seq<bv8>)
    requires k.Valid() && |b| == BLOCK
    ensures |r| == BLOCK
  {
    FromState(InvCipher(ToState(b), k.dec, k.rounds))
  }

  lemma BlockUndone(k: Key, b: seq<bv8>)
    requires k.Valid() && |b| == BLOCK
    ensures DecBlock(k, EncBlock(k, b)) == b
  {
    hide Cipher, InvCipher, FromState, ToState;
    Bytes(b, Cipher(ToState(b), k.enc, k.rounds));
    InvCipherUndoes(ToState(b), k.enc, k.dec, k.rounds);
  }

  lemma WholeBlocks(n: nat)
    requires n % BLOCK == 0 && n > 0
    ensures n >= BLOCK && (n - BLOCK) % BLOCK == 0
  {
  }

  ghost function CbcEncrypt(k: Key, iv: seq<bv8>, p: seq<bv8>): (c: seq<bv8>)
    requires k.Valid() && |iv| == BLOCK && |p| % BLOCK == 0
    ensures |c| == |p|
    decreases |p|
  {
    if p == [] then []
    else
      WholeBlocks(|p|);
      var c := EncBlock(k, XorBytes(p[..BLOCK], iv));
      c + CbcEncrypt(k, c, p[BLOCK..])
  }

  ghost function CbcDecrypt(k: Key, iv: seq<bv8>, c: seq<bv8>): (p: seq<bv8>)
    requires k.Valid() && |iv| == BLOCK && |c| % BLOCK == 0
    ensures |p| == |c|
    decreases |c|
  {
    if c == [] then []
    else
      WholeBlocks(|c|);
      XorBytes(DecBlock(k, c[..BLOCK]), iv) + CbcDecrypt(k, c[..BLOCK], c[BLOCK..])
  }

  lemma {:induction false} CbcUndone(k: Key, iv: seq<bv8>, p: seq<bv8>)
    requires k.Valid() && |iv| == BLOCK && |p| % BLOCK == 0
    ensures CbcDecrypt(k, iv, CbcEncrypt(k, iv, p)) == p
    decreases |p|
  {
    hide EncBlock, DecBlock, XorBytes, Key.Valid;
    if p != [] {
      var x := XorBytes(p[..BLOCK], iv);
      var c := EncBlock(k, x);
      var rest := CbcEncrypt(k, c, p[BLOCK..]);
      assert (c + rest)[..BLOCK] == c && (c + rest)[BLOCK..] == rest;
      BlockUndone(k, x);
      XorBytesTwice(p[..BLOCK], iv);
      CbcUndone(k, c, p[BLOCK..]);
      assert p == p[..BLOCK] + p[BLOCK..];
    }
  }

  /** The chaining value after a ciphertext. */
  function Chain(iv: seq<bv8>, c: seq<bv8>): (r: seq<bv8>)
    requires |iv| == BLOCK
    ensures |r| == BLOCK
  {
    if |c| < BLOCK then iv else c[|c| - BLOCK..]
  }

  /** Decryption may be cut between any two blocks if the chaining value is carried over. */
  lemma {:induction false} CbcCut(k: Key, iv: seq<bv8>, a: seq<bv8>, b: seq<bv8>)
    requires k.Valid() && |iv| == BLOCK && |a| % BLOCK == 0 && |b| % BLOCK == 0
    ensures CbcDecrypt(k, iv, a + b) == CbcDecrypt(k, iv, a) + CbcDecrypt(k, Chain(iv, a), b)
    decreases |a|
  {
    hide DecBlock, XorBytes, Key.Valid;
    if a == [] {
      assert a + b == b;
    } else {
      var ab := a + b;
      assert ab[..BLOCK] == a[..BLOCK] && ab[BLOCK..] == a[BLOCK..] + b;
      CbcCut(k, a[..BLOCK], a[BLOCK..], b);
      assert Chain(a[..BLOCK], a[BLOCK..]) == Chain(iv, a);
    }
  }

  lemma CbcOne(k: Key, iv: seq<bv8>, c: seq<bv8>)
    requires k.Valid() && |iv| == BLOCK && |c| == BLOCK
    ensures CbcDecrypt(k, iv, c) == XorBytes(DecBlock(k, c), iv)
  {
    hide DecBlock, XorBytes;
    assert c[..BLOCK] == c && c[BLOCK..] == [];
  }

  lemma CbcBlock(k: Key, iv: seq<bv8>, c: seq<bv8>, i: nat)
    requires k.Valid() && |iv| == BLOCK && |c| % BLOCK == 0 && i % BLOCK == 0 && i + BLOCK <= |c|
    ensures CbcDecrypt(k, iv, c[..i + BLOCK]) == CbcDecrypt(k, iv, c[..i]) +
            XorBytes(DecBlock(k, c[i..i + BLOCK]), Chain(iv, c[..i]))
    ensures Chain(iv, c[..i + BLOCK]) == c[i..i + BLOCK]
  {
    hide DecBlock, XorBytes, Key.Valid;
    var b := c[i..i + BLOCK];
    assert c[..i + BLOCK] == c[..i] + b;
    CbcCut(k, iv, c[..i], b);
    CbcOne(k, Chain(iv, c[..i]), b);
  }

  // ----- in place

  /** One block decrypted where it is; the chaining value becomes its ciphertext. */
  method DecryptBlock(key: AesKey, buf: array<bv8>, i: nat, iv: array<bv8>, ghost k: Key)
    requires key.Valid() && k.Valid() && k.rounds == key.rounds && k.dec == key.rdKey[..]
    requires i + BLOCK <= buf.Length && iv.Length == BLOCK && buf != iv
    modifies buf, iv
    ensures buf[..] == old(buf[..i]) + XorBytes(DecBlock(k, old(buf[i..i + BLOCK])), old(iv[..])) +
            old(buf[i + BLOCK..])
    ensures iv[..] == old(buf[i..i + BLOCK])
  {
    var tmp := buf[i..i + BLOCK];
    var out := DecryptBytes(key, tmp, k);
    hide *;
    XorInto(buf, i, out, iv);
    CopyInto(iv, tmp);
  }

  /** AES_decrypt on the bytes of a block. */
  method DecryptBytes(key: AesKey, b: seq<bv8>, ghost k: Key) returns (out: seq<bv8>)
    requires key.Valid() && k.Valid() && k.rounds == key.rounds && k.dec == key.rdKey[..] && |b| == BLOCK
    ensures out == DecBlock(k, b)
  {
    hide InvCipher, FromState, ToState, IsDecSchedule;
    var state := key.Decrypt(ToState(b));
    out := FromState(state);
  }

  method XorInto(buf: array<bv8>, i: nat, out: seq<bv8>, iv: array<bv8>)
    requires i + BLOCK <= buf.Length && iv.Length == BLOCK == |out| && buf != iv
    modifies buf
    ensures buf[..] == old(buf[..i]) + XorBytes(out, iv[..]) + old(buf[i + BLOCK..])
  {
    hide Add;
    ghost var whole, x, chain := buf[..], XorBytes(out, iv[..]), iv[..];
    assert forall k :: 0 <= k < BLOCK ==> x[k] == Add(out[k], chain[k]);
    hide XorBytes;
    var n := 0;
    while n < BLOCK
      invariant n <= BLOCK && iv[..] == chain
      invariant buf[..i + n] == whole[..i] + x[..n] && buf[i + n..] == whole[i + n..]
    {
      buf[i + n] := Add(out[n], iv[n]);
      n := n + 1;
    }
  }

  method CopyInto(iv: array<bv8>, tmp: seq<bv8>)
    requires iv.Length == BLOCK == |tmp|
    modifies iv
    ensures iv[..] == tmp
  {
    var n := 0;
    while n < BLOCK
      invariant n <= BLOCK && iv[..n] == tmp[..n]
    {
      iv[n] := tmp[n];
      n := n + 1;
    }
  }

  method NextInPlace(key: AesKey, buf: array<bv8>, i: nat, iv: array<bv8>,
                     ghost k: Key, ghost iv0: seq<bv8>, ghost c: seq<bv8>, ghost tail: seq<bv8>)
    requires key.Valid() && k.Valid() && k.rounds == key.rounds && k.dec == key.rdKey[..]
    requires |iv0| == BLOCK && |c| % BLOCK == 0 && i < |c| && iv.Length == BLOCK && buf != iv
    requires InPlace(k, iv0, c, tail, i, buf[..], iv[..])
    modifies buf, iv
    ensures i + 16 <= |c| && (i + 16) % 16 == 0
    ensures InPlace(k, iv0, c, tail, i + 16, buf[..], iv[..])
  {
    hide *;
    ghost var was, chain := buf[..], iv[..];
    InPlaceBefore(k, iv0, c, tail, i, was, chain);
    DecryptBlock(key, buf, i, iv, k);
    InPlaceStep(k, iv0, c, tail, i, was, chain, buf[..], iv[..]);
  }

  /** The schedule is not stored where the data is. */
  ghost predicate Apart(key: AesKey, a: array<bv8>) {
    var schedule: object := key.rdKey;
    schedule != a
  }

  /** The decrypting half of AES_cbc_encrypt, in place, on whole blocks. */
  method CbcDecryptInPlace(key: AesKey, buf: array<bv8>, len: nat, iv: array<bv8>, ghost k: Key)
    requires key.Valid() && k.Valid() && k.rounds == key.rounds && k.dec == key.rdKey[..]
    requires len <= buf.Length && len % BLOCK == 0 && iv.Length == BLOCK && buf != iv && Apart(key, buf) &&
             Apart(key, iv)
    modifies buf, iv
    ensures buf[..] == CbcDecrypt(k, old(iv[..]), old(buf[..len])) + old(buf[len..])
    ensures iv[..] == Chain(old(iv[..]), old(buf[..len]))
  {
    ghost var c, iv0, tail := buf[..len], iv[..], buf[len..];
    assert buf[..] == c + tail;
    var i := 0;
    hide *;
    InPlaceStart(k, iv0, c, tail);
    while i < len
      invariant i <= len && i % 16 == 0
      invariant InPlace(k, iv0, c, tail, i, buf[..], iv[..])
    {
      NextInPlace(key, buf, i, iv, k, iv0, c, tail);
      i := i + 16;
    }
    InPlaceEnd(k, iv0, c, tail, buf[..], iv[..]);
  }

  /** The first `i` bytes are decrypted, the rest is as it was. */
  ghost predicate InPlace(k: Key, iv0: seq<bv8>, c: seq<bv8>, tail: seq<bv8>, i: nat, buf: seq<bv8>, iv: seq<bv8>)
    requires k.Valid() && |iv0| == BLOCK && |c| % BLOCK == 0
  {
    i <= |c| && i % BLOCK == 0 && buf == CbcDecrypt(k, iv0, c[..i]) + c[i..] + tail && iv == Chain(iv0, c[..i])
  }

  lemma InPlaceStart(k: Key, iv0: seq<bv8>, c: seq<bv8>, tail: seq<bv8>)
    requires k.Valid() && |iv0| == BLOCK && |c| % BLOCK == 0
    ensures InPlace(k, iv0, c, tail, 0, c + tail, iv0)
  {
    hide Key.Valid, DecBlock, XorBytes;
    assert c[..0] == [] && c[0..] == c;
  }

  lemma InPlaceBefore(k: Key, iv0: seq<bv8>, c: seq<bv8>, tail: seq<bv8>, i: nat, buf: seq<bv8>, iv: seq<bv8>)
    requires k.Valid() && |iv0| == BLOCK && |c| % BLOCK == 0 && InPlace(k, iv0, c, tail, i, buf, iv) && i < |c|
    ensures i + BLOCK <= |c| && i + 16 <= |c| && |buf| == |c| + |tail| && |iv| == BLOCK
  {
    hide Key.Valid, CbcDecrypt, Chain;
  }

  lemma InPlaceStep(k: Key, iv0: seq<bv8>, c: seq<bv8>, tail: seq<bv8>, i: nat, was: seq<bv8>, chain: seq<bv8>,
                    now: seq<bv8>,
                    iv: seq<bv8>)
    requires k.Valid() && |iv0| == BLOCK && |c| % BLOCK == 0 && i + BLOCK <= |c| && |was| == |c| + |tail|
    requires InPlace(k, iv0, c, tail, i, was, chain) && |chain| == BLOCK && iv == was[i..i + BLOCK]
    requires now == was[..i] + XorBytes(DecBlock(k, was[i..i + BLOCK]), chain) + was[i + BLOCK..]
    ensures InPlace(k, iv0, c, tail, i + 16, now, iv) && (i + 16) % 16 == 0
  {
    hide Key.Valid, CbcDecrypt, Chain, DecBlock, XorBytes;
    CbcBlock(k, iv0, c, i);
    var done := CbcDecrypt(k, iv0, c[..i]);
    assert |done| == i;
    assert was[..i] == done && was[i..i + BLOCK] == c[i..i + BLOCK] && was[i + BLOCK..] == c[i + BLOCK..] + tail;
  }

  lemma InPlaceEnd(k: Key, iv0: seq<bv8>, c: seq<bv8>, tail: seq<bv8>, buf: seq<bv8>, iv: seq<bv8>)
    requires k.Valid() && |iv0| == BLOCK && |c| % BLOCK == 0 && InPlace(k, iv0, c, tail, |c|, buf, iv)
    ensures buf == CbcDecrypt(k, iv0, c) + tail && iv == Chain(iv0, c)
  {
    hide Key.Valid, CbcDecrypt, Chain;
    assert c[..|c|] == c && c[|c|..] == [];
  }
}
