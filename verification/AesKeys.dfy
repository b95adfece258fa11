/** AES keys and blocks as the code computes them (aes.c: AES_set_encrypt_key, AES_set_decrypt_key, AES_encrypt,
    AES_decrypt). */
module AesKeys {
  import opened Aes

  // ----- the key expansion of section 5.2 of FIPS 197

  function SubWord(w: Col): Col { Col(S(w.b0), S(w.b1), S(w.b2), S(w.b3)) }

  function RotWord(w: Col): Col { Col(w.b1, w.b2, w.b3, w.b0) }

  /** The power of x that the step with number `i` adds. */
  function Rcon(i: nat): bv8 {
    if i == 0 then 1 else M2(Rcon(i - 1))
  }

  function RoundsOf(nk: nat): nat { nk + 6 }

  /** Word `i` of the schedule of a key of `nk` words. */
  function KeyWord(key: seq<Col>, i: nat): Col
    requires |key| == 4 || |key| == 6 || |key| == 8
    decreases i
  {
    var nk := |key|;
    if i < nk then key[i]
    else
      var prev := KeyWord(key, i - 1);
      Xor(KeyWord(key, i - nk),
          if i % nk == 0 then Xor(SubWord(RotWord(prev)), Col(Rcon(i / nk - 1), 0, 0, 0))
          else if nk == 8 && i % nk == 4 then SubWord(prev)
          else prev)
  }

  /** The first word of a step, as the tables give it. */
  function FirstWord(first: Col, temp: Col, rcon: bv8): Col {
    Xor(Xor(first, Col(S(temp.b1), S(temp.b2), S(temp.b3), S(temp.b0))), Col(rcon, 0, 0, 0))
  }

  lemma XorAssoc(x: Col, y: Col, z: Col)
    ensures Xor(Xor(x, y), z) == Xor(x, Xor(y, z))
  {
    hide Add;
    AddAssoc(x.b0, y.b0, z.b0); AddAssoc(x.b1, y.b1, z.b1); AddAssoc(x.b2, y.b2, z.b2); AddAssoc(x.b3, y.b3, z.b3);
  }

  ghost predicate Expanded(rk: seq<Col>, key: seq<Col>, n: nat)
    requires |key| == 4 || |key| == 6 || |key| == 8
  {
    n <= |rk| && forall i :: 0 <= i < n ==> rk[i] == KeyWord(key, i)
  }

  /** AES_KEY */
  class AesKey {
    const rdKey: array<Col>
    var rounds: nat

    constructor ()
      ensures fresh(rdKey) && rdKey.Length == 60
    {
      rdKey := new Col[60](i => Col(0, 0, 0, 0));
      rounds := 0;
    }

    ghost predicate Valid()
      reads this
    {
      rdKey.Length == 60 && (rounds == 10 || rounds == 12 || rounds == 14)
    }

    /** The words the schedule uses. */
    ghost function Schedule(): seq<Col>
      reads this, rdKey
      requires Valid()
    {
      rdKey[..4 * rounds + 4]
    }

    /** A word that is the sum of the words one and `nk` places before. */
    method NextWord(ghost key: seq<Col>, nk: nat, i: nat)
      requires nk == |key| && (nk == 4 || nk == 6 || nk == 8)
      requires rdKey.Length == 60 && nk <= i < 60 && i % nk != 0 && (nk == 8 ==> i % nk != 4) &&
               Expanded(rdKey[..], key, i)
      modifies rdKey
      ensures Expanded(rdKey[..], key, i + 1)
    {
      hide Xor, S, Rcon;
      rdKey[i] := Xor(rdKey[i - nk], rdKey[i - 1]);
    }

    /** The first word of each step, by the tables. */
    method FirstWordOfStep(ghost key: seq<Col>, nk: nat, i: nat, step: nat)
      requires nk == |key| && (nk == 4 || nk == 6 || nk == 8)
      requires rdKey.Length == 60 && nk <= i < 60 && i % nk == 0 && i / nk == step + 1 && step < 10 &&
               Expanded(rdKey[..], key, i)
      modifies rdKey
      ensures Expanded(rdKey[..], key, i + 1)
    {
      hide Xor, S, Rcon;
      RconTable(step);
      FirstWordIs(key, i, step);
      rdKey[i] := FirstWord(rdKey[i - nk], rdKey[i - 1], RconByte(step));
    }

    /** The middle word of a step of a 256-bit key. */
    method MiddleWord(ghost key: seq<Col>, i: nat)
      requires |key| == 8 && rdKey.Length == 60 && 8 <= i < 60 && i % 8 == 4 && Expanded(rdKey[..], key, i)
      modifies rdKey
      ensures Expanded(rdKey[..], key, i + 1)
    {
      hide Xor, S, Rcon;
      rdKey[i] := Xor(rdKey[i - 8], SubWord(rdKey[i - 1]));
    }

    /** AES_set_encrypt_key, for a key given as words; the result is -2 for a key of another size. */
    method SetEncryptKey(key: seq<Col>) returns (status: int)
      requires rdKey.Length == 60
      modifies this, rdKey
      ensures status == if |key| == 4 || |key| == 6 || |key| == 8 then 0 else -2
      ensures status == 0 ==> Valid() && rounds == RoundsOf(|key|) && Expanded(rdKey[..], key, 4 * rounds + 4)
    {
      if |key| != 4 && |key| != 6 && |key| != 8 {
        return -2;
      }
      rounds := if |key| == 4 then 10 else if |key| == 6 then 12 else 14;
      hide KeyWord, Xor, S, Rcon;
      var j := 0;
      while j < |key|
        invariant j <= |key| && forall k :: 0 <= k < j ==> rdKey[k] == key[k]
        modifies rdKey
      {
        rdKey[j] := key[j];
        j := j + 1;
      }
      FirstWords(rdKey[..], key);
      if |key| == 4 {
        Expand128(key);
      } else if |key| == 6 {
        Expand192(key);
      } else {
        Expand256(key);
      }
      return 0;
    }

    method Expand128(ghost key: seq<Col>)
      requires |key| == 4 && rdKey.Length == 60 && Expanded(rdKey[..], key, 4)
      modifies rdKey
      ensures Expanded(rdKey[..], key, 44)
    {
      hide Expanded;
      var i, rk := 0, 0;
      while true
        invariant 0 <= i < 10 && rk == 4 * i && Expanded(rdKey[..], key, rk + 4)
        decreases 10 - i
      {
        StepPlaces(4, i);
        FirstWordOfStep(key, 4, rk + 4, i);
        NextWord(key, 4, rk + 5);
        NextWord(key, 4, rk + 6);
        NextWord(key, 4, rk + 7);
        i := i + 1;
        if i == 10 { return; }
        rk := rk + 4;
      }
    }

    method Expand192(ghost key: seq<Col>)
      requires |key| == 6 && rdKey.Length == 60 && Expanded(rdKey[..], key, 6)
      modifies rdKey
      ensures Expanded(rdKey[..], key, 52)
    {
      hide Expanded;
      var i, rk := 0, 0;
      while true
        invariant 0 <= i < 8 && rk == 6 * i && Expanded(rdKey[..], key, rk + 6)
        decreases 8 - i
      {
        StepPlaces(6, i);
        FirstWordOfStep(key, 6, rk + 6, i);
        NextWord(key, 6, rk + 7);
        NextWord(key, 6, rk + 8);
        NextWord(key, 6, rk + 9);
        i := i + 1;
        if i == 8 { return; }
        NextWord(key, 6, rk + 10);
        NextWord(key, 6, rk + 11);
        rk := rk + 6;
      }
    }

    method Expand256(ghost key: seq<Col>)
      requires |key| == 8 && rdKey.Length == 60 && Expanded(rdKey[..], key, 8)
      modifies rdKey
      ensures Expanded(rdKey[..], key, 60)
    {
      hide Expanded;
      var i, rk := 0, 0;
      while true
        invariant 0 <= i < 7 && rk == 8 * i && Expanded(rdKey[..], key, rk + 8)
        decreases 7 - i
      {
        StepPlaces(8, i);
        FirstWordOfStep(key, 8, rk + 8, i);
        NextWord(key, 8, rk + 9);
        NextWord(key, 8, rk + 10);
        NextWord(key, 8, rk + 11);
        i := i + 1;
        if i == 7 { return; }
        MiddleWord(key, rk + 12);
        NextWord(key, 8, rk + 13);
        NextWord(key, 8, rk + 14);
        NextWord(key, 8, rk + 15);
        rk := rk + 8;
      }
    }

    /** AES_set_decrypt_key: the schedule reversed in place, then the inner round keys unmixed. */
    method SetDecryptKey(key: seq<Col>) returns (status: int, ghost enc: seq<Col>)
      requires rdKey.Length == 60
      modifies this, rdKey
      ensures status == if |key| == 4 || |key| == 6 || |key| == 8 then 0 else -2
      ensures status == 0 ==> Valid() && rounds == RoundsOf(|key|) && Expanded(enc, key, 4 * rounds + 4)
      ensures status == 0 ==> IsDecSchedule(rdKey[..], enc, rounds)
    {
      status := SetEncryptKey(key);
      enc := rdKey[..];
      if status < 0 { return; }
      hide Expanded, DecKeyWord;
      ReverseKeys();
      UnmixKeys(enc);
    }

    method SwapKeys(i: nat, j: nat)
      requires rdKey.Length == 60 && i + 4 <= j && j + 4 <= 60
      modifies rdKey
      ensures forall k {:trigger rdKey[k]} :: 0 <= k < 60 ==>
        rdKey[k] == if i <= k < i + 4 then old(rdKey[k - i + j]) else if j <= k < j + 4 then old(rdKey[k - j + i])
          else old(rdKey[k])
    {
      rdKey[i], rdKey[j] := rdKey[j], rdKey[i];
      rdKey[i + 1], rdKey[j + 1] := rdKey[j + 1], rdKey[i + 1];
      rdKey[i + 2], rdKey[j + 2] := rdKey[j + 2], rdKey[i + 2];
      rdKey[i + 3], rdKey[j + 3] := rdKey[j + 3], rdKey[i + 3];
    }

    /** Inverts the order of the round keys. */
    method ReverseKeys()
      requires Valid()
      modifies rdKey
      ensures Reversed(rdKey[..], old(rdKey[..]), 4 * rounds, 0, 0)
    {
      ghost var enc := rdKey[..];
      var i, j := 0, 4 * rounds;
      StartReversed(enc, 4 * rounds);
      hide *;
      while i < j
        invariant 0 <= i && i % 4 == 0 && j % 4 == 0 && i + j == 4 * rounds && -4 <= j - i
        invariant Reversed(rdKey[..], enc, 4 * rounds, i, j + 4)
      {
        ghost var was := rdKey[..];
        SwapKeys(i, j);
        StepReversed(was, rdKey[..], enc, 4 * rounds, i, j);
        i, j := i + 4, j - 4;
      }
      EndReversed(rdKey[..], enc, 4 * rounds, i, j);
    }

    method UnmixAt(p: nat)
      requires rdKey.Length == 60 && p < 60
      modifies rdKey
      ensures rdKey[..] == old(rdKey[..])[p := InvMix(old(rdKey[p]))]
    {
      UnmixByTables(rdKey[p]);
      hide *;
      rdKey[p] := Unmixed(rdKey[p]);
    }

    /** Applies the inverse MixColumn transform to all round keys but the first and the last. */
    method UnmixKeys(ghost enc: seq<Col>)
      requires Valid() && Reversed(rdKey[..], enc, 4 * rounds, 0, 0)
      modifies rdKey
      ensures IsDecSchedule(rdKey[..], enc, rounds)
    {
      ghost var rev := rdKey[..];
      hide *;
      var p := 4;
      while p < 4 * rounds
        invariant 4 <= p <= 4 * rounds
        invariant |rev| == 60 && forall k {:trigger rdKey[..][k]} :: 0 <= k < 60 ==>
          rdKey[..][k] == if 4 <= k < p then InvMix(rev[k]) else rev[k]
      {
        UnmixAt(p);
        p := p + 1;
      }
      ReversedSchedule(rdKey[..], rev, enc, rounds);
    }

    /** AES_encrypt: the full rounds two by two. */
    method Encrypt(b: State) returns (r: State)
      requires Valid()
      ensures r == Cipher(b, rdKey[..], rounds)
    {
      var rk := rdKey[..];
      EncryptingSteps(b, rk, rounds);
      hide *;
      var s := XorState(b, RoundKey(rk, 0));
      var t := s;
      var n, i := rounds / 2, 0;
      while true
        invariant 0 <= i && 0 < n && 2 * n + 2 * i == rounds && s == Encrypting(b, rk, 2 * i)
        decreases n
      {
        t := EncRound(s, RoundKey(rk, 2 * i + 1));
        i, n := i + 1, n - 1;
        if n == 0 { break; }
        s := EncRound(t, RoundKey(rk, 2 * i));
      }
      r := EncLast(t, RoundKey(rk, rounds));
    }

    /** AES_decrypt */
    method Decrypt(b: State) returns (r: State)
      requires Valid()
      ensures r == InvCipher(b, rdKey[..], rounds)
    {
      var rk := rdKey[..];
      DecryptingSteps(b, rk, rounds);
      hide *;
      var s := XorState(b, RoundKey(rk, 0));
      var t := s;
      var n, i := rounds / 2, 0;
      while true
        invariant 0 <= i && 0 < n && 2 * n + 2 * i == rounds && s == Decrypting(b, rk, 2 * i)
        decreases n
      {
        t := DecRound(s, RoundKey(rk, 2 * i + 1));
        i, n := i + 1, n - 1;
        if n == 0 { break; }
        s := DecRound(t, RoundKey(rk, 2 * i));
      }
      r := DecLast(t, RoundKey(rk, rounds));
    }
  }

  lemma EncryptingSteps(b: State, rk: seq<Col>, rounds: nat)
    requires rounds > 0 && 4 * rounds + 4 <= |rk|
    ensures Encrypting(b, rk, 0) == XorState(b, RoundKey(rk, 0))
    ensures forall r: nat :: r < rounds ==>
              Encrypting(b, rk, r + 1) == EncRound(Encrypting(b, rk, r), RoundKey(rk, r + 1))
    ensures Cipher(b, rk, rounds) == EncLast(Encrypting(b, rk, rounds - 1), RoundKey(rk, rounds))
  {
    hide EncRound, EncLast, XorState, RoundKey;
  }

  lemma DecryptingSteps(b: State, rk: seq<Col>, rounds: nat)
    requires rounds > 0 && 4 * rounds + 4 <= |rk|
    ensures Decrypting(b, rk, 0) == XorState(b, RoundKey(rk, 0))
    ensures forall r: nat :: r < rounds ==>
              Decrypting(b, rk, r + 1) == DecRound(Decrypting(b, rk, r), RoundKey(rk, r + 1))
    ensures InvCipher(b, rk, rounds) == DecLast(Decrypting(b, rk, rounds - 1), RoundKey(rk, rounds))
  {
    hide DecRound, DecLast, XorState, RoundKey;
  }

  lemma StepPlaces(nk: nat, i: nat)
    requires nk == 4 || nk == 6 || nk == 8
    ensures (nk * i + nk) % nk == 0 && (nk * i + nk) / nk == i + 1
  {
  }

  /** The table of round constants. */
  function RconByte(i: nat): bv8
    requires i < 10
  {
    if i == 0 then 0x01 else if i == 1 then 0x02 else if i == 2 then 0x04 else if i == 3 then 0x08
    else if i == 4 then 0x10 else if i == 5 then 0x20 else if i == 6 then 0x40 else if i == 7 then 0x80
    else if i == 8 then 0x1b else 0x36
  }

  lemma RconTable(i: nat)
    requires i < 10
    ensures RconByte(i) == Rcon(i)
  {
    assert Rcon(4) == 0x10 && Rcon(8) == 0x1b;
  }

  lemma FirstWordIs(key: seq<Col>, i: nat, step: nat)
    requires |key| == 4 || |key| == 6 || |key| == 8
    requires |key| <= i && i % |key| == 0 && i / |key| == step + 1
    ensures KeyWord(key, i) == FirstWord(KeyWord(key, i - |key|), KeyWord(key, i - 1), Rcon(step))
  {
    var prev := KeyWord(key, i - 1);
    XorAssoc(KeyWord(key, i - |key|), SubWord(RotWord(prev)), Col(Rcon(step), 0, 0, 0));
    hide Xor, S, Rcon;
  }

  lemma FirstWords(rk: seq<Col>, key: seq<Col>)
    requires |key| == 4 || |key| == 6 || |key| == 8
    requires |key| <= |rk| && forall k :: 0 <= k < |key| ==> rk[k] == key[k]
    ensures Expanded(rk, key, |key|)
  {
  }

  /** Where a word goes when the round keys are reversed; `n` is the position of the last one. */
  function Mirror(n: nat, k: nat): nat
    requires k < n + 4 && n % 4 == 0
    ensures Mirror(n, k) < n + 4
  {
    n - k / 4 * 4 + k % 4
  }

  /** The round keys outside `i` .. `j` are in their mirrored places, the ones inside where they were. */
  ghost predicate Reversed(rk: seq<Col>, enc: seq<Col>, n: nat, i: int, j: int)
    requires n % 4 == 0
  {
    |rk| == |enc| == 60 && n + 4 <= 60 &&
    forall k :: 0 <= k < n + 4 ==> rk[k] == if i <= k < j then enc[k] else enc[Mirror(n, k)]
  }

  lemma StartReversed(enc: seq<Col>, n: nat)
    requires |enc| == 60 && n % 4 == 0 && n + 4 <= 60
    ensures Reversed(enc, enc, n, 0, n + 4)
  {
  }

  lemma MirrorKey(n: nat, i: nat, k: nat)
    requires n % 4 == 0 && i % 4 == 0 && i <= k < i + 4 && i <= n
    ensures Mirror(n, k) == n - i + (k - i)
  {
    assert k / 4 == i / 4 && k % 4 == k - i;
  }

  lemma StepReversed(was: seq<Col>, rk: seq<Col>, enc: seq<Col>, n: nat, i: nat, j: nat)
    requires n % 4 == 0 && Reversed(was, enc, n, i, j + 4) && i + j == n && i < j && i % 4 == 0 && j % 4 == 0
    requires |rk| == 60
    requires forall k {:trigger rk[k]} :: 0 <= k < 60 ==>
      rk[k] == if i <= k < i + 4 then was[k - i + j] else if j <= k < j + 4 then was[k - j + i] else was[k]
    ensures Reversed(rk, enc, n, i + 4, j)
  {
    assert i + 4 <= j;
    forall k | 0 <= k < n + 4 ensures rk[k] == if i + 4 <= k < j then enc[k] else enc[Mirror(n, k)] {
      if i <= k < i + 4 {
        MirrorKey(n, i, k);
        assert rk[k] == was[k - i + j] == enc[k - i + j];
        assert Mirror(n, k) == k - i + j;
        assert rk[k] == enc[Mirror(n, k)];
      } else if j <= k < j + 4 {
        MirrorKey(n, j, k);
        assert rk[k] == was[k - j + i] == enc[k - j + i];
        assert Mirror(n, k) == k - j + i;
        assert rk[k] == enc[Mirror(n, k)];
      } else {
        assert rk[k] == was[k];
        assert was[k] == if i <= k < j + 4 then enc[k] else enc[Mirror(n, k)];
      }
    }
  }

  /** The round key in the middle stays where it is. */
  lemma EndReversed(rk: seq<Col>, enc: seq<Col>, n: nat, i: nat, j: int)
    requires n % 8 == 0 && Reversed(rk, enc, n, i, j + 4) && i + j == n && -4 <= j - i <= 0 && i % 4 == 0 && j % 4 == 0
    ensures Reversed(rk, enc, n, 0, 0)
  {
    assert i == j;
    forall k | i <= k < i + 4 ensures Mirror(n, k) == k { MirrorKey(n, i, k); }
  }

  lemma ReversedSchedule(dk: seq<Col>, rev: seq<Col>, enc: seq<Col>, rounds: nat)
    requires Reversed(rev, enc, 4 * rounds, 0, 0) && |dk| == 60
    requires forall k :: 0 <= k < 60 ==> dk[k] == if 4 <= k < 4 * rounds then InvMix(rev[k]) else rev[k]
    ensures IsDecSchedule(dk, enc, rounds)
  {
    hide InvMix;
    forall k | 0 <= k < 4 * rounds + 4 ensures dk[k] == DecKeyWord(enc, rounds, k) { MirrorIs(rounds, k); }
  }

  lemma MirrorIs(rounds: nat, k: nat)
    requires k < 4 * rounds + 4
    ensures Mirror(4 * rounds, k) == 4 * (rounds - k / 4) + k % 4
  {
  }

  /** InvMix of a word by the decryption tables: the substitution is undone by the tables themselves. */
  function Unmixed(w: Col): Col {
    Xor(Xor(Xor(Td0(S(w.b0)), Td1(S(w.b1))), Td2(S(w.b2))), Td3(S(w.b3)))
  }

  lemma UnmixByTables(w: Col)
    ensures Unmixed(w) == InvMix(w)
  {
    ColS(w);
    hide S, Si, ME, MB, MD, M9, Add;
  }

  /** For every key and every block: what AES_decrypt makes, with the schedule of AES_set_decrypt_key, of what
      AES_encrypt made with the schedule of AES_set_encrypt_key, is the block. */
  lemma DecryptUndoesEncrypt(key: seq<Col>, ek: seq<Col>, dk: seq<Col>, enc: seq<Col>, rounds: nat, b: State)
    requires |key| == 4 || |key| == 6 || |key| == 8
    requires rounds == RoundsOf(|key|) && Expanded(ek, key, 4 * rounds + 4) && Expanded(enc, key, 4 * rounds + 4)
    requires IsDecSchedule(dk, enc, rounds)
    ensures InvCipher(Cipher(b, ek, rounds), dk, rounds) == b
  {
    hide KeyWord, InvCipher, Cipher, InvMix;
    assert IsDecSchedule(dk, ek, rounds) by {
      forall i | 0 <= i < 4 * rounds + 4 ensures dk[i] == DecKeyWord(ek, rounds, i) {
        MirrorIs(rounds, i);
        assert enc[Mirror(4 * rounds, i)] == ek[Mirror(4 * rounds, i)];
      }
    }
    InvCipherUndoes(b, ek, dk, rounds);
  }
}
