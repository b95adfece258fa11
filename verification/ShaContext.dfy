/** Hashing a message that arrives in pieces (sha256.c: SHA256_Init, SHA256_Update, SHA256_Final, sha256_compress). */
module ShaContext {
  import opened Sequences
  import opened Sha256
  import opened Widths

  // ----- the logical functions as the code writes them

  function CodeCh(x: Word, y: Word, z: Word): Word { z ^ (x & (y ^ z)) }

  function CodeMaj(x: Word, y: Word, z: Word): Word { ((x | y) & z) | (x & y) }

  lemma ChBits(x: Word, y: Word, z: Word)
    ensures z ^ (x & (y ^ z)) == (x & y) ^ (!x & z)
  {
  }

  lemma MajBits(x: Word, y: Word, z: Word)
    ensures ((x | y) & z) | (x & y) == (x & y) ^ (x & z) ^ (y & z)
  {
  }

  lemma CodeChIs(x: Word, y: Word, z: Word)
    ensures CodeCh(x, y, z) == Ch(x, y, z)
  {
    ChBits(x, y, z);
  }

  lemma CodeMajIs(x: Word, y: Word, z: Word)
    ensures CodeMaj(x, y, z) == Maj(x, y, z)
  {
    MajBits(x, y, z);
  }

  function CodeT0(e: Word, f: Word, g: Word, h: Word, k: Word, w: Word): Word {
    Sum(Sum(Sum(Sum(h, BigSigma1(e)), CodeCh(e, f, g)), k), w)
  }

  function CodeT1(a: Word, b: Word, c: Word): Word { Sum(BigSigma0(a), CodeMaj(a, b, c)) }

  lemma CodeT0Is(e: Word, f: Word, g: Word, h: Word, k: Word, w: Word)
    ensures CodeT0(e, f, g, h, k, w) == T1(e, f, g, h, k, w)
  {
    hide CodeCh, Ch, BigSigma1, Sum;
    CodeChIs(e, f, g);
  }

  lemma CodeT1Is(a: Word, b: Word, c: Word)
    ensures CodeT1(a, b, c) == T2(a, b, c)
  {
    hide CodeMaj, Maj, BigSigma0, Sum;
    CodeMajIs(a, b, c);
  }

  // ----- the rounds that rotate the names of the registers

  /** The registers a .. h when the first one is kept `r` places before its place. */
  function View(s: Regs, r: nat): Regs
    requires r < 8
  {
    seq(8, j requires 0 <= j < 8 => s[At(r, j)])
  }

  /** Register `x` of a view. */
  function At(r: nat, x: nat): (i: nat)
    requires r < 8 && x < 8
    ensures i < 8
  {
    if r <= x then x - r else x + 8 - r
  }

  /** Two registers change: the fourth is added to, the last is replaced. */
  function RndRegs(s: Regs, r: nat, t0: Word, t1: Word): Regs
    requires r < 8
  {
    s[At(r, 3) := Sum(s[At(r, 3)], t0)][At(r, 7) := Sum(t0, t1)]
  }

  function Next(r: nat): (n: nat)
    requires r < 8
    ensures n < 8
  {
    if r == 7 then 0 else r + 1
  }

  lemma AtNext(r: nat, j: nat)
    requires r < 8 && j < 8
    ensures At(Next(r), j) == At(r, if j == 0 then 7 else j - 1)
    ensures forall i :: 0 <= i < 8 && i != j ==> At(r, i) != At(r, j)
  {
  }

  /** A round on rotated names is a round. */
  lemma RndIsRound(s: Regs, r: nat, v: Regs, k: Word, w: Word)
    requires r < 8 && v == View(s, r)
    ensures View(RndRegs(s, r, T1(v[4], v[5], v[6], v[7], k, w), T2(v[0], v[1], v[2])), Next(r)) == Round(v, k, w)
  {
    hide T1, T2, Sum, At, Next;
    var t0, t1 := T1(v[4], v[5], v[6], v[7], k, w), T2(v[0], v[1], v[2]);
    var x := RndRegs(s, r, t0, t1);
    var y := Round(v, k, w);
    forall j | 0 <= j < 8 ensures x[At(Next(r), j)] == y[j] {
      AtNext(r, j);
      var i := if j == 0 then 7 else j - 1;
      AtNext(r, i);
      assert v[i] == s[At(r, i)];
      if i == 7 { assert y[j] == Sum(t0, t1); }
      else if i == 3 { assert y[j] == Sum(v[3], t0); }
      else { assert y[j] == v[i]; }
    }
  }

  lemma ViewWhole(s: Regs)
    ensures View(s, 0) == s
  {
  }

  /** RND */
  method Rnd(s: array<Word>, a: nat, b: nat, c: nat, d: nat, e: nat, f: nat, g: nat, h: nat, k: Word, w: Word,
             ghost r: nat)
    requires s.Length == 8 && r < 8 && a == At(r, 0) && b == At(r, 1) && c == At(r, 2) && d == At(r, 3)
    requires e == At(r, 4) && f == At(r, 5) && g == At(r, 6) && h == At(r, 7)
    modifies s
    ensures View(s[..], Next(r)) == Round(View(old(s[..]), r), k, w)
  {
    hide CodeT0, CodeT1, T1, T2, Sum, Round;
    ghost var was := s[..];
    RndIsRound(was, r, View(was, r), k, w);
    var t0 := CodeT0(s[e], s[f], s[g], s[h], k, w);
    var t1 := CodeT1(s[a], s[b], s[c]);
    CodeT0Is(s[e], s[f], s[g], s[h], k, w);
    CodeT1Is(s[a], s[b], s[c]);
    s[d] := Sum(s[d], t0);
    s[h] := Sum(t0, t1);
    assert s[..] == RndRegs(was, r, t0, t1);
  }

  /** All rounds. */
  method AllRounds(s: array<Word>, w: array<Word>, ghost st: Regs, ghost block: seq<bv8>)
    requires s.Length == 8 && w.Length == 64 && s != w && |block| == 64
    requires forall t :: 0 <= t < 64 ==> w[t] == W(block, t)
    requires s[..] == st
    modifies s
    ensures s[..] == Rounds(st, block, 64)
  {
    hide Rounds, Round, W;
    RoundsAre(st, block, 0);
    var i := 0;
    while i < 64
      invariant 0 <= i <= 64 && i % 8 == 0
      invariant s[..] == Rounds(st, block, i)
    {
      EightRounds(s, w, i, st, block);
      i := i + 8;
    }
  }

  method Feedback(state: array<Word>, s: array<Word>)
    requires state.Length == 8 == s.Length && s != state
    modifies state
    ensures state[..] == AddRegs(old(state[..]), s[..])
  {
    hide Sum;
    var i := 0;
    while i < 8
      invariant 0 <= i <= 8
      invariant forall j :: 0 <= j < 8 ==> state[j] == if j < i then Sum(old(state[j]), s[j]) else old(state[j])
    {
      state[i] := Sum(state[i], s[i]);
      i := i + 1;
    }
  }

  /** The message schedule, the rounds with rotated names, and the feedback; the state is updated in place. */
  method Compress(state: array<Word>, block: seq<bv8>)
    requires state.Length == 8 && |block| == 64
    modifies state
    ensures state[..] == Compressed(old(state[..]), block)
  {
    hide Round, KAt, AddRegs, W;
    ghost var st: Regs := state[..];
    var w := Schedule(block);
    var s := new Word[8];
    forall i | 0 <= i < 8 {
      s[i] := state[i];
    }
    assert s[..] == st;
    AllRounds(s, w, st, block);
    assert state[..] == st;
    Feedback(state, s);
  }

  lemma RoundsAre(s: Regs, block: seq<bv8>, t: nat)
    requires |block| == 64 && t <= 64
    ensures Rounds(s, block, t) == if t == 0 then s else Round(Rounds(s, block, t - 1), KAt(t - 1), W(block, t - 1))
  {
    hide Round, KAt, W;
  }

  lemma WordsAre(block: seq<bv8>, t: nat)
    requires |block| == 64
    ensures W(block, t) ==
            if t < 16 then WordAt(block, 4 * t)
            else Sum(Sum(Sum(SmallSigma1(W(block, t - 2)), W(block, t - 7)), SmallSigma0(W(block, t - 15))),
                     W(block, t - 16))
  {
    hide Sum, SmallSigma0, SmallSigma1, WordAt;
  }

  /** W[0] .. W[63] */
  method Schedule(block: seq<bv8>) returns (w: array<Word>)
    requires |block| == 64
    ensures fresh(w) && w.Length == 64 && forall t :: 0 <= t < 64 ==> w[t] == W(block, t)
  {
    hide W, WordAt, Sum, SmallSigma0, SmallSigma1;
    w := new Word[64](i => 0);
    var i := 0;
    while i < 16
      invariant i <= 16 && forall t :: 0 <= t < i ==> w[t] == W(block, t)
    {
      WordsAre(block, i);
      w[i] := WordAt(block, 4 * i);
      i := i + 1;
    }
    while i < 64
      invariant 16 <= i <= 64 && forall t :: 0 <= t < i ==> w[t] == W(block, t)
    {
      WordsAre(block, i);
      w[i] := Sum(Sum(Sum(SmallSigma1(w[i - 2]), w[i - 7]), SmallSigma0(w[i - 15])), w[i - 16]);
      i := i + 1;
    }
  }

  /** Eight rounds, after which the registers are back in their places. */
  method EightRounds(s: array<Word>, w: array<Word>, i: nat, ghost st: Regs, ghost block: seq<bv8>)
    requires s.Length == 8 && w.Length == 64 && s != w && i + 8 <= 64 && |block| == 64
    requires forall t :: 0 <= t < 64 ==> w[t] == W(block, t)
    requires s[..] == Rounds(st, block, i)
    modifies s
    ensures s[..] == Rounds(st, block, i + 8)
  {
    hide Rounds, Round, W, KAt, View;
    ViewWhole(s[..]);
    RoundsAre(st, block, i + 1);
    Rnd(s, 0, 1, 2, 3, 4, 5, 6, 7, KAt(i), w[i], 0);
    RoundsAre(st, block, i + 2);
    Rnd(s, 7, 0, 1, 2, 3, 4, 5, 6, KAt(i + 1), w[i + 1], 1);
    RoundsAre(st, block, i + 3);
    Rnd(s, 6, 7, 0, 1, 2, 3, 4, 5, KAt(i + 2), w[i + 2], 2);
    RoundsAre(st, block, i + 4);
    Rnd(s, 5, 6, 7, 0, 1, 2, 3, 4, KAt(i + 3), w[i + 3], 3);
    RoundsAre(st, block, i + 5);
    Rnd(s, 4, 5, 6, 7, 0, 1, 2, 3, KAt(i + 4), w[i + 4], 4);
    RoundsAre(st, block, i + 6);
    Rnd(s, 3, 4, 5, 6, 7, 0, 1, 2, KAt(i + 5), w[i + 5], 5);
    RoundsAre(st, block, i + 7);
    Rnd(s, 2, 3, 4, 5, 6, 7, 0, 1, KAt(i + 6), w[i + 6], 6);
    RoundsAre(st, block, i + 8);
    Rnd(s, 1, 2, 3, 4, 5, 6, 7, 0, KAt(i + 7), w[i + 7], 7);
    ViewWhole(s[..]);
  }

  // ----- the context

  lemma HashedNone(s: Regs)
    ensures Hashed(s, []) == s
  {
  }

  lemma HashedMore(s: Regs, data: seq<bv8>, block: seq<bv8>)
    requires |data| % 64 == 0 && |block| == 64
    ensures Hashed(s, data + block) == Compressed(Hashed(s, data), block)
  {
    hide Compressed;
    var all := data + block;
    assert all[..|all| - 64] == data && all[|all| - 64..] == block;
  }

  /** What the context holds after the message `m`: the whole blocks are hashed, the rest is in the buffer. */
  predicate Holds(m: seq<bv8>, state: Regs, buf: seq<bv8>, curlen: nat) {
    && curlen <= |m| && curlen <= |buf| == 64 && (|m| - curlen) % 64 == 0
    && buf[..curlen] == m[|m| - curlen..] && state == Hashed(Init(), m[..|m| - curlen])
  }

  /** A whole block straight from the input. */
  lemma HoldsBlock(m: seq<bv8>, state: Regs, buf: seq<bv8>, block: seq<bv8>)
    requires Holds(m, state, buf, 0) && |block| == 64
    ensures Holds(m + block, Compressed(state, block), buf, 0)
  {
    hide Compressed, Init, Hashed;
    assert m[..|m|] == m && (m + block)[..|m + block|] == m + block;
    HashedMore(Init(), m, block);
  }

  lemma HoldsMore(m: seq<bv8>, state: Regs, buf: seq<bv8>, curlen: nat, piece: seq<bv8>, now: seq<bv8>)
    requires Holds(m, state, buf, curlen) && |now| == 64 && curlen + |piece| <= 64
    requires now[..curlen + |piece|] == buf[..curlen] + piece
    ensures Holds(m + piece, state, now, curlen + |piece|)
  {
    hide Compressed, Init, Hashed;
    var all := m + piece;
    assert all[..|m| - curlen] == m[..|m| - curlen];
    assert all[|m| - curlen..] == m[|m| - curlen..] + piece;
  }

  lemma HoldsFull(m: seq<bv8>, state: Regs, buf: seq<bv8>)
    requires Holds(m, state, buf, 64)
    ensures Holds(m, Compressed(state, buf), buf, 0)
  {
    hide Compressed, Init, Hashed;
    assert buf[..64] == buf;
    var front := m[..|m| - 64];
    assert m == front + buf && m[..|m|] == m;
    HashedMore(Init(), front, buf);
  }

  lemma HoldsDone(m: seq<bv8>, state: Regs, buf: seq<bv8>)
    requires Holds(m, state, buf, 0)
    ensures |m| % 64 == 0 && state == Hashed(Init(), m)
  {
    hide Init, Hashed;
    assert m[..|m|] == m;
  }

  lemma HoldsNothing(state: Regs, buf: seq<bv8>)
    requires state == Init() && |buf| == 64
    ensures Holds([], state, buf, 0)
  {
    hide Init;
    HashedNone(state);
    assert buf[..0] == [];
  }

  lemma ZerosMore(n: nat, k: nat)
    ensures Zeros(n) + Zeros(k) == Zeros(n + k) && Zeros(n) + [0] == Zeros(n + 1)
  {
  }

  // ----- the width of a length

  /** SHA256_Update takes `len` further bytes behind `c` bytes in the buffer. */
  predicate Passes(c: nat, len: nat) {
    c == 0 || len == 0 || (Int32(len) > 0 && (Int32(len) == len || Int32(len) >= 64 - c))
  }

  /** The loop of SHA256_Update comes to a turn that copies nothing, or a negative number of bytes. */
  ghost predicate Stuck(c: nat, len: nat)
    requires c < 64
    decreases len
  {
    if len == 0 then false
    else if c == 0 && len >= 64 then Stuck(0, len - 64)
    else
      var n := MinInt(len, 64 - c);
      n <= 0 || Stuck(if c + n == 64 then 0 else c + n, len - n)
  }

  /** One turn of the loop. */
  lemma PassesOn(c: nat, len: nat)
    requires c < 64 && len > 0 && Passes(c, len)
    ensures c == 0 && len >= 64 ==> Passes(0, len - 64)
    ensures (c == 0 ==> len < 64) ==>
              var n := MinInt(len, 64 - c);
              && 0 < n <= len && c + n <= 64 && n == (if 64 - c < len then 64 - c else len)
              && Passes(if c + n == 64 then 0 else c + n, len - n)
  {
  }

  lemma IntOf(n: nat)
    ensures Int32(n) <= n && (n < 0x8000_0000 ==> Int32(n) == n)
  {
  }

  lemma IntLess(n: nat, k: nat)
    requires k <= Int32(n)
    ensures k <= n && Int32(n - k) == Int32(n) - k
  {
    assert (n - k) % 0x1_0000_0000 == n % 0x1_0000_0000 - k;
  }

  /** A turn that copies some bytes changes nothing about the lengths that pass. */
  lemma TurnBack(c: nat, len: nat)
    requires c < 64 && len > 0 && (c == 0 ==> len < 64)
    requires var n := MinInt(len, 64 - c); 0 < n <= len && Passes(if c + n == 64 then 0 else c + n, len - n)
    ensures Passes(c, len)
  {
    IntOf(len);
    IntOf(64 - c);
    IntLess(len, MinInt(len, 64 - c));
    hide Int32;
  }

  /** A turn passes exactly when it copies something and the rest passes. */
  lemma TurnOf(c: nat, len: nat)
    requires c < 64 && len > 0 && (c == 0 ==> len < 64)
    ensures var n := MinInt(len, 64 - c);
            && n <= len && c + n <= 64
            && (Passes(c, len) <==> n > 0 && Passes(if c + n == 64 then 0 else c + n, len - n))
  {
    hide Passes, Int32;
    IntOf(len);
    IntOf(64 - c);
    var n := MinInt(len, 64 - c);
    if Passes(c, len) {
      PassesOn(c, len);
    } else if n > 0 && Passes(if c + n == 64 then 0 else c + n, len - n) {
      TurnBack(c, len);
    }
  }

  lemma EmptyPasses(len: nat)
    ensures Passes(0, len)
  {
  }

  /** The width is met exactly when the buffer is empty, or the length survives the conversion,
      or what is left of it fills the buffer. */
  lemma {:induction false} StuckIff(c: nat, len: nat)
    requires c < 64
    ensures Stuck(c, len) <==> !Passes(c, len)
    decreases len
  {
    hide Passes, MinInt;
    if len == 0 {
      ShortPasses(c, len);
    } else if c == 0 && len >= 64 {
      StuckIff(0, len - 64);
      EmptyPasses(len);
      EmptyPasses(len - 64);
    } else {
      TurnOf(c, len);
      var n := MinInt(len, 64 - c);
      if n > 0 {
        StuckIff(if c + n == 64 then 0 else c + n, len - n);
      }
    }
  }

  lemma ShortPasses(c: nat, len: nat)
    requires len < 0x8000_0000
    ensures Passes(c, len)
  {
  }

  /** One byte in the buffer: 2^31 more make a negative count, 2^32 more a count of zero. */
  lemma LongPieces()
    ensures MinInt(0x8000_0000, 63) < 0 && MinInt(0x1_0000_0000, 63) == 0
    ensures Stuck(1, 0x8000_0000) && Stuck(1, 0x1_0000_0000) && !Stuck(1, 0x7fff_ffff)
  {
    StuckIff(1, 0x7fff_ffff);
  }

  /** SHA256_CTX */
  class Context {
    var length: nat
    const state: array<Word>
    var curlen: nat
    const buf: array<bv8>

    /** `m` is what was put in. */
    ghost predicate Taken(m: seq<bv8>)
      reads `curlen, state, buf
    {
      state.Length == 8 && buf.Length == 64 && Holds(m, state[..], buf[..], curlen)
    }

    ghost predicate Fed(m: seq<bv8>)
      reads this, state, buf
    {
      Taken(m) && curlen < 64 && length == 8 * (|m| - curlen)
    }

    /** SHA256_Init */
    constructor ()
      ensures Fed([]) && curlen == 0 && fresh(state) && fresh(buf)
    {
      hide Holds;
      length, curlen := 0, 0;
      var init := Init();
      state := new Word[8](i requires 0 <= i < 8 => init[i]);
      buf := new bv8[64](i => 0);
      new;
      assert state[..] == init;
      HoldsNothing(state[..], buf[..]);
    }

    /** memcpy to the end of what is in the buffer. */
    method Append(piece: seq<bv8>)
      requires buf.Length == 64 && curlen + |piece| <= 64
      modifies `curlen, buf
      ensures curlen == old(curlen) + |piece| && buf[..curlen] == old(buf[..curlen]) + piece
    {
      ghost var was := buf[..curlen];
      var n := 0;
      while n < |piece|
        invariant n <= |piece| && buf[..curlen + n] == was + piece[..n]
        modifies buf
      {
        buf[curlen + n] := piece[n];
        n := n + 1;
      }
      curlen := curlen + |piece|;
    }

    /** The full buffer is compressed. */
    method Flush(ghost m: seq<bv8>)
      requires Taken(m) && curlen == 64
      modifies `curlen, state
      ensures Taken(m) && curlen == 0
    {
      hide Holds, Compressed;
      ghost var was := state[..];
      Compress(state, buf[..]);
      HoldsFull(m, was, buf[..]);
      curlen := 0;
    }

    method TakeBlock(block: seq<bv8>, ghost m: seq<bv8>)
      requires Taken(m) && curlen == 0 && |block| == 64
      modifies state
      ensures Taken(m + block)
    {
      hide Holds, Compressed;
      ghost var was := state[..];
      Compress(state, block);
      HoldsBlock(m, was, buf[..], block);
    }

    method TakePiece(piece: seq<bv8>, ghost m: seq<bv8>)
      requires Taken(m) && curlen + |piece| <= 64
      modifies `curlen, buf
      ensures Taken(m + piece) && curlen == old(curlen) + |piece|
    {
      hide Holds;
      ghost var was, n := buf[..], curlen;
      Append(piece);
      HoldsMore(m, state[..], was, n, piece, buf[..]);
    }

    /** SHA256_Update: a further piece of the message. */
    method Update(data: seq<bv8>, ghost m: seq<bv8>)
      requires Fed(m) && Passes(curlen, |data|)
      modifies this, state, buf
      ensures Fed(m + data)
    {
      hide Taken, Passes, MinInt;
      var i := 0;
      assert m + data[..0] == m;
      while i < |data|
        invariant i <= |data| && Fed(m + data[..i]) && Passes(curlen, |data| - i)
      {
        ghost var before := m + data[..i];
        PassesOn(curlen, |data| - i);
        var n := |data| - i;
        if curlen == 0 && n >= 64 {
          n := 64;
          TakeBlock(data[i..i + n], before);
          length := length + 512;
        } else {
          n := MinInt(n, 64 - curlen);
          TakePiece(data[i..i + n], before);
          if curlen == 64 {
            Flush(before + data[i..i + n]);
            length := length + 512;
          }
        }
        assert before + data[i..i + n] == m + data[..i + n];
        i := i + n;
      }
      assert data[..i] == data;
    }

    /** Zeros up to a place in the buffer. */
    method PadZeros(upTo: nat, ghost m: seq<bv8>)
      requires Taken(m) && curlen <= upTo <= 64
      modifies `curlen, buf
      ensures Taken(m + Zeros(upTo - old(curlen))) && curlen == upTo
    {
      hide Taken, Zeros;
      ghost var start := curlen;
      ZerosMore(0, 0);
      assert m + Zeros(0) == m;
      while curlen < upTo
        invariant start <= curlen <= upTo && Taken(m + Zeros(curlen - start))
      {
        ghost var n := curlen - start;
        TakePiece([0], m + Zeros(n));
        ZerosMore(n, 0);
        assert m + Zeros(n) + [0] == m + Zeros(n + 1);
      }
    }

    /** The end of SHA256_Final: the length and the last block. */
    method AppendLength(ghost m: seq<bv8>, ghost padded: seq<bv8>)
      requires Taken(padded) && curlen == 56 && length == 8 * |m|
      modifies `curlen, state, buf
      ensures state.Length == 8 && (|padded| + 8) % 64 == 0 &&
              state[..] == Hashed(Init(), padded + BigEndian(8 * |m|, 8))
    {
      hide Holds, BigEndian, Hashed, Init;
      ghost var all := padded + BigEndian(8 * |m|, 8);
      TakePiece(BigEndian(length, 8), padded);
      Flush(all);
      HoldsDone(all, state[..], buf[..]);
    }

    lemma Counted(m: seq<bv8>)
      requires Taken(m)
      ensures curlen <= |m| && (|m| - curlen) % 64 == 0
    {
    }

    /** SHA256_Final: the hash of everything that was put in. */
    method Final(ghost m: seq<bv8>) returns (out: seq<bv8>)
      requires Fed(m)
      modifies this, state, buf
      ensures out == Sha(m)
    {
      hide Taken, Zeros, BigEndian, Hashed, Init, Digest, Padded, ZeroCount;
      Counted(m);
      length := length + 8 * curlen;
      ghost var c := curlen;
      TakePiece([0x80], m);
      ghost var padded := m + [0x80];
      if curlen > 56 {
        PadZeros(64, padded);
        padded := padded + Zeros(63 - c);
        Flush(padded);
      }
      PadZeros(56, padded);
      padded := padded + Zeros(if c + 1 > 56 then 56 else 55 - c);
      ZeroCountOf(|m|, c);
      AppendedIsPadded(m, padded, c);
      AppendLength(m, padded);
      out := Digest(state[..]);
    }
  }

  /** The padding as it is appended. */
  lemma AppendedIsPadded(m: seq<bv8>, appended: seq<bv8>, c: nat)
    requires c < 64 && ZeroCount(|m|) == if c + 1 > 56 then 119 - c else 55 - c
    requires appended == if c + 1 > 56 then m + [0x80] + Zeros(63 - c) + Zeros(56) else m + [0x80] + Zeros(55 - c)
    ensures appended + BigEndian(8 * |m|, 8) == Padded(m)
  {
    hide ZeroCount, Zeros, BigEndian;
    if c + 1 > 56 {
      ZerosMore(63 - c, 56);
      Assoc(m + [0x80], Zeros(63 - c), Zeros(56));
    }
  }

  lemma ZeroCountOf(n: nat, c: nat)
    requires c < 64 && c <= n && (n - c) % 64 == 0
    ensures ZeroCount(n) == if c + 1 > 56 then 119 - c else 55 - c
  {
    assert n % 64 == c;
  }

  /** SHA256 */
  method Hash(data: seq<bv8>) returns (out: seq<bv8>)
    ensures out == Sha(data)
  {
    hide Sha;
    var ctx := new Context();
    ctx.Update(data, []);
    assert [] + data == data;
    out := ctx.Final(data);
  }
}
