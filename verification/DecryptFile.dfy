/** The decryption of a file that arrives in chunks (fs_wget.c: decrypt_file, decrypt_file_flush). */
module DecryptFile {
  import opened Options
  import opened Aes
  import opened AesKeys
  import opened CbcFile
  import opened Widths

  const MAGIC: seq<bv8> := [0xfb, 0xa2, 0xe9, 0x01]
  const HEADER: nat := 20
  const CAPACITY: nat := 4096

  // ----- what an encrypted file means

  /** The number of padding bytes that a last byte stands for. */
  function PadLen(b: bv8): nat { b as nat }

  function PadByte(n: nat): bv8
    requires n < 256
  {
    n as bv8
  }

  lemma PadLenOfByte(n: nat)
    requires 0 < n <= BLOCK
    ensures PadLen(PadByte(n)) == n
  {
    assert (n as bv8) as nat == n;
  }

  /** Section 6.3 of RFC 5652 */
  function Padding(n: nat): (s: seq<bv8>)
    ensures 0 < |s| <= BLOCK && (n + |s|) % BLOCK == 0
  {
    var l := BLOCK - n % BLOCK;
    seq(l, i => PadByte(l))
  }

  ghost function Encrypted(k: Key, iv: seq<bv8>, p: seq<bv8>): seq<bv8>
    requires k.Valid() && |iv| == BLOCK
  {
    MAGIC + iv + CbcEncrypt(k, iv, p + Padding(|p|))
  }

  function IvOf(file: seq<bv8>): (iv: seq<bv8>)
    requires HEADER <= |file|
    ensures |iv| == BLOCK
  {
    file[4..HEADER]
  }

  /** The contents of a file, if it has the magic number, whole blocks and a sound padding. */
  ghost function Contents(k: Key, file: seq<bv8>): Option<seq<bv8>>
    requires k.Valid()
  {
    if |file| <= HEADER || file[..4] != MAGIC || (|file| - HEADER) % BLOCK != 0 then None
    else
      var p := CbcDecrypt(k, IvOf(file), file[HEADER..]);
      var pad := PadLen(p[|p| - 1]);
      if 1 <= pad <= BLOCK && pad <= |p| then Some(p[..|p| - pad]) else None
  }

  /** Decrypting undoes encrypting. */
  lemma ContentsOfEncrypted(k: Key, iv: seq<bv8>, p: seq<bv8>)
    requires k.Valid() && |iv| == BLOCK
    ensures Contents(k, Encrypted(k, iv, p)) == Some(p)
  {
    hide CbcDecrypt, CbcEncrypt, PadLen, PadByte, Key.Valid;
    var padded := p + Padding(|p|);
    var file := Encrypted(k, iv, p);
    assert file[..4] == MAGIC && IvOf(file) == iv && file[HEADER..] == CbcEncrypt(k, iv, padded);
    CbcUndone(k, iv, padded);
    PadLenOfByte(BLOCK - |p| % BLOCK);
    assert padded[|padded| - 1] == PadByte(BLOCK - |p| % BLOCK);
    assert padded[..|p|] == p;
  }

  /** Which files have contents, and which ones: the four bytes of the magic number, 16 for the chain and whole blocks,
      the last byte of which, once decrypted, says how many bytes are padding. */
  lemma ContentsIs(k: Key, file: seq<bv8>, r: seq<bv8>)
    requires k.Valid()
    ensures Contents(k, file) == Some(r) <==>
            && |file| > 20 && (|file| - 20) % 16 == 0
            && file[0] == 0xfb && file[1] == 0xa2 && file[2] == 0xe9 && file[3] == 0x01
            && var p := CbcDecrypt(k, file[4..20], file[20..]);
               1 <= p[|p| - 1] as nat <= 16 && r == p[..|p| - p[|p| - 1] as nat]
  {
    hide CbcDecrypt, Key.Valid;
    if |file| > 20 {
      assert file[..4] == [file[0], file[1], file[2], file[3]];
    }
  }

  // ----- what a session holds after `fed` has been taken in

  /** dec_state is 0: the header is not complete, or its magic number is wrong. */
  predicate InHeader(fed: seq<bv8>, pos: nat, buf: seq<bv8>, out: seq<bv8>) {
    && |buf| == CAPACITY && out == [] && pos <= HEADER && pos <= |fed| && buf[..pos] == fed[..pos]
    && if pos == HEADER then fed[..4] != MAGIC else pos == |fed|
  }

  /** dec_state is 1: all but `pos` bytes are decrypted and written, and a block is held back. */
  ghost predicate InBody(k: Key, fed: seq<bv8>, pos: nat, iv: seq<bv8>, buf: seq<bv8>, out: seq<bv8>)
    requires k.Valid()
  {
    && |buf| == CAPACITY && HEADER + pos <= |fed| && fed[..4] == MAGIC && pos <= CAPACITY
    && var m := |fed| - HEADER - pos;
    && m % BLOCK == 0 && (m > 0 ==> BLOCK <= pos)
    && buf[..pos] == fed[HEADER + m..]
    && out == CbcDecrypt(k, IvOf(fed), fed[HEADER..HEADER + m])
    && iv == Chain(IvOf(fed), fed[HEADER..HEADER + m])
  }

  predicate BadMagic(fed: seq<bv8>) {
    HEADER <= |fed| && fed[..4] != MAGIC
  }

  // ----- the width of a length

  /** decrypt_file takes in a chunk of `len` bytes: the length is narrowed to an int at each turn of its loop.  `pos`
      bytes of the header are there, and its magic number is or will be wrong. */
  predicate Passes(inHeader: bool, pos: nat, bad: bool, len: nat) {
    len < SIGNED32 || (inHeader && bad && Int32(len) >= HEADER - pos)
  }

  /** The loop comes to a turn with no bytes, or a negative number of them. */
  ghost predicate Stuck(inHeader: bool, pos: nat, bad: bool, len: nat)
    requires if inHeader then pos <= HEADER else pos < CAPACITY
    decreases len, if inHeader then 1 else 0
  {
    if len == 0 then false
    else if inHeader then
      var n := MinInt(len, HEADER - pos);
      n < 0 || (if pos + n == HEADER then !bad && n <= len && Stuck(false, 0, bad, len - n)
                else n == 0 || n > len || Stuck(true, pos + n, bad, len - n))
    else
      var n := MinInt(len, CAPACITY - pos);
      n <= 0 || n > len || Stuck(false, if pos + n == CAPACITY then BLOCK else pos + n, bad, len - n)
  }

  /** One turn with room for `room` bytes. */
  lemma TurnOf(len: nat, room: nat)
    requires len > 0 && room <= CAPACITY
    ensures var n := MinInt(len, room);
            && n <= len && n <= room && (n > 0 ==> Int32(len - n) == Int32(len) - n)
            && (len < SIGNED32 ==> n == if len < room then len else room)
            && (len >= SIGNED32 && n > 0 ==> len - n >= SIGNED32)
            && (n == room <==> Int32(len) >= room) && (room > 0 ==> (n <= 0 <==> Int32(len) <= 0))
  {
    Int32Keeps(len);
    var k := len / U32;
    assert len == k * U32 + len % U32;
    var n := MinInt(len, room);
    if n > 0 {
      assert Int32(room) == room;
      assert len % U32 < SIGNED32 && (len - n) == k * U32 + (len % U32 - n);
      LowOf(len - n, k, len % U32 - n);
    }
  }

  lemma LowOf(x: nat, k: nat, low: nat)
    requires x == k * U32 + low && low < U32
    ensures x % U32 == low && x / U32 == k
  {
  }

  /** Exactly the chunks shorter than 2^31 bytes are taken in, and those that complete a wrong header at once. */
  lemma {:induction false} StuckIff(inHeader: bool, pos: nat, bad: bool, len: nat)
    requires if inHeader then pos <= HEADER else pos < CAPACITY
    ensures Stuck(inHeader, pos, bad, len) <==> !Passes(inHeader, pos, bad, len)
    decreases len, if inHeader then 1 else 0
  {
    if len > 0 {
      var room := if inHeader then HEADER - pos else CAPACITY - pos;
      TurnOf(len, room);
      hide Int32, MinInt;
      var n := MinInt(len, room);
      if inHeader && n >= 0 {
        if pos + n == HEADER {
          if !bad { StuckIff(false, 0, bad, len - n); }
        } else if n > 0 {
          StuckIff(true, pos + n, bad, len - n);
        }
      } else if !inHeader && n > 0 {
        StuckIff(false, if pos + n == CAPACITY then BLOCK else pos + n, bad, len - n);
      }
    }
  }

  /** Chunks of 2^31 and of 2^32 bytes at the start of a file. */
  lemma LongChunks()
    ensures MinInt(0x8000_0000, HEADER) < 0 && MinInt(0x1_0000_0000, HEADER) == 0
    ensures Stuck(true, 0, false, 0x8000_0000) && Stuck(true, 0, false, 0x1_0000_0000)
  {
  }

  /** A piece of the header; when it completes a wrong header, the rest of the chunk does not matter. */
  lemma HeaderMore(fed: seq<bv8>, pos: nat, data: seq<bv8>, l: nat, now: seq<bv8>)
    requires pos <= HEADER && pos <= |fed| && pos + l <= HEADER && l <= |data| && |now| == pos + l &&
             now == fed[..pos] + data[..l]
    requires if pos == HEADER then fed[..4] != MAGIC else pos == |fed|
    ensures now == (fed + data[..l])[..pos + l] == (fed + data)[..pos + l]
    ensures pos + l == HEADER ==> now[..4] == (fed + data)[..4] == (fed + data[..l])[..4]
  {
  }

  lemma BodyStart(k: Key, fed: seq<bv8>, buf: seq<bv8>)
    requires k.Valid() && |buf| == CAPACITY && |fed| == HEADER && fed[..4] == MAGIC
    ensures InBody(k, fed, 0, fed[4..HEADER], buf, [])
  {
    hide Key.Valid;
    assert fed[HEADER..HEADER] == [] == buf[..0] == fed[HEADER..];
  }

  lemma BodyMore(k: Key, fed: seq<bv8>, pos: nat, iv: seq<bv8>, buf: seq<bv8>, out: seq<bv8>, piece: seq<bv8>,
                 now: seq<bv8>)
    requires k.Valid() && InBody(k, fed, pos, iv, buf, out) && pos + |piece| <= CAPACITY == |now|
    requires now[..pos + |piece|] == buf[..pos] + piece
    ensures InBody(k, fed + piece, pos + |piece|, iv, now, out)
  {
    hide Key.Valid, CbcDecrypt, Chain;
    var m := |fed| - HEADER - pos;
    var all := fed + piece;
    assert all[..4] == fed[..4] && IvOf(all) == IvOf(fed) && all[HEADER..HEADER + m] == fed[HEADER..HEADER + m];
    assert all[HEADER + m..] == fed[HEADER + m..] + piece;
  }

  lemma ChainTwice(iv: seq<bv8>, a: seq<bv8>, b: seq<bv8>)
    requires |iv| == BLOCK && |a| % BLOCK == 0 && |b| >= BLOCK
    ensures Chain(Chain(iv, a), b) == Chain(iv, a + b)
  {
  }

  /** A full buffer is emptied but for its last block. */
  lemma BodyFull(k: Key, fed: seq<bv8>, len: nat, iv: seq<bv8>, buf: seq<bv8>, out: seq<bv8>, now: seq<bv8>)
    requires k.Valid() && InBody(k, fed, CAPACITY, iv, buf, out) && |now| == CAPACITY == |buf| &&
             len == CAPACITY - BLOCK
    requires |iv| == BLOCK && len % BLOCK == 0 && len <= CAPACITY && now[..BLOCK] == buf[len..]
    ensures InBody(k, fed, BLOCK, Chain(iv, buf[..len]), now, out + CbcDecrypt(k, iv, buf[..len]))
  {
    hide Key.Valid, CbcDecrypt, Chain;
    var m := |fed| - HEADER - CAPACITY;
    var a, b := fed[HEADER..HEADER + m], buf[..len];
    assert buf == buf[..CAPACITY] == fed[HEADER + m..];
    assert fed[HEADER..HEADER + m + len] == a + b;
    assert fed[HEADER + m + len..] == buf[len..];
    CbcCut(k, IvOf(fed), a, b);
    ChainTwice(IvOf(fed), a, b);
  }

  lemma BodyBounds(k: Key, fed: seq<bv8>, pos: nat, iv: seq<bv8>, buf: seq<bv8>, out: seq<bv8>)
    requires k.Valid() && InBody(k, fed, pos, iv, buf, out) && pos % BLOCK == 0 && pos > 0
    ensures BLOCK <= pos <= |buf| && |buf[..pos]| == pos && |fed| > HEADER && fed[..4] == MAGIC
    ensures (|fed| - HEADER) % BLOCK == 0 && |fed[HEADER..]| == |fed| - HEADER
  {
    hide Key.Valid, CbcDecrypt, Chain;
  }

  lemma BodyWhole(k: Key, fed: seq<bv8>, pos: nat, iv: seq<bv8>, buf: seq<bv8>, out: seq<bv8>)
    requires k.Valid() && InBody(k, fed, pos, iv, buf, out) && |iv| == BLOCK
    requires BLOCK <= pos <= |buf| && |buf[..pos]| % BLOCK == 0 && |fed| > HEADER && |fed[HEADER..]| % BLOCK == 0
    ensures CbcDecrypt(k, IvOf(fed), fed[HEADER..]) == out + CbcDecrypt(k, iv, buf[..pos])
  {
    hide Key.Valid, CbcDecrypt, Chain;
    var m := |fed| - HEADER - pos;
    var a := fed[HEADER..HEADER + m];
    assert fed[HEADER..] == a + buf[..pos];
    CbcCut(k, IvOf(fed), a, buf[..pos]);
  }

  /** What is left decides the contents. */
  lemma BodyEnd(k: Key, fed: seq<bv8>, pos: nat, iv: seq<bv8>, buf: seq<bv8>, out: seq<bv8>, rest: seq<bv8>)
    requires k.Valid() && InBody(k, fed, pos, iv, buf, out) && |iv| == BLOCK
    requires pos % BLOCK == 0 && pos > 0 && rest == CbcDecrypt(k, iv, buf[..pos])
    ensures pos >= BLOCK && |rest| == pos
    ensures Contents(k, fed) ==
            var pad := PadLen(rest[pos - 1]); if 1 <= pad <= BLOCK then Some(out + rest[..pos - pad]) else None
  {
    hide Key.Valid, CbcDecrypt, Chain, PadLen, InBody;
    BodyBounds(k, fed, pos, iv, buf, out);
    BodyWhole(k, fed, pos, iv, buf, out);
    var pad := PadLen(rest[pos - 1]);
    CutTail(out, rest, if 1 <= pad <= BLOCK then pad else 0);
  }

  lemma CutTail(out: seq<bv8>, rest: seq<bv8>, n: nat)
    requires rest != [] && n <= |rest|
    ensures (out + rest)[|out + rest| - 1] == rest[|rest| - 1]
    ensures (out + rest)[..|out + rest| - n] == out + rest[..|rest| - n]
  {
  }

  /** A file that ends inside the header or inside a block has no contents. */
  lemma NoBodyEnd(k: Key, fed: seq<bv8>, pos: nat, iv: seq<bv8>, buf: seq<bv8>, out: seq<bv8>)
    requires k.Valid()
    requires InHeader(fed, pos, buf, out) || (InBody(k, fed, pos, iv, buf, out) && (pos == 0 || pos % BLOCK != 0))
    ensures Contents(k, fed) == None
  {
    hide Key.Valid, CbcDecrypt, Chain;
  }

  lemma Pieces(fed: seq<bv8>, data: seq<bv8>, i: nat, l: nat)
    requires i + l <= |data|
    ensures fed + data[..0] == fed && fed + data[..|data|] == fed + data
    ensures fed + data[..i] + data[i..] == fed + data
    ensures fed + data[..i] + data[i..][..l] == fed + data[..i + l]
  {
    assert data[..i] + data[i..][..l] == data[..i + l];
  }

  /** DecryptFileState; the callback that takes the plain bytes always succeeds. */
  class Session {
    var decState: nat
    var decBufPos: nat
    const aesState: AesKey
    const iv: array<bv8>
    const decBuf: array<bv8>
    /** The bytes handed to the callback. */
    var written: seq<bv8>
    ghost const k: Key

    ghost predicate KeyFits()
      reads aesState, aesState.rdKey
    {
      && aesState.Valid() && k.Valid() && k.rounds == aesState.rounds && k.dec == aesState.rdKey[..]
      && iv.Length == BLOCK && decBuf.Length == CAPACITY && iv != decBuf && Apart(aesState, iv) &&
         Apart(aesState, decBuf)
    }

    /** The state after `fed` has been taken in. */
    ghost predicate Holds(fed: seq<bv8>)
      reads this, aesState, aesState.rdKey, iv, decBuf
    {
      && KeyFits()
      && if decState == 0 then InHeader(fed, decBufPos, decBuf[..], written)
         else decState == 1 && decBufPos < CAPACITY && InBody(k, fed, decBufPos, iv[..], decBuf[..], written)
    }

    /** The header is complete and wrong. */
    predicate Failed()
      reads this
    {
      decState == 0 && decBufPos == HEADER
    }

    /** decrypt_file_init */
    constructor (aesState: AesKey, ghost k: Key)
      requires aesState.Valid() && k.Valid() && k.rounds == aesState.rounds && k.dec == aesState.rdKey[..]
      ensures this.aesState == aesState && this.k == k && Holds([]) && fresh(iv) && fresh(decBuf)
    {
      this.aesState, this.k := aesState, k;
      decState, decBufPos, written := 0, 0, [];
      iv := new bv8[16](i => 0);
      decBuf := new bv8[4096](i => 0);
    }

    /** Adds bytes to the buffer. */
    method CopyIn(data: seq<bv8>)
      requires decBuf.Length == CAPACITY && decBufPos + |data| <= CAPACITY
      modifies `decBufPos, decBuf
      ensures decBufPos == old(decBufPos) + |data|
      ensures decBuf[..decBufPos] == old(decBuf[..decBufPos]) + data
    {
      var n := 0;
      ghost var was := decBuf[..decBufPos];
      while n < |data|
        invariant n <= |data| && decBuf[..decBufPos + n] == was + data[..n]
        modifies decBuf
      {
        decBuf[decBufPos + n] := data[n];
        n := n + 1;
      }
      decBufPos := decBufPos + |data|;
    }

    /** The first bytes of a chunk while the header is incomplete. */
    method TakeHeader(data: seq<bv8>, ghost fed: seq<bv8>) returns (ret: int, l: nat)
      requires Holds(fed) && decState == 0 && data != []
      requires |data| < SIGNED32 || Int32(|data|) >= HEADER - decBufPos
      modifies this, iv, decBuf
      ensures l <= |data|
      ensures ret == 0 ==> !BadMagic(fed + data)
      ensures ret == 0 ==> Holds(fed + data[..l]) && 0 < l && !Failed()
      ensures ret != 0 ==> Holds(fed + data) && ret == -1 && Failed()
    {
      TurnOf(|data|, HEADER - decBufPos);
      hide Int32, MinInt;
      l := MinInt(|data|, HEADER - decBufPos);
      ghost var pos := decBufPos;
      CopyIn(data[..l]);
      HeaderMore(fed, pos, data, l, decBuf[..decBufPos]);
      if decBufPos >= HEADER {
        if decBuf[..4] != MAGIC {
          return -1, l;
        }
        CopyInto(iv, decBuf[4..HEADER]);
        BodyStart(k, fed + data[..l], decBuf[..]);
        decState := 1;
        decBufPos := 0;
      }
      ret := 0;
    }

    /** Moves the last block to the front. */
    method KeepLast(len: nat)
      requires KeyFits() && len == CAPACITY - BLOCK
      modifies decBuf
      ensures KeyFits() && decState == old(decState) && written == old(written) && iv[..] == old(iv[..])
      ensures decBuf[..BLOCK] == old(decBuf[len..])
    {
      ghost var last := decBuf[len..];
      var n := 0;
      while n < 16
        invariant n <= 16 && decBuf[len..] == last && decBuf[..n] == last[..n]
      {
        decBuf[n] := decBuf[len + n];
        n := n + 1;
      }
    }

    /** AES_cbc_encrypt on the start of the buffer, the callback, and the last block kept. */
    method DecryptAndWrite(len: nat)
      requires KeyFits() && len == CAPACITY - BLOCK && decState == 1
      modifies this, iv, decBuf
      ensures KeyFits() && decState == 1 && decBufPos == BLOCK
      ensures written == old(written) + CbcDecrypt(k, old(iv[..]), old(decBuf[..len]))
      ensures iv[..] == Chain(old(iv[..]), old(decBuf[..len])) && decBuf[..BLOCK] == old(decBuf[len..])
    {
      hide Key.Valid, CbcDecrypt, Chain, Apart;
      CbcDecryptInPlace(aesState, decBuf, len, iv, k);
      written := written + decBuf[..len];
      KeepLast(len);
      decBufPos := BLOCK;
    }

    /** Empties a full buffer but for its last block. */
    method Drain(ghost fed: seq<bv8>)
      requires KeyFits() && decState == 1 && decBufPos == CAPACITY
      requires InBody(k, fed, CAPACITY, iv[..], decBuf[..], written)
      modifies this, iv, decBuf
      ensures Holds(fed) && decState == 1
    {
      var len := decBufPos - BLOCK;
      Lengths(fed, len);
      hide *;
      ghost var buf, chain, out := decBuf[..], iv[..], written;
      DecryptAndWrite(len);
      BodyFull(k, fed, len, chain, buf, out, decBuf[..]);
      HoldsInBody(fed);
    }

    /** The first bytes of a chunk after the header. */
    method TakeBody(data: seq<bv8>, ghost fed: seq<bv8>) returns (l: nat)
      requires Holds(fed) && decState == 1 && data != [] && |data| < SIGNED32
      modifies this, iv, decBuf
      ensures 0 < l <= |data| && !Failed()
      ensures Holds(fed + data[..l])
    {
      hide Key.Valid, CbcDecrypt, Chain, InBody;
      TurnOf(|data|, CAPACITY - decBufPos);
      hide Int32, MinInt;
      l := MinInt(|data|, CAPACITY - decBufPos);
      Fill(data[..l], fed);
      if decBufPos >= CAPACITY {
        Drain(fed + data[..l]);
      }
    }

    /** A piece that fits is added to the buffer. */
    method Fill(piece: seq<bv8>, ghost fed: seq<bv8>)
      requires KeyFits() && decState == 1 && InBody(k, fed, decBufPos, iv[..], decBuf[..], written)
      requires decBufPos + |piece| <= CAPACITY
      modifies `decBufPos, decBuf
      ensures KeyFits() && decBufPos == old(decBufPos) + |piece|
      ensures InBody(k, fed + piece, decBufPos, iv[..], decBuf[..], written)
    {
      hide Key.Valid, CbcDecrypt, Chain, InBody;
      ghost var pos, buf := decBufPos, decBuf[..];
      CopyIn(piece);
      BodyMore(k, fed, pos, iv[..], buf, written, piece, decBuf[..]);
    }

    /** decrypt_file: takes in a chunk; it fails exactly when the header is complete and has another magic number. */
    method Feed(data: seq<bv8>, ghost fed: seq<bv8>) returns (ret: int)
      requires Holds(fed) && Passes(decState == 0, decBufPos, BadMagic(fed + data), |data|)
      modifies this, iv, decBuf
      ensures Holds(fed + data) && k.Valid()
      ensures ret == if data != [] && BadMagic(fed + data) then -1 else 0
    {
      var i := 0;
      Started(data, fed);
      hide *;
      Pieces(fed, data, 0, |data|);
      while i < |data|
        invariant i <= |data| && Holds(fed + data[..i])
        invariant i > 0 ==> !Failed()
        invariant |data| - i < SIGNED32 || Early(data, i, BadMagic(fed + data))
        decreases |data| - i
      {
        ret, i := Turn(data, i, fed);
        if ret < 0 {
          Verdict(fed + data);
          return;
        }
      }
      Verdict(fed + data);
      ret := 0;
    }

    /** One turn of the loop. */
    method Turn(data: seq<bv8>, i: nat, ghost fed: seq<bv8>) returns (ret: int, next: nat)
      requires i < |data| && Holds(fed + data[..i])
      requires |data| - i < SIGNED32 || Early(data, i, BadMagic(fed + data))
      modifies this, iv, decBuf
      ensures i <= next <= |data|
      ensures ret < 0 ==> Holds(fed + data) && ret == -1 && Failed()
      ensures ret >= 0 ==> ret == 0 && i < next && Holds(fed + data[..next]) && !Failed() && |data| - next < SIGNED32
    {
      hide *;
      var l: nat;
      ghost var before := fed + data[..i];
      EarlyIs(data, i, BadMagic(fed + data));
      Pieces(fed, data, i, 0);
      ret := 0;
      if decState == 0 {
        ret, l := TakeHeader(data[i..], before);
        if ret < 0 {
          return ret, i;
        }
      } else {
        KnownState(before);
        l := TakeBody(data[i..], before);
      }
      Pieces(fed, data, i, l);
      next := i + l;
    }

    /** Nothing of a longer chunk is taken in yet, and it completes a wrong header. */
    ghost predicate Early(data: seq<bv8>, i: nat, bad: bool)
      reads this
    {
      i == 0 && decState == 0 && bad && decBufPos <= HEADER && Int32(|data|) >= HEADER - decBufPos
    }

    lemma Started(data: seq<bv8>, fed: seq<bv8>)
      requires Passes(decState == 0, decBufPos, BadMagic(fed + data), |data|) && Holds(fed)
      ensures |data| - 0 < SIGNED32 || Early(data, 0, BadMagic(fed + data))
    {
      hide Key.Valid, CbcDecrypt, Chain, Apart, InBody, Int32;
    }

    lemma EarlyIs(data: seq<bv8>, i: nat, bad: bool)
      ensures Early(data, i, bad) ==>
                bad && decState == 0 && data[i..] == data && Int32(|data[i..]|) >= HEADER - decBufPos
    {
    }

    lemma Lengths(fed: seq<bv8>, len: nat)
      requires KeyFits() && decBufPos == CAPACITY && len == decBufPos - BLOCK
      ensures len % BLOCK == 0 && len == CAPACITY - BLOCK && |iv[..]| == BLOCK && |decBuf[..]| == CAPACITY &&
              len <= CAPACITY
    {
    }

    lemma HoldsInBody(fed: seq<bv8>)
      requires KeyFits() && decState == 1 && decBufPos == BLOCK && InBody(k, fed, BLOCK, iv[..], decBuf[..], written)
      ensures Holds(fed)
    {
      hide InBody;
    }

    lemma KnownState(fed: seq<bv8>)
      requires Holds(fed) && decState != 0
      ensures decState == 1
    {
    }

    lemma Verdict(fed: seq<bv8>)
      requires Holds(fed)
      ensures Failed() <==> BadMagic(fed)
      ensures k.Valid()
    {
      hide Key.Valid, CbcDecrypt, Chain, Apart;
    }

    /** decrypt_file_flush: what is written in the end are the contents of the file, exactly when it has contents. */
    method Flush(ghost fed: seq<bv8>) returns (ret: int)
      requires Holds(fed)
      modifies this, iv, decBuf
      ensures ret == if Contents(k, fed) == None then -1 else 0
      ensures ret == 0 ==> Contents(k, fed) == Some(written)
    {
      hide Key.Valid, CbcDecrypt, Chain, InBody, InHeader, Contents, Apart;
      if decState != 1 {
        NoBodyEnd(k, fed, decBufPos, iv[..], decBuf[..], written);
        return -1;
      }
      var len := decBufPos;
      if len == 0 || len % BLOCK != 0 {
        NoBodyEnd(k, fed, decBufPos, iv[..], decBuf[..], written);
        return -1;
      }
      ghost var rest := CbcDecrypt(k, iv[..], decBuf[..len]);
      BodyEnd(k, fed, len, iv[..], decBuf[..], written, rest);
      CbcDecryptInPlace(aesState, decBuf, len, iv, k);
      assert decBuf[..len] == rest;
      var padLen := PadLen(decBuf[len - 1]);
      if padLen < 1 || padLen > BLOCK {
        return -1;
      }
      ghost var out := written;
      len := len - padLen;
      if len != 0 {
        written := written + decBuf[..len];
      }
      assert decBuf[..len] == rest[..len] && written == out + rest[..len];
      ret := 0;
    }
  }

  // ----- a whole transfer

  function Joined(chunks: seq<seq<bv8>>): seq<bv8> {
    if chunks == [] then [] else chunks[0] + Joined(chunks[1..])
  }

  lemma {:induction false} JoinedMore(chunks: seq<seq<bv8>>, i: nat)
    requires i < |chunks|
    ensures Joined(chunks[..i + 1]) == Joined(chunks[..i]) + chunks[i]
  {
    if i > 0 {
      JoinedMore(chunks[1..], i - 1);
      assert chunks[1..][..i] == chunks[..i + 1][1..] && chunks[1..][..i - 1] == chunks[..i][1..];
    } else {
      assert chunks[..1][1..] == [];
    }
  }

  lemma {:induction false} BadMagicStays(k: Key, chunks: seq<seq<bv8>>, i: nat)
    requires k.Valid() && i <= |chunks| && BadMagic(Joined(chunks[..i]))
    ensures Contents(k, Joined(chunks)) == None
    decreases |chunks| - i
  {
    if i < |chunks| {
      JoinedMore(chunks, i);
      BadMagicStays(k, chunks, i + 1);
    } else {
      assert chunks[..i] == chunks;
    }
  }

  lemma ShortPasses(inHeader: bool, pos: nat, bad: bool, len: nat)
    requires len < SIGNED32
    ensures Passes(inHeader, pos, bad, len)
  {
  }

  /** The callbacks of a transfer: each chunk is taken in, the end of the file flushes.  Whatever the cutting, the
      transfer succeeds exactly when the file has contents, and then the contents are what was written. */
  method Transfer(s: Session, chunks: seq<seq<bv8>>) returns (ret: int)
    requires s.Holds([]) && forall i :: 0 <= i < |chunks| ==> |chunks[i]| < SIGNED32
    modifies s, s.iv, s.decBuf
    ensures ret == if Contents(s.k, Joined(chunks)) == None then -1 else 0
    ensures ret == 0 ==> Contents(s.k, Joined(chunks)) == Some(s.written)
  {
    hide *;
    var i := 0;
    JoinedNone(chunks);
    while i < |chunks|
      invariant i <= |chunks| && s.Holds(Joined(chunks[..i]))
    {
      ghost var fed := Joined(chunks[..i]);
      ShortPasses(s.decState == 0, s.decBufPos, BadMagic(fed + chunks[i]), |chunks[i]|);
      ret := s.Feed(chunks[i], fed);
      JoinedMore(chunks, i);
      i := i + 1;
      if ret < 0 {
        BadMagicStays(s.k, chunks, i);
        return;
      }
    }
    assert chunks[..i] == chunks;
    ret := s.Flush(Joined(chunks));
  }

  lemma JoinedNone(chunks: seq<seq<bv8>>)
    ensures Joined(chunks[..0]) == []
  {
  }

  // ----- from the key words of a file to its contents

  predicate KeyLength(n: nat) { n == 4 || n == 6 || n == 8 }

  /** The schedules that section 5.2 of FIPS 197 gives a key. */
  ghost function KeyOf(key: seq<Col>): (k: Key)
    requires KeyLength(|key|)
    ensures k.Valid() && k.rounds == RoundsOf(|key|) && Expanded(k.enc, key, 4 * k.rounds + 4)
  {
    var rounds := RoundsOf(|key|);
    var n := 4 * rounds + 4;
    var enc := seq(n, i requires 0 <= i => KeyWord(key, i));
    Key(enc, seq(n, i requires 0 <= i < n => DecKeyWord(enc, rounds, i)), rounds)
  }

  ghost predicate SameWords(a: seq<Col>, b: seq<Col>, n: nat) {
    n <= |a| && n <= |b| && forall i :: 0 <= i < n ==> a[i] == b[i]
  }

  lemma {:induction false} SameEncrypting(s: State, a: seq<Col>, b: seq<Col>, r: nat)
    requires SameWords(a, b, 4 * r + 4)
    ensures Encrypting(s, a, r) == Encrypting(s, b, r)
  {
    hide EncRound, XorState;
    if r > 0 {
      SameEncrypting(s, a, b, r - 1);
    }
  }

  lemma SameEncBlock(k: Key, l: Key, b: seq<bv8>)
    requires k.Valid() && l.Valid() && k.rounds == l.rounds && SameWords(k.enc, l.enc, 4 * k.rounds + 4) && |b| == BLOCK
    ensures EncBlock(k, b) == EncBlock(l, b)
  {
    hide EncLast, Encrypting, ToState, FromState;
    SameEncrypting(ToState(b), k.enc, l.enc, k.rounds - 1);
  }

  /** The ciphertext depends on the words of the schedule alone. */
  lemma {:induction false} SameCbc(k: Key, l: Key, iv: seq<bv8>, p: seq<bv8>)
    requires k.Valid() && l.Valid() && k.rounds == l.rounds && SameWords(k.enc, l.enc, 4 * k.rounds + 4)
    requires |iv| == BLOCK && |p| % BLOCK == 0
    ensures CbcEncrypt(k, iv, p) == CbcEncrypt(l, iv, p)
    decreases |p|
  {
    hide EncBlock, XorBytes, Key.Valid, SameWords;
    if p != [] {
      WholeBlocks(|p|);
      var x := XorBytes(p[..BLOCK], iv);
      SameEncBlock(k, l, x);
      SameCbc(k, l, EncBlock(k, x), p[BLOCK..]);
    }
  }

  lemma SameEncrypted(k: Key, key: seq<Col>, iv: seq<bv8>, p: seq<bv8>)
    requires KeyLength(|key|) && k.Valid() && k.rounds == RoundsOf(|key|) && Expanded(k.enc, key, 4 * k.rounds + 4)
    requires |iv| == BLOCK
    ensures Encrypted(k, iv, p) == Encrypted(KeyOf(key), iv, p)
  {
    hide Key.Valid, CbcEncrypt, KeyOf;
    SameCbc(k, KeyOf(key), iv, p + Padding(|p|));
  }

  /** A file that was encrypted under a key arrives, cut into any chunks, and is decrypted with the schedule that the
      code expands from that key: the plaintext comes out. */
  method Receive(key: seq<Col>, chunks: seq<seq<bv8>>, ghost iv: seq<bv8>, ghost p: seq<bv8>)
    returns (ret: int, plain: seq<bv8>)
    requires KeyLength(|key|) && |iv| == BLOCK && Joined(chunks) == Encrypted(KeyOf(key), iv, p)
    requires forall i :: 0 <= i < |chunks| ==> |chunks[i]| < SIGNED32
    ensures ret == 0 && plain == p
  {
    hide Key.Valid, Encrypted, Contents, KeyOf, Joined, Expanded, Session.Holds;
    var aes := new AesKey();
    var status, enc := aes.SetDecryptKey(key);
    ghost var k := ScheduleKey(aes.rdKey[..], enc, aes.rounds);
    SameEncrypted(k, key, iv, p);
    ContentsOfEncrypted(k, iv, p);
    var s := new Session(aes, k);
    ret := Transfer(s, chunks);
    plain := s.written;
  }

  ghost function ScheduleKey(dec: seq<Col>, enc: seq<Col>, rounds: nat): (k: Key)
    requires rounds > 0 && IsDecSchedule(dec, enc, rounds)
    ensures k.Valid() && k == Key(enc, dec, rounds)
  {
    Key(enc, dec, rounds)
  }
}
