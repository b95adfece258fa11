/** What get_phys_addr finds (riscv_cpu.c), for each of the page table formats sv32, sv39 and sv48: by page numbers and
    the numbers in memory, after sections 4.3 to 4.5 of the RISC-V privileged architecture 1.10. */
module SvWalk {
  import opened Powers
  import opened PhysMemory
  import opened PageWalk

  // ----- the number in memory at an address

  /** The entry of `n` bytes at address `a`, in the first range that covers it; nothing outside of RAM. */
  function Entry(ranges: seq<Range>, a: nat, n: nat): nat
    decreases |ranges|
  {
    if ranges == [] then 0
    else if !(ranges[0].addr <= a < ranges[0].addr + ranges[0].size) then Entry(ranges[1..], a, n)
    else if !ranges[0].isRam || a - ranges[0].addr + n > |ranges[0].mem| then 0
    else Number(ranges[0].mem[a - ranges[0].addr..a - ranges[0].addr + n])
  }

  /** Bytes as a number, the least significant first. */
  function Number(b: seq<Byte>): nat {
    if b == [] then 0 else Number(b[..|b| - 1]) + b[|b| - 1] * Power256(|b| - 1)
  }

  function Power256(n: nat): nat {
    if n == 0 then 1 else 256 * Power256(n - 1)
  }

  // ----- permission

  /** The bits R, W, X and U of an entry, at the privilege of the access; W alone is reserved. */
  predicate Permitted(c: Csr, pte: nat, access: Access) {
    var r, w, x, u := pte / 2 % 2 == 1, pte / 4 % 2 == 1, pte / 8 % 2 == 1, pte / 16 % 2 == 1;
    && (w ==> r)
    && (if AccessPriv(c, access) == 1 then u ==> c.sum else u)
    && (access == Read ==> r || (c.mxr && x))
    && (access == Write ==> w)
    && (access == Code ==> x)
  }

  /** With MPRV set loads and stores take the privilege in MPP. */
  function AccessPriv(c: Csr, access: Access): nat {
    if c.mprv then (if access == Code then c.priv else c.mpp) else c.priv
  }

  // ----- the formats

  /** Where an access goes, and the entry that says so. */
  datatype Walk = Fault | At(paddr: nat, entry: nat, pte: nat)

  /** A leaf for `v` of a page of `size` bytes: the frame of the entry, cut to its size, and the place in it. */
  function LeafAt(c: Csr, access: Access, v: nat, entry: nat, pte: nat, size: nat, addresses: nat): Walk
    requires 0 < size && 0 < addresses
  {
    if !Permitted(c, pte, access) then Fault else At(Frame(pte, addresses) / size * size + v % size, entry, pte)
  }

  predicate IsValid(pte: nat) { pte % 2 == 1 }

  /** Any of R, W and X makes an entry a leaf. */
  predicate IsLeaf(pte: nat) { pte / 2 % 8 != 0 }

  /** The address in an entry; there are `addresses` addresses. */
  function Frame(pte: nat, addresses: nat): nat
    requires 0 < addresses
  {
    pte / 1024 * 4096 % addresses
  }

  /** sv32: two levels of 1024 entries of four bytes. */
  function Sv32(ranges: seq<Range>, c: Csr, access: Access, v: nat): Walk {
    var a1 := c.root * 4096 % 0x1_0000_0000 + 4 * (v / 0x40_0000 % 1024);
    var p1 := Entry(ranges, a1, 4);
    if !IsValid(p1) then Fault
    else if IsLeaf(p1) then LeafAt(c, access, v, a1, p1, 0x40_0000, 0x1_0000_0000)
    else
      var a0 := Frame(p1, 0x1_0000_0000) + 4 * (v / 0x1000 % 1024);
      var p0 := Entry(ranges, a0, 4);
      if IsValid(p0) && IsLeaf(p0) then LeafAt(c, access, v, a0, p0, 0x1000, 0x1_0000_0000) else Fault
  }

  /** The levels of sv39 below a table at `base`: 512 entries of eight bytes, for 1 GiB, 2 MiB and 4 KiB. */
  function ThreeLevels(ranges: seq<Range>, c: Csr, access: Access, v: nat, base: nat, addresses: nat): Walk
    requires 0 < addresses
  {
    var a2 := base + 8 * (v / 0x4000_0000 % 512);
    var p2 := Entry(ranges, a2, 8);
    if !IsValid(p2) then Fault
    else if IsLeaf(p2) then LeafAt(c, access, v, a2, p2, 0x4000_0000, addresses)
    else
      var a1 := Frame(p2, addresses) + 8 * (v / 0x20_0000 % 512);
      var p1 := Entry(ranges, a1, 8);
      if !IsValid(p1) then Fault
      else if IsLeaf(p1) then LeafAt(c, access, v, a1, p1, 0x20_0000, addresses)
      else
        var a0 := Frame(p1, addresses) + 8 * (v / 0x1000 % 512);
        var p0 := Entry(ranges, a0, 8);
        if IsValid(p0) && IsLeaf(p0) then LeafAt(c, access, v, a0, p0, 0x1000, addresses) else Fault
  }

  /** sv39: addresses are extended by bit 38. */
  function Sv39(ranges: seq<Range>, c: Csr, access: Access, v: nat, addresses: nat): Walk
    requires 0x80_0000_0000 <= addresses
  {
    if !(v < 0x40_0000_0000 || addresses - 0x40_0000_0000 <= v < addresses) then Fault
    else ThreeLevels(ranges, c, access, v, c.root * 4096 % addresses, addresses)
  }

  /** sv48: one level more, for 512 GiB, and addresses are extended by bit 47. */
  function Sv48(ranges: seq<Range>, c: Csr, access: Access, v: nat, addresses: nat): Walk
    requires 0x1_0000_0000_0000 <= addresses
  {
    if !(v < 0x8000_0000_0000 || addresses - 0x8000_0000_0000 <= v < addresses) then Fault
    else
      var a3 := c.root * 4096 % addresses + 8 * (v / 0x80_0000_0000 % 512);
      var p3 := Entry(ranges, a3, 8);
      if !IsValid(p3) then Fault
      else if IsLeaf(p3) then LeafAt(c, access, v, a3, p3, 0x80_0000_0000, addresses)
      else ThreeLevels(ranges, c, access, v, Frame(p3, addresses), addresses)
  }

  /** The walk for the mode in satp. */
  function Walked(ranges: seq<Range>, c: Csr, access: Access, v: nat): Walk
    requires c.Valid() && c.mode != 0
  {
    XlenPowers(c);
    if c.maxXlen == 32 then Sv32(ranges, c, access, v)
    else if c.mode == 8 then Sv39(ranges, c, access, v, Pow2(c.maxXlen))
    else Sv48(ranges, c, access, v, Pow2(c.maxXlen))
  }

  // ----- powers

  lemma PowerTable()
    ensures Pow2(12) == 0x1000 && Pow2(21) == 0x20_0000 && Pow2(22) == 0x40_0000 && Pow2(30) == 0x4000_0000
    ensures Pow2(9) == 512 && Pow2(10) == 1024 && Pow2(39) == 0x80_0000_0000 && Pow2(38) == 0x40_0000_0000
    ensures Pow2(48) == 0x1_0000_0000_0000 && Pow2(47) == 0x8000_0000_0000 && Pow2(32) == 0x1_0000_0000
  {
    Pow2Add(9, 12);
    Pow2Add(10, 12);
    Pow2Add(18, 12);
    Pow2Add(9, 9);
    Pow2Add(27, 12);
    Pow2Add(18, 9);
    Pow2Add(26, 12);
    Pow2Add(18, 8);
    Pow2Add(36, 12);
    Pow2Add(18, 18);
    Pow2Add(35, 12);
    Pow2Add(18, 17);
    Pow2Add(9, 8);
    Pow2Add(20, 12);
    Pow2Add(10, 10);
  }

  lemma XlenPowers(c: Csr)
    requires c.Valid()
    ensures Pow2(32) == 0x1_0000_0000
    ensures c.maxXlen != 32 ==> Pow2(c.maxXlen) >= 0x1_0000_0000_0000
  {
    PowerTable();
    if c.maxXlen != 32 { Pow2Mono(48, c.maxXlen); }
  }

  // ----- the entries that the walk reads

  lemma {:induction false} PowerIs(n: nat)
    ensures Power256(n) == Pow2(8 * n)
  {
    if n > 0 {
      PowerIs(n - 1);
      Pow256(n - 1);
    }
  }

  lemma {:induction false} NumberIs(m: seq<Byte>, o: nat, n: nat)
    requires o + n <= |m|
    ensures Number(m[o..o + n]) == Word(m, o, n)
    decreases n
  {
    var b := m[o..o + n];
    if n > 0 {
      assert b[..n - 1] == m[o..o + (n - 1)] && b[n - 1] == m[o + (n - 1)];
      NumberIs(m, o, n - 1);
      PowerIs(n - 1);
      WordSplit(m, o, n, n - 1);
      OneByte(m, o + (n - 1));
      assert n - (n - 1) == 1;
      hide Word, Pow2, Number;
      assert Number(b) == Number(b[..n - 1]) + b[n - 1] * Power256(n - 1) by { NumberStep(b); }
    } else {
      assert b == [];
    }
  }

  lemma NumberStep(b: seq<Byte>)
    requires b != []
    ensures Number(b) == Number(b[..|b| - 1]) + b[|b| - 1] * Power256(|b| - 1)
  {
  }

  lemma OneByte(m: seq<Byte>, o: nat)
    requires o < |m|
    ensures Word(m, o, 1) == m[o]
  {
    assert Word(m, o + 1, 0) == 0;
  }

  /** The entry at an address, when the first `i` ranges do not cover it. */
  lemma {:induction false} EntryFrom(ranges: seq<Range>, a: nat, n: nat, i: nat)
    requires i <= |ranges|
    ensures var r := FindRange(ranges, a, i);
            Entry(ranges[i..], a, n) ==
            if r < |ranges| && ranges[r].isRam && a - ranges[r].addr + n <= |ranges[r].mem|
            then Word(ranges[r].mem, a - ranges[r].addr, n) else 0
    decreases |ranges| - i
  {
    hide Word, Number;
    if i < |ranges| {
      assert ranges[i..][0] == ranges[i] && ranges[i..][1..] == ranges[i + 1..];
      if ranges[i].addr <= a < ranges[i].addr + ranges[i].size {
        if a - ranges[i].addr + n <= |ranges[i].mem| { NumberIs(ranges[i].mem, a - ranges[i].addr, n); }
      } else {
        EntryFrom(ranges, a, n, i + 1);
      }
    }
  }

  /** phys_read_u32 and phys_read_u64 deliver the number in memory. */
  lemma EntryIs(ranges: seq<Range>, a: nat, n: nat)
    ensures ReadPte(ranges, a, n) == Entry(ranges, a, n)
  {
    EntryFrom(ranges, a, n, 0);
    assert ranges[0..] == ranges;
    hide Word, Entry, FindRange;
  }

  // ----- the checks

  lemma PrivIs(c: Csr, access: Access)
    ensures c.Priv(access) == AccessPriv(c, access)
  {
  }

  lemma PermitsIs(c: Csr, pte: nat, access: Access)
    ensures Permits(c, pte, access) <==> Permitted(c, pte, access)
  {
    PrivIs(c, access);
    XwrBits(pte);
    hide Csr.Priv, AccessPriv, Xwr;
    PermitsByBits(c, pte, access, pte / 2 % 2, pte / 4 % 2, pte / 8 % 2);
  }

  lemma PermitsByBits(c: Csr, pte: nat, access: Access, r: nat, w: nat, x: nat)
    requires r < 2 && w < 2 && x < 2 && Xwr(pte) == r + 2 * w + 4 * x && c.Priv(access) == AccessPriv(c, access)
    requires r == pte / 2 % 2 && w == pte / 4 % 2 && x == pte / 8 % 2
    ensures Permits(c, pte, access) <==> Permitted(c, pte, access)
  {
    hide Csr.Priv, AccessPriv, Xwr;
  }

  lemma XwrBits(pte: nat)
    ensures Xwr(pte) == pte / 2 % 2 + 2 * (pte / 4 % 2) + 4 * (pte / 8 % 2)
  {
    var h := pte / 2;
    assert pte / 4 == h / 2 && pte / 8 == h / 4;
  }

  lemma CanonicalIs(c: Csr, v: nat, half: nat)
    requires c.Valid() && c.maxXlen != 32 && c.mode != 0 && half == Pow2(12 + 9 * c.Levels() - 1)
    ensures Canonical(c, v) <==> v < half || Pow2(c.maxXlen) - half <= v < Pow2(c.maxXlen)
  {
    var w := 12 + 9 * c.Levels();
    assert w < c.maxXlen;
    Pow2Add(w, c.maxXlen - w);
    Pow2Double(w - 1);
    hide Pow2;
    Extended(v, half, Pow2(c.maxXlen - w), Pow2(c.maxXlen));
  }

  /** An address that is the extension of its low half. */
  lemma Extended(v: nat, half: nat, k: nat, top: nat)
    requires half > 0 && k > 0 && top == 2 * half * k
    ensures var low := v % (2 * half);
      (v == if low >= half then low + top - 2 * half else low) <==> v < half || top - half <= v < top
  {
    var t := 2 * half;
    if v < half {
      DivModUnique(v, t, 0, v);
    }
    MulAtLeast(k, t);
    if top - half <= v < top {
      assert top - t == t * (k - 1);
      DivModUnique(v, t, k - 1, v - (top - t));
    }
  }

  // ----- the walk level by level

  /** A leaf after the checks, and what the formats make of it. */
  ghost predicate Meets(c: Csr, access: Access, v: nat, l: Leaf, w: Walk) {
    if l.Leaf? && l.level < c.Levels() && Permits(c, l.pte, access) then
      w == At(LeafTarget(c, v, l.pte, l.level), l.addr, l.pte)
    else w == Fault
  }

  lemma LeafMeets(c: Csr, access: Access, v: nat, a: nat, pte: nat, i: nat, size: nat)
    requires i < c.Levels() && size == Pow2(c.Shift(i))
    ensures Meets(c, access, v, Leaf(a, pte, i), LeafAt(c, access, v, a, pte, size, Pow2(c.maxXlen)))
  {
    PermitsIs(c, pte, access);
    hide Pow2, Permits, Permitted;
  }

  lemma NoLeafMeets(c: Csr, access: Access, v: nat)
    ensures Meets(c, access, v, NoLeaf, Fault)
  {
  }

  /** One level: its size, the number of entries and their size are powers of two. */
  lemma LevelIs(ranges: seq<Range>, c: Csr, v: nat, base: nat, i: nat, size: nat, entries: nat)
    requires i < c.Levels() && size == Pow2(c.Shift(i)) && entries == Pow2(c.IndexBits())
    ensures var a := base + c.PteSize() * (v / size % entries);
      var pte := Entry(ranges, a, c.PteSize());
      FindLeaf(ranges, c, v, base, i) ==
      if !IsValid(pte) then NoLeaf
      else if IsLeaf(pte) then Leaf(a, pte, i)
      else FindLeaf(ranges, c, v, Frame(pte, Pow2(c.maxXlen)), i + 1)
  {
    var a := base + c.PteSize() * (v / size % entries);
    assert EntryAddr(c, v, base, i) == a by { hide Pow2; }
    EntryIs(ranges, a, c.PteSize());
    hide Pow2, Entry, ReadPte, EntryAddr;
  }

  lemma PastLevels(ranges: seq<Range>, c: Csr, v: nat, base: nat, i: nat)
    requires i >= c.Levels()
    ensures FindLeaf(ranges, c, v, base, i) == NoLeaf
  {
  }

  lemma Sv32Shifts(c: Csr)
    requires c.maxXlen == 32
    ensures c.Levels() == 2 && c.PteSize() == 4 && c.IndexBits() == 10 && c.Shift(0) == 22 && c.Shift(1) == 12
  {
  }

  lemma LongShifts(c: Csr)
    requires c.maxXlen != 32 && (c.mode == 8 || c.mode == 9)
    ensures c.PteSize() == 8 && c.IndexBits() == 9 && c.Levels() == if c.mode == 8 then 3 else 4
    ensures c.mode == 8 ==> c.Shift(0) == 30 && c.Shift(1) == 21 && c.Shift(2) == 12
    ensures c.mode == 9 ==> c.Shift(0) == 39 && c.Shift(1) == 30 && c.Shift(2) == 21 && c.Shift(3) == 12
  {
  }

  /** The last three levels. */
  lemma ThreeLevelsMeet(ranges: seq<Range>, c: Csr, access: Access, v: nat, base: nat, i: nat)
    requires c.PteSize() == 8 && c.IndexBits() == 9 && c.Levels() == i + 3
    requires c.Shift(i) == 30 && c.Shift(i + 1) == 21 && c.Shift(i + 2) == 12
    ensures Meets(c, access, v, FindLeaf(ranges, c, v, base, i),
                  ThreeLevels(ranges, c, access, v, base, Pow2(c.maxXlen)))
  {
    PowerTable();
    hide *;
    LevelIs(ranges, c, v, base, i, 0x4000_0000, 512);
    var a2 := base + 8 * (v / 0x4000_0000 % 512);
    var p2 := Entry(ranges, a2, 8);
    var f2 := Frame(p2, Pow2(c.maxXlen));
    LevelIs(ranges, c, v, f2, i + 1, 0x20_0000, 512);
    var a1 := f2 + 8 * (v / 0x20_0000 % 512);
    var p1 := Entry(ranges, a1, 8);
    var f1 := Frame(p1, Pow2(c.maxXlen));
    LevelIs(ranges, c, v, f1, i + 2, 0x1000, 512);
    var a0 := f1 + 8 * (v / 0x1000 % 512);
    var p0 := Entry(ranges, a0, 8);
    PastLevels(ranges, c, v, Frame(p0, Pow2(c.maxXlen)), i + 3);
    LeafMeets(c, access, v, a2, p2, i, 0x4000_0000);
    LeafMeets(c, access, v, a1, p1, i + 1, 0x20_0000);
    LeafMeets(c, access, v, a0, p0, i + 2, 0x1000);
    NoLeafMeets(c, access, v);
    ThreeLevelsAre(ranges, c, access, v, base, Pow2(c.maxXlen));
  }

  lemma ThreeLevelsAre(ranges: seq<Range>, c: Csr, access: Access, v: nat, base: nat, addresses: nat)
    requires 0 < addresses
    ensures ThreeLevels(ranges, c, access, v, base, addresses) ==
      var a2 := base + 8 * (v / 0x4000_0000 % 512);
      var p2 := Entry(ranges, a2, 8);
      if !IsValid(p2) then Fault
      else if IsLeaf(p2) then LeafAt(c, access, v, a2, p2, 0x4000_0000, addresses)
      else
        var a1 := Frame(p2, addresses) + 8 * (v / 0x20_0000 % 512);
        var p1 := Entry(ranges, a1, 8);
        if !IsValid(p1) then Fault
        else if IsLeaf(p1) then LeafAt(c, access, v, a1, p1, 0x20_0000, addresses)
        else
          var a0 := Frame(p1, addresses) + 8 * (v / 0x1000 % 512);
          var p0 := Entry(ranges, a0, 8);
          if IsValid(p0) && IsLeaf(p0) then LeafAt(c, access, v, a0, p0, 0x1000, addresses) else Fault
  {
    hide Entry, LeafAt, Frame;
  }

  lemma Sv32Is(ranges: seq<Range>, c: Csr, access: Access, v: nat)
    requires c.maxXlen == 32
    ensures Pow2(c.maxXlen) == 0x1_0000_0000
    ensures Sv32(ranges, c, access, v) ==
      var a1 := c.Base() + 4 * (v / 0x40_0000 % 1024);
      var p1 := Entry(ranges, a1, 4);
      if !IsValid(p1) then Fault
      else if IsLeaf(p1) then LeafAt(c, access, v, a1, p1, 0x40_0000, Pow2(c.maxXlen))
      else
        var a0 := Frame(p1, Pow2(c.maxXlen)) + 4 * (v / 0x1000 % 1024);
        var p0 := Entry(ranges, a0, 4);
        if IsValid(p0) && IsLeaf(p0) then LeafAt(c, access, v, a0, p0, 0x1000, Pow2(c.maxXlen)) else Fault
  {
    PowerTable();
    hide Entry, LeafAt, Frame, Pow2;
  }

  lemma Sv32Meets(ranges: seq<Range>, c: Csr, access: Access, v: nat)
    requires c.maxXlen == 32
    ensures Meets(c, access, v, FindLeaf(ranges, c, v, c.Base(), 0), Sv32(ranges, c, access, v))
  {
    hide *;
    PowerTable();
    Sv32Shifts(c);
    Sv32Is(ranges, c, access, v);
    var base := c.Base();
    LevelIs(ranges, c, v, base, 0, 0x40_0000, 1024);
    var a1 := base + 4 * (v / 0x40_0000 % 1024);
    var p1 := Entry(ranges, a1, 4);
    var f1 := Frame(p1, Pow2(c.maxXlen));
    LevelIs(ranges, c, v, f1, 1, 0x1000, 1024);
    var a0 := f1 + 4 * (v / 0x1000 % 1024);
    var p0 := Entry(ranges, a0, 4);
    PastLevels(ranges, c, v, Frame(p0, Pow2(c.maxXlen)), 2);
    LeafMeets(c, access, v, a1, p1, 0, 0x40_0000);
    LeafMeets(c, access, v, a0, p0, 1, 0x1000);
    NoLeafMeets(c, access, v);
  }

  lemma Sv39Meets(ranges: seq<Range>, c: Csr, access: Access, v: nat)
    requires c.Valid() && c.maxXlen != 32 && c.mode == 8
    ensures Pow2(c.maxXlen) >= 0x1_0000_0000_0000
    ensures var l := FindLeaf(ranges, c, v, c.Base(), 0);
            Meets(c, access, v, if Canonical(c, v) then l else NoLeaf, Sv39(ranges, c, access, v, Pow2(c.maxXlen)))
  {
    PowerTable();
    XlenPowers(c);
    LongShifts(c);
    CanonicalIs(c, v, 0x40_0000_0000);
    ThreeLevelsMeet(ranges, c, access, v, c.Base(), 0);
    NoLeafMeets(c, access, v);
    hide Pow2, FindLeaf, ThreeLevels, Meets, Canonical, Csr.Shift, Csr.Levels, Csr.IndexBits, Csr.PteSize;
  }

  lemma Sv48Is(ranges: seq<Range>, c: Csr, access: Access, v: nat)
    requires Pow2(c.maxXlen) >= 0x1_0000_0000_0000
    ensures var top := Pow2(c.maxXlen);
      Sv48(ranges, c, access, v, top) ==
      if !(v < 0x8000_0000_0000 || top - 0x8000_0000_0000 <= v < top) then Fault
      else
        var a3 := c.Base() + 8 * (v / 0x80_0000_0000 % 512);
        var p3 := Entry(ranges, a3, 8);
        if !IsValid(p3) then Fault
        else if IsLeaf(p3) then LeafAt(c, access, v, a3, p3, 0x80_0000_0000, top)
        else ThreeLevels(ranges, c, access, v, Frame(p3, top), top)
  {
    hide Entry, LeafAt, Frame, Pow2, ThreeLevels;
  }

  lemma Sv48Meets(ranges: seq<Range>, c: Csr, access: Access, v: nat)
    requires c.Valid() && c.maxXlen != 32 && c.mode == 9
    ensures Pow2(c.maxXlen) >= 0x1_0000_0000_0000
    ensures var l := FindLeaf(ranges, c, v, c.Base(), 0);
            Meets(c, access, v, if Canonical(c, v) then l else NoLeaf, Sv48(ranges, c, access, v, Pow2(c.maxXlen)))
  {
    hide *;
    PowerTable();
    XlenPowers(c);
    LongShifts(c);
    Sv48Is(ranges, c, access, v);
    CanonicalIs(c, v, 0x8000_0000_0000);
    var base := c.Base();
    var a3 := base + 8 * (v / 0x80_0000_0000 % 512);
    var p3 := Entry(ranges, a3, 8);
    LevelIs(ranges, c, v, base, 0, 0x80_0000_0000, 512);
    ThreeLevelsMeet(ranges, c, access, v, Frame(p3, Pow2(c.maxXlen)), 1);
    LeafMeets(c, access, v, a3, p3, 0, 0x80_0000_0000);
    NoLeafMeets(c, access, v);
  }

  lemma WalkMeets(ranges: seq<Range>, c: Csr, access: Access, v: nat)
    requires c.Valid() && c.mode != 0
    ensures var l := FindLeaf(ranges, c, v, c.Base(), 0);
            Meets(c, access, v, if Canonical(c, v) then l else NoLeaf, Walked(ranges, c, access, v))
  {
    XlenPowers(c);
    if c.maxXlen == 32 {
      Sv32Meets(ranges, c, access, v);
    } else if c.mode == 8 {
      Sv39Meets(ranges, c, access, v);
    } else {
      Sv48Meets(ranges, c, access, v);
    }
    hide Pow2, FindLeaf, Meets, Sv32, Sv39, Sv48, Csr.Base;
  }

  // ----- what an access finds and does

  /** Where every access goes, for every setting of the registers: in machine mode the address itself, cut to the
      current XLEN; without a page table the address itself; otherwise what the walk for the mode finds. */
  lemma TranslateIs(ranges: seq<Range>, c: Csr, v: nat, access: Access)
    requires c.Valid()
    ensures Translate(ranges, c, v, access) ==
      if AccessPriv(c, access) == 3 then To(if c.xlen < c.maxXlen then v % Pow2(c.xlen) else v)
      else if c.mode == 0 then To(v)
      else match Walked(ranges, c, access, v)
           case Fault => PageFault
           case At(paddr, _, _) => To(paddr)
  {
    PrivIs(c, access);
    LeafLevel(ranges, c, v, c.Base(), 0);
    if c.mode != 0 { WalkMeets(ranges, c, access, v); }
    hide Pow2, FindLeaf, Walked, Permits, LeafTarget, Canonical, Csr.Base, Csr.Levels, AccessPriv, Csr.Priv,
         IsValidPte, Xwr;
  }

  /** The accessed bit is set, for a write the dirty bit too, and the other bits are as they were. */
  predicate Marked(was: nat, now: nat, access: Access) {
    && now % 64 == was % 64 && now / 64 % 2 == 1 && now / 256 == was / 256
    && now / 128 % 2 == if access == Write then 1 else was / 128 % 2
  }

  lemma UpdatedIs(pte: nat, access: Access)
    ensures Marked(pte, if NeedsUpdate(pte, access) then Updated(pte, access) else pte, access)
  {
    var h, d, a, low := SplitPte(pte);
    FieldsOfHigh(256 * h + 128 * d + 64 + low, h, d, 1, low);
    FieldsOfHigh(256 * h + 128 + 64 + low, h, 1, 1, low);
  }

  /** The entry that the walk found is marked and every other entry is as it was; without a walk, or when it fails,
      memory is as it was. */
  lemma TouchedIs(ranges: seq<Range>, c: Csr, v: nat, access: Access)
    requires c.Valid() && ValidRanges(ranges)
    ensures var b := Touched(ranges, c, v, access);
      if AccessPriv(c, access) == 3 || c.mode == 0 || Walked(ranges, c, access, v).Fault? then b == ranges
      else
        var n, w := if c.maxXlen == 32 then 4 else 8, Walked(ranges, c, access, v);
        && SamePlacement(ranges, b) && w.pte == Entry(ranges, w.entry, n) && w.entry % n == 0
        && Marked(w.pte, Entry(b, w.entry, n), access)
        && forall e: nat :: e % n == 0 && e != w.entry ==> Entry(b, e, n) == Entry(ranges, e, n)
  {
    PrivIs(c, access);
    TouchedPlaces(ranges, c, v, access);
    if !(AccessPriv(c, access) == 3 || c.mode == 0) {
      WalkMeets(ranges, c, access, v);
      LeafLevel(ranges, c, v, c.Base(), 0);
      Aligned(c, v, 0, 0, 0);
      LeafEntry(ranges, c, v, c.Base(), 0);
      var l, n := CheckedLeaf(ranges, c, v, access), if c.maxXlen == 32 then 4 else 8;
      hide Pow2, FindLeaf, Walked, Permits, LeafTarget, Canonical, Csr.Base, Csr.Levels, AccessPriv, Csr.Priv,
           IsValidPte, Xwr, Entry, ReadPte, WritePte, Marked, NeedsUpdate, Updated;
      if l.Leaf? {
        EntryIs(ranges, l.addr, n);
        LeafUpdated(ranges, l.addr, n, l.pte, access);
      }
    }
  }

  lemma LeafUpdated(ranges: seq<Range>, a: nat, n: nat, pte: nat, access: Access)
    requires ValidRanges(ranges) && (n == 4 || n == 8) && a % n == 0 && pte == ReadPte(ranges, a, n)
    requires IsValidPte(pte) && Xwr(pte) != 0
    ensures var b := if NeedsUpdate(pte, access) then WritePte(ranges, a, n, Updated(pte, access)) else ranges;
      && Marked(pte, Entry(b, a, n), access)
      && forall e: nat :: e % n == 0 && e != a ==> Entry(b, e, n) == Entry(ranges, e, n)
  {
    hide *;
    var b := if NeedsUpdate(pte, access) then WritePte(ranges, a, n, Updated(pte, access)) else ranges;
    UpdatedIs(pte, access);
    EntryIs(b, a, n);
    ReadAfterUpdate(ranges, a, n, access, a);
    forall e: nat | e % n == 0 && e != a ensures Entry(b, e, n) == Entry(ranges, e, n) {
      EntryIs(b, e, n);
      EntryIs(ranges, e, n);
      ReadAfterUpdate(ranges, a, n, access, e);
    }
  }
}
