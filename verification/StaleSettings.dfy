/** Exactly which settings a trap or MRET leaves stale entries behind in: a coherent machine for each of them
    (riscv_cpu.c: raise_exception2, handle_mret). */
module StaleSettings {
  import opened Powers
  import opened PhysMemory
  import opened PageWalk
  import opened Tlb
  import opened MachineRuns

  // ----- machines with one live entry

  function Zeros(n: nat): seq<Byte> { seq(n, i => 0) }

  /** A page of RAM. */
  function Page(addr: nat, mem: seq<Byte>): Range {
    Range(addr, PAGE, PAGE, true, mem, false, [], 0)
  }

  function None(c: Csr): Entry { Entry(NoTag(c.maxXlen), 0, 0) }

  /** The read TLB holds a single entry. */
  function One(c: Csr, ranges: seq<Range>, e: Entry): Machine {
    var none := seq(TLB_SIZE, i => None(c));
    Machine(c, ranges, none[Slot(e.vaddr) := e], none, none, seq(|ranges|, i => {}))
  }

  ghost predicate Pages(ranges: seq<Range>) {
    && (forall i :: 0 <= i < |ranges| ==>
          ranges[i] == Page(ranges[i].addr, ranges[i].mem) && |ranges[i].mem| == PAGE && ranges[i].addr % PAGE == 0)
    && (forall i, j :: 0 <= i < j < |ranges| ==> ranges[i].addr != ranges[j].addr)
  }

  lemma PagesApart(ranges: seq<Range>)
    requires Pages(ranges)
    ensures ValidRanges(ranges) && Disjoint(ranges)
  {
    forall i, j, p: nat | 0 <= i < j < |ranges| && ranges[i].Covers(p) ensures !ranges[j].Covers(p) {
      assert ranges[i].size == PAGE == ranges[j].size;
    }
  }

  lemma OneEntry(c: Csr, ranges: seq<Range>, e: Entry)
    requires e.vaddr % PAGE == 0 && c.maxXlen >= 12
    ensures var m := One(c, ranges, e);
      && |m.read| == TLB_SIZE && m.read[Slot(e.vaddr)] == e && m.Live(e)
      && (forall i :: 0 <= i < TLB_SIZE && i != Slot(e.vaddr) ==> !m.Live(m.read[i]))
      && (forall i :: 0 <= i < TLB_SIZE ==> !m.Live(m.write[i]) && !m.Live(m.code[i]))
  {
    OddTag(c.maxXlen);
    hide NoTag, Slot;
  }

  lemma OddTag(n: nat)
    requires n >= 12
    ensures NoTag(n) % PAGE == PAGE - 1
  {
    Pow2Add(12, n - 12);
    assert Pow2(12) == PAGE;
    var p := Pow2(n - 12);
    hide Pow2;
    LastOf(p);
  }

  lemma LastOf(p: nat)
    requires p > 0
    ensures (PAGE * p - 1) % PAGE == PAGE - 1
  {
    DivModUnique(PAGE * p - 1, PAGE, p - 1, PAGE - 1);
  }

  /** The machine is coherent if its entry is. */
  lemma OneCoherent(c: Csr, ranges: seq<Range>, e: Entry)
    requires c.Valid() && Pages(ranges) && e.vaddr % PAGE == 0 && e.range < |ranges| && e.page == 0
    requires One(c, ranges, e).EntryAgrees(Read, e)
    ensures var m := One(c, ranges, e); m.Valid() && m.Tracks() && m.Coherent()
  {
    OneEntry(c, ranges, e);
    PagesApart(ranges);
    var m := One(c, ranges, e);
    hide NoTag, Slot, Machine.Live, Machine.EntryAgrees, Disjoint;
    assert m.ValidEntry(e, Slot(e.vaddr));
    assert m.Agrees(Read) && m.Agrees(Write) && m.Agrees(Code);
  }

  /** Other settings with the same entries: the entry does not agree with them. */
  lemma OneStale(c: Csr, ranges: seq<Range>, e: Entry, t: Machine)
    requires e.vaddr % PAGE == 0 && c.maxXlen >= 12 && t.csr.maxXlen == c.maxXlen && t.read == One(c, ranges, e).read
    requires !t.EntryAgrees(Read, e)
    ensures !t.Coherent()
  {
    OneEntry(c, ranges, e);
    hide NoTag, Slot, Machine.EntryAgrees;
    assert t.Entries(Read)[Slot(e.vaddr)] == e && t.Live(e);
  }

  /** A page at `p` is found there. */
  lemma PageFound(ranges: seq<Range>, k: nat)
    requires Pages(ranges) && k < |ranges|
    ensures IsRamAt(ranges, ranges[k].addr) && RangeAt(ranges, ranges[k].addr) == k
  {
    PagesApart(ranges);
    TheRange(ranges, ranges[k].addr, k);
    hide RangeAt;
  }

  // ----- addresses that are only cut

  function Cut(c: Csr): nat { Pow2(c.xlen) }

  lemma CutFacts(c: Csr)
    requires c.Valid()
    ensures Cut(c) % PAGE == 0 && Cut(c) > 0 && Low(Cut(c), c.xlen) == 0 && Low(0, c.xlen) == 0
  {
    Pow2Add(12, c.xlen - 12);
    assert Pow2(12) == PAGE;
    DivModUnique(Pow2(c.xlen), Pow2(c.xlen), 1, 0);
    DivModUnique(0, Pow2(c.xlen), 0, 0);
    var p := Pow2(c.xlen - 12);
    hide Pow2;
    DivModUnique(PAGE * p, PAGE, p, 0);
  }

  // ----- a superpage for address 0

  function Flags(c: Csr): nat { if c.mpp == PRV_S then 0xCF else 0xDF }

  /** Where it is: not where the table is, and not at 0. */
  function Target(c: Csr): nat {
    var s := Pow2(c.Shift(0));
    if c.Base() == s then 2 * s else s
  }

  function Pte(c: Csr): nat { Target(c) / PAGE * 1024 + Flags(c) }

  function Table(c: Csr): seq<Byte> {
    BytesOf(Pte(c), c.PteSize()) + Zeros(PAGE - c.PteSize())
  }

  function Ranges(c: Csr): seq<Range> {
    [Page(c.Base(), Table(c)), Page(Target(c), Zeros(PAGE))]
  }

  lemma SmallShifts()
    ensures Pow2(22) == 0x40_0000 && Pow2(30) == 0x4000_0000 && Pow2(39) == 0x80_0000_0000
    ensures Pow2(32) == 0x1_0000_0000 && Pow2(64) == 0x1_0000_0000_0000_0000
  {
    assert Pow2(8) == 256 && Pow2(7) == 128;
    Pow2Add(8, 8);
    Pow2Add(16, 6);
    assert Pow2(6) == 64;
    Pow2Add(22, 8);
    Pow2Add(32, 7);
    Pow2Add(16, 16);
    Pow2Add(32, 32);
  }

  lemma TargetFacts(c: Csr)
    requires c.Valid() && c.mode != 0
    ensures Target(c) % PAGE == 0 && Target(c) > 0 && Target(c) != c.Base()
    ensures Pte(c) / 1024 * PAGE == Target(c) && Pte(c) % 1024 == Flags(c) && Pte(c) < Pow2(8 * c.PteSize())
    ensures Target(c) < Pow2(c.maxXlen)
    ensures exists k: nat :: Target(c) == k * Pow2(c.Shift(0))
  {
    ShiftIs(c);
    hide Pow2, Csr.Base, Csr.Valid, Csr.Shift, Csr.PteSize;
    var s := Pow2(c.Shift(0));
    TargetNumbers(s, 1, Flags(c));
    TargetNumbers(s, 2, Flags(c));
    assert Target(c) == 1 * s || Target(c) == 2 * s;
  }

  lemma ShiftIs(c: Csr)
    requires c.Valid() && c.mode != 0
    ensures Pow2(c.Shift(0)) == 0x40_0000 || Pow2(c.Shift(0)) == 0x4000_0000 || Pow2(c.Shift(0)) == 0x80_0000_0000
    ensures Pow2(c.Shift(0)) == 0x40_0000 <==> c.maxXlen == 32
    ensures Pow2(c.maxXlen) >= if c.maxXlen == 32 then 0x1_0000_0000 else 0x1_0000_0000_0000_0000
    ensures Pow2(8 * c.PteSize()) == if c.maxXlen == 32 then 0x1_0000_0000 else 0x1_0000_0000_0000_0000
  {
    SmallShifts();
    if c.maxXlen == 128 { Pow2Mono(64, 128); }
    hide Pow2;
  }

  /** The entry of a superpage of one of the three sizes. */
  lemma TargetNumbers(s: nat, k: nat, flags: nat)
    requires (s == 0x40_0000 || s == 0x4000_0000 || s == 0x80_0000_0000) && (k == 1 || k == 2) && flags < 1024
    ensures var t := k * s; var pte := t / PAGE * 1024 + flags;
            && t % PAGE == 0 && t > 0 && pte / 1024 * PAGE == t && pte % 1024 == flags
            && pte < 0x1_0000_0000_0000_0000 && t < 0x1_0000_0000_0000_0000
            && (s == 0x40_0000 ==> pte < 0x1_0000_0000 && t < 0x1_0000_0000)
  {
  }

  lemma BaseAligned(c: Csr)
    requires c.Valid()
    ensures c.Base() % PAGE == 0
  {
    Pow2Add(12, c.maxXlen - 12);
    assert Pow2(12) == PAGE;
    var p := Pow2(c.maxXlen - 12);
    hide Pow2;
    ModOfPage(c.root, p);
  }

  lemma ModOfPage(a: nat, p: nat)
    requires p > 0
    ensures a * PAGE % (PAGE * p) % PAGE == 0
  {
    DivModUnique(a * PAGE, PAGE * p, a / p, a % p * PAGE) by {
      assert a == a / p * p + a % p;
      assert a * PAGE == (a / p) * (PAGE * p) + a % p * PAGE;
    }
    DivModUnique(a % p * PAGE, PAGE, a % p, 0);
  }

  lemma WordOfBytes(v: nat, n: nat, rest: seq<Byte>)
    requires v < Pow2(8 * n)
    ensures Word(BytesOf(v, n) + rest, 0, n) == v
  {
    WordOfBytesAt([], v, n, rest);
    assert [] + BytesOf(v, n) == BytesOf(v, n);
  }

  lemma {:induction false} WordOfBytesAt(before: seq<Byte>, v: nat, n: nat, rest: seq<Byte>)
    requires v < Pow2(8 * n)
    ensures Word(before + BytesOf(v, n) + rest, |before|, n) == v
    decreases n
  {
    if n > 0 {
      var b: Byte := v % 256;
      Pow2Add(8, 8 * (n - 1));
      assert Pow2(8) == 256;
      WordOfBytesAt(before + [b], v / 256, n - 1, rest);
      assert before + BytesOf(v, n) + rest == before + [b] + BytesOf(v / 256, n - 1) + rest;
    }
  }

  lemma RangesAre(c: Csr)
    requires c.Valid() && c.mode != 0
    ensures Pages(Ranges(c)) && ReadPte(Ranges(c), c.Base(), c.PteSize()) == Pte(c)
    ensures IsRamAt(Ranges(c), Target(c)) && RangeAt(Ranges(c), Target(c)) == 1
  {
    PagesOf(c);
    TableWord(c);
    hide Pow2, Target, Pte, Csr.Base, BytesOf, Word, RangeAt, Table;
    PageFound(Ranges(c), 0);
    PageFound(Ranges(c), 1);
  }

  lemma PagesOf(c: Csr)
    requires c.Valid() && c.mode != 0
    ensures Pages(Ranges(c)) && |Table(c)| == PAGE && c.PteSize() <= PAGE
  {
    TargetFacts(c);
    BaseAligned(c);
    hide Pow2, Target, Pte, Csr.Base, Csr.Valid, Csr.Shift, BytesOf;
    var t := Table(c);
    assert |t| == PAGE;
    hide Table;
    var x, y := c.Base(), Target(c);
    TwoPages(x, t, y);
  }

  lemma TwoPages(x: nat, t: seq<Byte>, y: nat)
    requires x % PAGE == 0 && y % PAGE == 0 && x != y && |t| == PAGE
    ensures Pages([Page(x, t), Page(y, Zeros(PAGE))])
  {
  }

  lemma TableWord(c: Csr)
    requires c.Valid() && c.mode != 0
    ensures Word(Table(c), 0, c.PteSize()) == Pte(c)
  {
    TargetFacts(c);
    WordOfBytes(Pte(c), c.PteSize(), Zeros(PAGE - c.PteSize()));
    hide Pow2, Target, Pte, Csr.Base, BytesOf, Word;
  }

  lemma FirstLeaf(c: Csr)
    requires c.Valid() && c.mode != 0
    ensures FindLeaf(Ranges(c), c, 0, c.Base(), 0) == Leaf(c.Base(), Pte(c), 0)
  {
    RangesAre(c);
    TargetFacts(c);
    ZeroFields(c);
    LowFlags(Pte(c), Flags(c));
    hide Pow2, Pte, Target, Ranges, ReadPte, Csr.Base, Shr, Low;
    assert EntryAddr(c, 0, c.Base(), 0) == c.Base();
  }

  lemma ZeroFields(c: Csr)
    requires c.Valid()
    ensures Shr(0, c.Shift(0)) == 0 && Low(0, c.IndexBits()) == 0 && Low(0, c.Shift(0)) == 0
    ensures Low(0, 12 + 9 * c.Levels()) == 0
  {
    DivModUnique(0, Pow2(c.Shift(0)), 0, 0);
    DivModUnique(0, Pow2(c.IndexBits()), 0, 0);
    DivModUnique(0, Pow2(12 + 9 * c.Levels()), 0, 0);
  }

  lemma LowFlags(pte: nat, flags: nat)
    requires pte % 1024 == flags && (flags == 0xCF || flags == 0xDF)
    ensures IsValidPte(pte) && Xwr(pte) == 7 && AccessedPte(pte) && (UserPte(pte) <==> flags == 0xDF)
  {
    var h := pte / 1024;
    assert pte == 1024 * h + flags;
    DivModUnique(pte, 2, 512 * h + flags / 2, 1);
    DivModUnique(512 * h + flags / 2, 8, 64 * h + flags / 16, 7);
    DivModUnique(pte, 16, 64 * h + flags / 16, flags % 16);
    DivModUnique(64 * h + flags / 16, 2, 32 * h + flags / 32, flags / 16 % 2);
    DivModUnique(pte, 64, 16 * h + flags / 64, flags % 64);
    DivModUnique(16 * h + flags / 64, 2, 8 * h + flags / 128, flags / 64 % 2);
  }

  lemma TargetOf(c: Csr)
    requires c.Valid() && c.mode != 0
    ensures LeafTarget(c, 0, Pte(c), 0) == Target(c)
  {
    TargetFacts(c);
    ZeroFields(c);
    var k: nat :| Target(c) == k * Pow2(c.Shift(0));
    var p := Pow2(c.Shift(0));
    hide Csr.Base, Target, Pte;
    DivModUnique(Target(c), Pow2(c.maxXlen), 0, Target(c));
    ShrLowUnique(Target(c), c.Shift(0), k, 0);
    ShlIs(k, c.Shift(0));
    hide Pow2, Shr, Shl, Low;
  }

  lemma ShlIs(k: nat, n: nat)
    ensures Shl(k, n) == k * Pow2(n)
  {
  }

  // ----- the trap

  lemma Translated(c: Csr)
    requires c.Valid() && c.priv == PRV_M && c.mprv && c.mpp != PRV_M && c.mode != 0
    ensures Translate(Ranges(c), c, 0, Read) == To(Target(c)) && !Touches(Ranges(c), c, 0, Read)
  {
    TranslatedChecks(c);
    FirstLeaf(c);
    TargetOf(c);
    hide FindLeaf, Ranges, Pte, Target, LeafTarget, Csr.Base, Permits, NeedsUpdate, Canonical, Pow2;
  }

  lemma TranslatedChecks(c: Csr)
    requires c.Valid() && c.priv == PRV_M && c.mprv && c.mpp != PRV_M && c.mode != 0
    ensures Canonical(c, 0) && Permits(c, Pte(c), Read) && !NeedsUpdate(Pte(c), Read) && c.Levels() > 0 &&
            !Bare(c, Read)
  {
    TargetFacts(c);
    ZeroFields(c);
    LowFlags(Pte(c), Flags(c));
    hide Pte, Target, Csr.Base, IsValidPte, Xwr, UserPte, AccessedPte, Low, Csr.Shift, Csr.PteSize;
    ZeroCanonical(c);
    hide Pow2, Canonical;
  }

  lemma ZeroCanonical(c: Csr)
    requires Low(0, 12 + 9 * c.Levels()) == 0
    ensures Canonical(c, 0)
  {
    hide Low;
  }

  function TrapWitness(c: Csr): Machine {
    if c.mode != 0 then One(c, Ranges(c), Entry(0, 1, 0))
    else One(c, [Page(Cut(c), Zeros(PAGE))], Entry(Cut(c), 0, 0))
  }

  /** A trap within machine mode only rewrites MPP. */
  lemma TrapOnly(m: Machine, delegated: bool)
    requires m.csr.priv == PRV_M
    ensures Trap(m, delegated) == m.(csr := m.csr.(mpp := PRV_M))
  {
    hide Pow2, FlushAll;
  }

  lemma TrapWitnessStale(c: Csr, delegated: bool)
    requires c.Valid() && !TrapKeepsView(c)
    ensures var m := TrapWitness(c);
            m.csr == c && m.Valid() && m.Tracks() && m.Coherent() && !Trap(m, delegated).Coherent()
  {
    var m, c' := TrapWitness(c), c.(mpp := PRV_M);
    TrapOnly(m, delegated);
    hide Pow2, Trap, One, Machine.EntryAgrees, Machine.Valid, Machine.Coherent, Machine.Tracks, Ranges, Slot;
    CsrOfOne(c, Ranges(c), Entry(0, 1, 0));
    CsrOfOne(c, [Page(Cut(c), Zeros(PAGE))], Entry(Cut(c), 0, 0));
    if c.mode != 0 {
      TranslatedStale(c, c');
      OneStale(c, Ranges(c), Entry(0, 1, 0), Trap(m, delegated));
    } else {
      CutStale(c, c', Cut(c));
      OneStale(c, [Page(Cut(c), Zeros(PAGE))], Entry(Cut(c), 0, 0), Trap(m, delegated));
    }
  }

  lemma CsrOfOne(c: Csr, ranges: seq<Range>, e: Entry)
    ensures One(c, ranges, e).csr == c && One(c, ranges, e).ranges == ranges
  {
  }

  lemma TranslatedStale(c: Csr, c': Csr)
    requires c.Valid() && c.priv == PRV_M && c.mprv && c.mpp != PRV_M && c.mode != 0 && c' == c.(mpp := PRV_M)
    ensures var m := One(c, Ranges(c), Entry(0, 1, 0));
            m.Valid() && m.Tracks() && m.Coherent() && !m.(csr := c').EntryAgrees(Read, Entry(0, 1, 0))
  {
    hide *;
    Translated(c);
    RangesAre(c);
    TargetNotZero(c);
    ZeroLow(c.xlen);
    TrapBare(Ranges(c), c');
    RangesSecond(c);
    EntryOfPage(c, c', Ranges(c), 1);
    OneCoherent(c, Ranges(c), Entry(0, 1, 0));
  }

  lemma TargetNotZero(c: Csr)
    requires c.Valid() && c.mode != 0
    ensures Target(c) != 0 && c.maxXlen >= 12 && 0 % PAGE == 0
  {
    TargetFacts(c);
  }

  /** The entry for address 0 agrees with the settings that lead there, and not with others. */
  lemma EntryOfPage(c: Csr, c': Csr, ranges: seq<Range>, k: nat)
    requires k < |ranges| && IsRamAt(ranges, ranges[k].addr) && RangeAt(ranges, ranges[k].addr) == k
    requires Translate(ranges, c, 0, Read) == To(ranges[k].addr) && !Touches(ranges, c, 0, Read)
    requires Translate(ranges, c', 0, Read) != To(ranges[k].addr)
    ensures var m := One(c, ranges, Entry(0, k, 0));
            m.EntryAgrees(Read, Entry(0, k, 0)) && !m.(csr := c').EntryAgrees(Read, Entry(0, k, 0))
  {
    hide Translate, Touches, RangeAt, Slot, NoTag;
  }

  lemma RangesSecond(c: Csr)
    ensures |Ranges(c)| == 2 && Ranges(c)[1].addr == Target(c)
  {
  }

  lemma ZeroLow(n: nat)
    ensures Low(0, n) == 0
  {
    DivModUnique(0, Pow2(n), 0, 0);
  }

  lemma TrapBare(ranges: seq<Range>, c: Csr)
    requires c.mprv && c.mpp == PRV_M && Low(0, c.xlen) == 0
    ensures Translate(ranges, c, 0, Read) == To(0)
  {
    hide FindLeaf, Low;
  }

  /** One of the two settings cuts the address, the other one does not. */
  lemma CutStale(c: Csr, c': Csr, addr: nat)
    requires c.Valid() && c.mode == 0 && c.xlen < c.maxXlen && c.mprv && c'.mprv
    requires c' == c.(mpp := c'.mpp) && (c.mpp == PRV_M) != (c'.mpp == PRV_M)
    requires addr == if c.mpp == PRV_M then 0 else Cut(c)
    ensures var ranges, e := [Page(addr, Zeros(PAGE))], Entry(Cut(c), 0, 0);
            var m := One(c, ranges, e);
            e.vaddr % PAGE == 0 && m.Valid() && m.Tracks() && m.Coherent() && !m.(csr := c').EntryAgrees(Read, e)
  {
    var ranges, e := [Page(addr, Zeros(PAGE))], Entry(Cut(c), 0, 0);
    CutFacts(c);
    hide Cut, Low, Pow2, NoTag, Slot;
    assert Pages(ranges);
    PageFound(ranges, 0);
    BareReads(ranges, c, Cut(c));
    BareReads(ranges, c', Cut(c));
    hide Translate, Touches, RangeAt;
    OneCoherent(c, ranges, e);
  }

  lemma BareReads(ranges: seq<Range>, c: Csr, v: nat)
    requires c.mode == 0 && c.mprv && c.xlen < c.maxXlen
    ensures Translate(ranges, c, v, Read) == To(if c.mpp == PRV_M then Low(v, c.xlen) else v)
    ensures !Touches(ranges, c, v, Read)
  {
    hide FindLeaf, Low;
  }

  /** A trap leaves coherent machines coherent, for exactly these settings. */
  lemma TrapStaleIff(c: Csr, delegated: bool)
    requires c.Valid()
    ensures TrapKeepsView(c) <==>
            forall m: Machine :: m.csr == c && m.Valid() && m.Coherent() ==> Trap(m, delegated).Coherent()
  {
    hide Machine.Valid, Machine.Coherent, Machine.Tracks, Trap, TrapWitness;
    if TrapKeepsView(c) {
      forall m: Machine | m.csr == c && m.Valid() && m.Coherent() ensures Trap(m, delegated).Coherent() {
        TrapKeeps(m, delegated);
      }
    } else {
      TrapWitnessStale(c, delegated);
    }
  }

  // ----- MRET

  function MretWitness(c: Csr): Machine {
    One(c, [Page(0, Zeros(PAGE))], if c.mode != 0 then Entry(0, 0, 0) else Entry(Cut(c), 0, 0))
  }

  lemma MretOnly(m: Machine)
    requires m.csr.priv == PRV_M && m.csr.mpp == PRV_M
    ensures Mret(m) == m.(csr := m.csr.(mpp := PRV_U))
  {
    hide Pow2, FlushAll;
  }

  lemma ZeroWord(n: nat)
    requires n <= PAGE
    ensures Word(Zeros(PAGE), 0, n) == 0
  {
    ZeroWordAt(0, n);
  }

  lemma {:induction false} ZeroWordAt(o: nat, n: nat)
    requires o + n <= PAGE
    ensures Word(Zeros(PAGE), o, n) == 0
    decreases n
  {
    if n > 0 { ZeroWordAt(o + 1, n - 1); }
  }

  lemma NoTable(c: Csr)
    requires c.Valid() && c.mode != 0
    ensures FindLeaf([Page(0, Zeros(PAGE))], c, 0, c.Base(), 0) == NoLeaf
  {
    var ranges := [Page(0, Zeros(PAGE))];
    ZeroFields(c);
    BaseAligned(c);
    ZeroWord(c.PteSize());
    assert Pages(ranges);
    if c.Base() == 0 { PageFound(ranges, 0); }
    hide Pow2, Csr.Base, Shr, Low, Zeros, Word;
    assert EntryAddr(c, 0, c.Base(), 0) == c.Base();
    if c.Base() != 0 { assert !ranges[0].Covers(c.Base()); }
    assert ReadPte(ranges, c.Base(), c.PteSize()) == 0;
  }

  lemma MretFaults(c: Csr)
    requires c.Valid() && c.mode != 0 && c.mprv && c.mpp == PRV_U
    ensures Translate([Page(0, Zeros(PAGE))], c, 0, Read) == PageFault
  {
    NoTable(c);
    hide FindLeaf, Csr.Base, Page;
  }

  lemma MretWitnessStale(c: Csr)
    requires c.Valid() && c.priv == PRV_M && !MretKeepsView(c)
    ensures var m := MretWitness(c);
            m.csr == c && m.Valid() && m.Tracks() && m.Coherent() && !Mret(m).Coherent()
  {
    var m, ranges := MretWitness(c), [Page(0, Zeros(PAGE))];
    MretOnly(m);
    var c' := c.(mpp := PRV_U);
    if c.mode != 0 {
      MretFaults(c');
      ZeroLow(c.xlen);
      TrapBare(ranges, c);
      BareTouchesNothing(ranges, c);
      assert Pages(ranges);
      PageFound(ranges, 0);
      hide Translate, Touches, RangeAt, Mret, Pow2, Low, Slot, NoTag, Zeros;
      OneCoherent(c, ranges, Entry(0, 0, 0));
      OneStale(c, ranges, Entry(0, 0, 0), Mret(m));
    } else {
      CutStale(c, c', 0);
      OneStale(c, ranges, Entry(Cut(c), 0, 0), Mret(m));
    }
  }

  lemma BareTouchesNothing(ranges: seq<Range>, c: Csr)
    requires c.mprv && c.mpp == PRV_M
    ensures !Touches(ranges, c, 0, Read)
  {
    hide FindLeaf;
  }

  /** MRET leaves coherent machines coherent, for exactly these settings. */
  lemma MretStaleIff(c: Csr)
    requires c.Valid() && c.priv == PRV_M
    ensures MretKeepsView(c) <==>
            forall m: Machine :: m.csr == c && m.Valid() && m.Coherent() ==> Mret(m).Coherent()
  {
    hide Machine.Valid, Machine.Coherent, Machine.Tracks, Mret, MretWitness;
    if MretKeepsView(c) {
      forall m: Machine | m.csr == c && m.Valid() && m.Coherent() ensures Mret(m).Coherent() { MretKeeps(m); }
    } else {
      MretWitnessStale(c);
    }
  }
}
