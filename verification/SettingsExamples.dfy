/** Machines in which a change of the settings goes wrong.  A trap taken in machine mode leaves a stale entry: MPRV
    makes loads use the page table of the supervisor, the trap sets MPP to machine mode, and nothing is flushed
    (riscv_cpu.c:1112-1117).  MRET into machine mode does the same the other way round (riscv_cpu.c:1143-1157).  And a
    write to mstatus takes the page away that the code runs on. */
module SettingsExamples {
  import opened Powers
  import opened PhysMemory
  import opened PageWalk
  import opened Tlb
  import opened MachineRuns
  import InterpLoop

  const SUPERPAGE: nat := 0x400000

  /** Valid, readable, writable, executable, accessed and dirty; for the supervisor, or for the user. */
  const SUPERVISOR_FLAGS: Byte := 0xCF
  const USER_FLAGS: Byte := 0xDF

  /** A table whose first entry maps addresses 0.. to SUPERPAGE.. */
  function TableByte(flags: Byte, i: int): Byte {
    if i == 0 then flags else if i == 2 then 0x10 else 0
  }

  function Table(flags: Byte): Range {
    Range(0, PAGE, PAGE, true, seq(PAGE, i => TableByte(flags, i)), false, [], 0)
  }

  function Data(): Range {
    Range(SUPERPAGE, PAGE, PAGE, true, seq(PAGE, i => 0), false, [], 0)
  }

  /** sv32 with the table at 0, in machine mode with loads checked as the supervisor's. */
  function Settings(): Csr {
    Csr(32, 32, PRV_M, true, PRV_S, 0, false, false, 1, 1, 1, 1, 0)
  }

  function None(): Entry { Entry(NoTag(32), 0, 0) }

  /** The read TLB holds the translation of page 0. */
  function Example(): Machine {
    var none := seq(TLB_SIZE, i => None());
    Machine(Settings(), [Table(SUPERVISOR_FLAGS), Data()], none[0 := Entry(0, 1, 0)], none, none, [{}, {}])
  }

  lemma Powers22()
    ensures Pow2(22) == SUPERPAGE && Pow2(32) == 0x1_0000_0000
  {
    Pow2Add(11, 11);
    Pow2Add(22, 10);
    assert Pow2(11) == 2048 && Pow2(10) == 1024;
  }

  lemma TableEntry(flags: Byte)
    ensures ReadPte([Table(flags), Data()], 0, 4) == 0x100000 + flags
    ensures RangeAt([Table(flags), Data()], 0) == 0 && RangeAt([Table(flags), Data()], SUPERPAGE) == 1
  {
    var m := Table(flags).mem;
    assert m[0] == flags && m[1] == 0 && m[2] == 0x10 && m[3] == 0;
    assert Word(m, 4, 0) == 0;
    assert Word(m, 3, 1) == 0;
    assert Word(m, 2, 2) == 0x10;
    assert Word(m, 1, 3) == 0x1000;
    assert Word(m, 0, 4) == 0x100000 + flags;
    assert FindRange([Table(flags), Data()], SUPERPAGE, 1) == 1;
  }

  const PTE: nat := 0x1000CF

  const USER_PTE: nat := 0x1000DF

  lemma FirstLeaf(ranges: seq<Range>, c: Csr, v: nat, base: nat, i: nat, pte: nat)
    requires c.maxXlen == 32 && v == 0 && base == 0 && i == 0 && ReadPte(ranges, 0, 4) == pte
    requires pte == PTE || pte == USER_PTE
    ensures FindLeaf(ranges, c, v, base, i) == Leaf(0, pte, 0)
  {
    FirstEntry(c, v, base, i);
    hide Pow2, ReadPte, EntryAddr;
    assert IsValidPte(pte) && Xwr(pte) == 7;
    hide IsValidPte, Xwr;
  }

  lemma FirstEntry(c: Csr, v: nat, base: nat, i: nat)
    requires c.maxXlen == 32 && v == 0 && base == 0 && i == 0
    ensures EntryAddr(c, v, base, i) == 0 && c.PteSize() == 4 && c.Levels() == 2
  {
    ZeroWord();
    hide Pow2, Shr, Low;
  }

  lemma FirstTarget(c: Csr, pte: nat)
    requires c.maxXlen == 32 && c.root == 0 && (pte == PTE || pte == USER_PTE)
    ensures c.Levels() == 2 && LeafTarget(c, 0, pte, 0) == SUPERPAGE && c.Base() == 0
  {
    Powers22();
    ZeroWord();
    TopWord();
    hide Pow2, Shr, Low, Shl;
    assert pte / 1024 == 1024;
    assert PteTarget(c, pte) == SUPERPAGE;
    assert c.Shift(0) == 22;
  }

  lemma FirstChecks(c: Csr, v: nat)
    requires c == Settings() && v == 0
    ensures Permits(c, PTE, Read) && !NeedsUpdate(PTE, Read) && Canonical(c, v) && !Bare(c, Read)
    ensures LeafTarget(c, v, PTE, 0) == SUPERPAGE && c.Base() == 0 && c.Levels() == 2 && c.maxXlen == 32
  {
    FirstTarget(c, PTE);
    hide Pow2, LeafTarget, Csr.Base;
  }

  lemma FirstPage(ranges: seq<Range>, c: Csr, v: nat)
    requires c == Settings() && v == 0 && ReadPte(ranges, 0, 4) == PTE
    ensures Translate(ranges, c, v, Read) == To(SUPERPAGE)
    ensures !Touches(ranges, c, v, Read)
  {
    FirstChecks(c, v);
    hide Settings, Pow2, ReadPte, Canonical, Bare, Csr.Base, Csr.Levels, LeafTarget, Permits, NeedsUpdate;
    FirstLeaf(ranges, c, v, c.Base(), 0, PTE);
    hide FindLeaf;
  }

  lemma ZeroWord()
    ensures Shr(0, 22) == 0 && Low(0, 10) == 0 && Low(0, 22) == 0
  {
    DivModUnique(0, Pow2(22), 0, 0);
    DivModUnique(0, Pow2(10), 0, 0);
  }

  lemma TopWord()
    ensures Shl(Shr(SUPERPAGE, 22), 22) == SUPERPAGE
  {
    Powers22();
    hide Pow2;
    ShrLowUnique(SUPERPAGE, 22, 1, 0);
  }

  lemma ExampleEntry(m: Machine)
    requires m == Example()
    ensures m.EntryAgrees(Read, m.read[0]) && !Trap(m, false).EntryAgrees(Read, m.read[0])
  {
    TableEntry(SUPERVISOR_FLAGS);
    FirstPage(m.ranges, m.csr, 0);
    BareAfter(m.ranges, Trap(m, false).csr);
    hide Pow2, Translate, Touches, RangeAt, FlushAll, Table, Data;
    assert m.ranges == [Table(SUPERVISOR_FLAGS), Data()];
    assert IsRamAt(m.ranges, SUPERPAGE) && Data().addr == SUPERPAGE;
  }

  lemma BareAfter(ranges: seq<Range>, c: Csr)
    requires c == Trap(Example(), false).csr
    ensures Translate(ranges, c, 0, Read) == To(0)
  {
    hide Pow2, FindLeaf, CheckedLeaf;
  }

  lemma ExampleTags(m: Machine)
    requires m == Example()
    ensures m.Live(m.read[0]) && forall i :: 0 < i < TLB_SIZE ==> !m.Live(m.read[i])
    ensures forall i :: 0 <= i < TLB_SIZE ==> !m.Live(m.write[i]) && !m.Live(m.code[i])
  {
    Powers22();
    hide Pow2;
  }

  lemma ExampleValid(m: Machine)
    requires m == Example()
    ensures m.Valid() && m.Tracks()
  {
    ExampleTags(m);
    hide NoTag, Pow2, Machine.Live;
    assert m.ValidEntry(m.read[0], 0);
  }

  lemma ExampleCoherent(m: Machine)
    requires m == Example()
    ensures m.Coherent()
  {
    ExampleTags(m);
    ExampleEntry(m);
    hide NoTag, Machine.Live, Machine.EntryAgrees, Translate, Touches;
    assert m.Agrees(Read) && m.Agrees(Write) && m.Agrees(Code);
    assert Disjoint(m.ranges);
  }

  /** The machine is coherent before the trap and not after it, so the condition of TrapKeeps cannot be dropped. */
  lemma TrapLeavesStaleEntry(m: Machine)
    requires m == Example()
    ensures m.Valid() && m.Coherent() && m.Tracks()
    ensures !Trap(m, false).Coherent()
  {
    ExampleValid(m);
    ExampleCoherent(m);
    ExampleTags(m);
    ExampleEntry(m);
    var t := Trap(m, false);
    assert t.read == m.read && t.csr.maxXlen == m.csr.maxXlen by { hide NoTag, FlushAll, Table, Data; }
    hide Example, Trap, NoTag, FlushAll, Machine.EntryAgrees, Machine.Valid, Machine.Tracks;
    assert t.Entries(Read)[0] == m.read[0] && t.Live(m.read[0]);
  }

  // ----- MRET

  /** In machine mode with loads checked as in machine mode, and the same page untranslated in the read TLB. */
  function MretExample(): Machine {
    var none := seq(TLB_SIZE, i => None());
    var ranges := [Table(SUPERVISOR_FLAGS), Data()];
    Machine(Settings().(mpp := PRV_M), ranges, none[0 := Entry(0, 0, 0)], none, none, [{}, {}])
  }

  lemma MretTags(m: Machine)
    requires m == MretExample()
    ensures m.Live(m.read[0]) && forall i :: 0 < i < TLB_SIZE ==> !m.Live(m.read[i])
    ensures forall i :: 0 <= i < TLB_SIZE ==> !m.Live(m.write[i]) && !m.Live(m.code[i])
  {
    Powers22();
    hide Pow2;
  }

  lemma MretEntry(m: Machine)
    requires m == MretExample()
    ensures m.EntryAgrees(Read, m.read[0]) && !Mret(m).EntryAgrees(Read, m.read[0])
  {
    TableEntry(SUPERVISOR_FLAGS);
    BareBefore(m.ranges, m.csr);
    FaultAfter(m.ranges, Mret(m).csr);
    hide Pow2, Translate, Touches, RangeAt, FlushAll, Table, Data;
    assert m.ranges == [Table(SUPERVISOR_FLAGS), Data()];
    assert IsRamAt(m.ranges, 0) by { assert Table(SUPERVISOR_FLAGS).addr == 0; }
  }

  lemma BareBefore(ranges: seq<Range>, c: Csr)
    requires c == MretExample().csr
    ensures Translate(ranges, c, 0, Read) == To(0) && !Touches(ranges, c, 0, Read)
  {
    hide Pow2, FindLeaf, CheckedLeaf;
  }

  lemma FaultAfter(ranges: seq<Range>, c: Csr)
    requires c == Mret(MretExample()).csr && ReadPte(ranges, 0, 4) == PTE
    ensures Translate(ranges, c, 0, Read) == PageFault
  {
    hide Pow2, FlushAll;
    FirstTarget(c, PTE);
    hide Csr.Base, LeafTarget, ReadPte;
    FirstLeaf(ranges, c, 0, c.Base(), 0, PTE);
    hide FindLeaf;
  }

  lemma MretValid(m: Machine)
    requires m == MretExample()
    ensures m.Valid() && m.Tracks()
  {
    MretTags(m);
    hide NoTag, Pow2, Machine.Live;
    assert m.ValidEntry(m.read[0], 0);
  }

  lemma MretCoherent(m: Machine)
    requires m == MretExample()
    ensures m.Coherent()
  {
    MretTags(m);
    MretEntry(m);
    hide NoTag, Machine.Live, Machine.EntryAgrees, Translate, Touches;
    assert m.Agrees(Read) && m.Agrees(Write) && m.Agrees(Code);
    assert Disjoint(m.ranges);
  }

  /** The machine is coherent before MRET and not after it: the load is checked as the user's now, and would fault. */
  lemma MretLeavesStaleEntry(m: Machine)
    requires m == MretExample()
    ensures m.Valid() && m.Coherent() && m.Tracks() && m.csr.priv == PRV_M
    ensures !Mret(m).Coherent()
  {
    MretValid(m);
    MretCoherent(m);
    MretTags(m);
    MretEntry(m);
    var t := Mret(m);
    assert t.read == m.read && t.csr.maxXlen == m.csr.maxXlen by { hide NoTag, FlushAll, Table, Data; }
    hide MretExample, Mret, NoTag, FlushAll, Machine.EntryAgrees, Machine.Valid, Machine.Tracks;
    assert t.Entries(Read)[0] == m.read[0] && t.Live(m.read[0]);
  }

  // ----- mstatus

  /** The supervisor runs on a page of the user, with SUM set. */
  function CodeExample(): Machine {
    var none := seq(TLB_SIZE, i => None());
    var settings := Settings().(priv := PRV_S, mprv := false, sum := true);
    Machine(settings, [Table(USER_FLAGS), Data()], none, none, none, [{}, {}])
  }

  /** The same settings without SUM. */
  function WithoutSum(): Mstatus { Mstatus(false, PRV_S, 0, false, false, 1, 1) }

  lemma CodeChecks(c: Csr)
    requires c == CodeExample().csr
    ensures Permits(c, USER_PTE, Code) && !Permits(c.(sum := false), USER_PTE, Code)
    ensures Canonical(c, 0) && !Bare(c, Code) && !Bare(c.(sum := false), Code)
    ensures c.maxXlen == 32 && c.root == 0
  {
    hide Pow2;
  }

  /** The page can be fetched from before SUM is cleared, and not afterwards; the block of code goes on. */
  lemma SumTakesCodeAway(m: Machine)
    requires m == CodeExample()
    ensures Translate(m.ranges, m.csr, 0, Code) == To(SUPERPAGE)
    ensures Translate(m.ranges, SetMstatus(m, WithoutSum()).csr, 0, Code) == PageFault
    ensures InterpLoop.WithdrawsCode(m, WithoutSum(), 0)
  {
    var c := m.csr;
    assert SetMstatus(m, WithoutSum()).csr == c.(sum := false) by { hide FlushAll; }
    CodeChecks(c);
    TableEntry(USER_FLAGS);
    FirstTarget(c, USER_PTE);
    FirstTarget(c.(sum := false), USER_PTE);
    hide SetMstatus, Pow2, ReadPte, Canonical, Bare, Csr.Base, Csr.Levels, LeafTarget, Permits, Table, Data;
    FirstLeaf(m.ranges, c, 0, c.Base(), 0, USER_PTE);
    FirstLeaf(m.ranges, c.(sum := false), 0, c.Base(), 0, USER_PTE);
    hide FindLeaf;
  }
}
