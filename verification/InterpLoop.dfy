/** The interpreter's fetch and budget (riscv_cpu_template.h: riscv_cpu_interp_x, riscv_cpu.c: riscv_cpu_interp).
    An instruction is an arbitrary step that falls through, jumps, or leaves the loop. */
module InterpLoop {
  import opened Powers
  import opened PhysMemory
  import opened PageWalk
  import opened Tlb
  import opened MachineRuns
  import opened CodeBytes

  /** How an instruction ends: it falls through by its length, jumps within the loop, or leaves it (with an exception,
      which traps, or without one: a return from a trap, a change of the settings, power down). */
  datatype Effect = Falls | Jumps(target: nat) | Leaves(pc: nat, traps: bool, powerDown: bool)

  /** The bits that make up an instruction, or the address that faulted. */
  datatype Insn = FetchFault | Insn16(bits: nat) | Insn32(bits: nat) {
    function Size(): nat { if Insn32? then 4 else 2 }
  }

  predicate IsLong(half: nat) { half % 4 == 3 }

  function MakeInsn(low: nat, high: nat): Insn {
    if IsLong(low) then Insn32(low + 65536 * high) else Insn16(low)
  }

  /** The address of the second half: addresses wrap at the top. */
  function SecondHalf(c: Csr, pc: nat): nat {
    if pc % PAGE == PAGE - 2 then Low(pc + 2, c.maxXlen) else pc + 2
  }

  /** Fetching with every half translated: what the block fetch stands for. */
  function PlainFetch(c: Csr, ranges: seq<Range>, pc: nat): Insn {
    var (x, b) := PlainLoad(c, ranges, Code, pc, 2);
    if !x.Ram? then FetchFault
    else if !IsLong(x.value) then Insn16(x.value)
    else
      var (y, _) := PlainLoad(c, b, Code, SecondHalf(c, pc), 2);
      if !y.Ram? then FetchFault else Insn32(x.value + 65536 * y.value)
  }

  /** code_ptr and code_end, as the page of a buffer and an offset in it; NoBlock is the null pointer. */
  datatype Cursor = NoBlock | Block(entry: Entry, offset: nat) {
    /** Whether a new block must be fetched (code_ptr >= code_end). */
    predicate Exhausted() { NoBlock? || offset >= PAGE - 2 }
  }

  // ----- the fetch

  /** Of a pair of halves in one page: the 32 bits read at once. */
  lemma TwoHalves(mem: seq<Byte>, o: nat)
    requires o + 4 <= |mem|
    ensures Word(mem, o, 4) == Word(mem, o, 2) + 65536 * Word(mem, o + 2, 2)
    ensures Word(mem, o, 4) % 65536 == Word(mem, o, 2) && Word(mem, o, 4) / 65536 == Word(mem, o + 2, 2)
  {
    WordSplit(mem, o, 4, 2);
    Pow2Add(8, 8);
    assert Pow2(8) == 256 && Pow2(16) == 65536;
    DivModUnique(Word(mem, o, 4), 65536, Word(mem, o + 2, 2), Word(mem, o, 2));
  }

  /** A page whose entry agrees with the walk, in its buffer. */
  ghost predicate PageAt(m: Machine, e: Entry) {
    m.EntryAgrees(Code, e) && e.vaddr % PAGE == 0 && e.range < |m.ranges| &&
      (e.page + 1) * PAGE <= |m.ranges[e.range].mem|
  }

  lemma OffsetTranslates(m: Machine, e: Entry, o: nat)
    requires m.Valid() && Disjoint(m.ranges) && PageAt(m, e) && o < PAGE
    ensures var t := Translate(m.ranges, m.csr, e.vaddr + o, Code);
      && t == To(m.ranges[e.range].addr + e.page * PAGE + o) && !Touches(m.ranges, m.csr, e.vaddr + o, Code)
      && IsRamAt(m.ranges, t.paddr) && RangeAt(m.ranges, t.paddr) == e.range
  {
    hide FindLeaf, CheckedLeaf, Machine.ValidEntries, Disjoint, Touches, RangeAt, LeafTarget, Bare, BareAddr;
    CsrOf(m);
    var v := e.vaddr + o;
    assert InPage(e.vaddr, e.vaddr / PAGE, 0) && InPage(v, e.vaddr / PAGE, o);
    var p := Translate(m.ranges, m.csr, e.vaddr, Code).paddr;
    hide Machine.Valid, Translate, Touches, RangeAt, InPage, Disjoint, ValidRanges, Csr.Valid;
    SamePageTranslates(m.ranges, m.csr, e.vaddr, v, e.vaddr / PAGE, 0, o, Code);
    SamePageOffset(p, o);
    SamePageLookup(m.ranges, p, p + o);
  }

  /** A half at an even offset of such a page is what the walk delivers. */
  lemma HalfInPage(m: Machine, e: Entry, o: nat)
    requires m.Valid() && Disjoint(m.ranges) && PageAt(m, e) && o + 2 <= PAGE
    ensures e.range < |m.ranges| && e.page * PAGE + o + 2 <= |m.ranges[e.range].mem|
    ensures PlainLoad(m.csr, m.ranges, Code, e.vaddr + o, 2) ==
            (Ram(Word(m.ranges[e.range].mem, e.page * PAGE + o, 2)), m.ranges)
  {
    OffsetTranslates(m, e, o);
    NoTouch(m.ranges, m.csr, e.vaddr + o, Code);
    hide Machine.Valid, Machine.EntryAgrees, Translate, Touched, Touches, RangeAt, Word, Disjoint;
  }

  lemma FetchOfHalves(c: Csr, ranges: seq<Range>, pc: nat, low: nat, b: seq<Range>, high: nat, b': seq<Range>)
    requires PlainLoad(c, ranges, Code, pc, 2) == (Ram(low), b)
    requires PlainLoad(c, b, Code, SecondHalf(c, pc), 2) == (Ram(high), b')
    ensures PlainFetch(c, ranges, pc) == MakeInsn(low, high)
  {
    hide PlainLoad, SecondHalf;
  }

  /** get_insn32 at code_ptr. */
  function InsnAt(m: Machine, e: Entry, o: nat): Insn {
    if e.range < |m.ranges| && e.page * PAGE + o + 4 <= |m.ranges[e.range].mem|
    then
      var w := Word(m.ranges[e.range].mem, e.page * PAGE + o, 4);
      MakeInsn(w % 65536, w / 65536)
    else FetchFault
  }

  /** Reading 32 bits at once inside a page delivers the instruction that translated fetches deliver. */
  lemma BlockFetch(m: Machine, e: Entry, o: nat)
    requires m.Valid() && Disjoint(m.ranges) && PageAt(m, e) && o + 4 <= PAGE
    ensures PlainFetch(m.csr, m.ranges, e.vaddr + o) == InsnAt(m, e, o) && !InsnAt(m, e, o).FetchFault?
  {
    hide *;
    PageBounds(m, e, o);
    var p := e.page * PAGE + o;
    var low, high := Word(m.ranges[e.range].mem, p, 2), Word(m.ranges[e.range].mem, p + 2, 2);
    HalfInPage(m, e, o);
    HalfInPage(m, e, o + 2);
    TwoHalves(m.ranges[e.range].mem, p);
    SecondInPage(m.csr, e.vaddr, o);
    InsnOfHalves(m, e, o, low, high);
    FetchOfHalves(m.csr, m.ranges, e.vaddr + o, low, m.ranges, high, m.ranges);
  }

  lemma InsnOfHalves(m: Machine, e: Entry, o: nat, low: nat, high: nat)
    requires e.range < |m.ranges| && e.page * PAGE + o + 4 <= |m.ranges[e.range].mem|
    requires var w := Word(m.ranges[e.range].mem, e.page * PAGE + o, 4); w % 65536 == low && w / 65536 == high
    ensures InsnAt(m, e, o) == MakeInsn(low, high) && !InsnAt(m, e, o).FetchFault?
  {
  }

  lemma PageBounds(m: Machine, e: Entry, o: nat)
    requires PageAt(m, e) && o + 4 <= PAGE
    ensures e.vaddr % PAGE == 0 && e.range < |m.ranges| && e.page * PAGE + o + 4 <= |m.ranges[e.range].mem|
  {
    hide Machine.EntryAgrees;
  }

  lemma SecondInPage(c: Csr, v: nat, o: nat)
    requires v % PAGE == 0 && o + 4 <= PAGE
    ensures SecondHalf(c, v + o) == v + (o + 2)
  {
    OffsetIn(v, o);
    hide Pow2;
  }

  lemma OffsetIn(v: nat, o: nat)
    requires v % PAGE == 0 && o < PAGE
    ensures (v + o) % PAGE == o && PageStart(v + o) == v
  {
  }

  lemma FetchTag(m: Machine, pc: nat)
    requires |m.code| == TLB_SIZE && Load(m, Code, pc, 2).0.Ram?
    ensures var m' := Load(m, Code, pc, 2).1; |m'.code| == TLB_SIZE && m'.code[Slot(pc)].vaddr == PageStart(pc)
  {
    hide Translate, RangeAt, Reached, LoadAt, PageStart, Slot;
  }

  lemma LiveEntry(m: Machine, pc: nat)
    requires m.Valid() && m.Coherent() && m.code[Slot(pc)].vaddr == PageStart(pc)
    ensures PageAt(m, m.code[Slot(pc)])
  {
    EntriesLength(m, Code);
    TagOffset(pc / PAGE, 0);
    NoTagOffset(m.csr.maxXlen);
    var e := m.code[Slot(pc)];
    hide NoTag, Machine.EntryAgrees, Slot;
    assert m.Live(m.Entries(Code)[Slot(pc)]);
    assert m.ValidEntry(e, Slot(pc)) && m.EntryAgrees(Code, e);
    assert m.ranges[e.range].Valid();
  }

  /** After a fetch the code TLB holds the entry of the page. */
  lemma FetchedEntry(m: Machine, pc: nat)
    requires m.Valid() && m.Coherent() && Load(m, Code, pc, 2).0.Ram?
    ensures var m' := Load(m, Code, pc, 2).1;
      |m'.code| == TLB_SIZE && m'.code[Slot(pc)].vaddr == PageStart(pc) && PageAt(m', m'.code[Slot(pc)])
  {
    LoadKeeps(m, Code, pc, 2);
    EntriesLength(m, Code);
    FetchTag(m, pc);
    hide *;
    LiveEntry(Load(m, Code, pc, 2).1, pc);
  }

  /** A load from `ranges` and from `b`, which it leaves. */
  lemma SameLoad(ranges: seq<Range>, b: seq<Range>, c: Csr, v: nat, size: nat)
    requires b == Touched(ranges, c, v, Code) == Touched(b, c, v, Code)
    requires Translate(b, c, v, Code) == Translate(ranges, c, v, Code)
    ensures PlainLoad(c, PlainLoad(c, ranges, Code, v, size).1, Code, v, size) == PlainLoad(c, ranges, Code, v, size)
  {
    hide Translate, Touched, RangeAt, LoadAt, IsRamAt;
  }

  lemma TouchedTwice(ranges: seq<Range>, c: Csr, v: nat, size: nat)
    requires ValidRanges(ranges) && c.Valid()
    ensures var (x, b) := PlainLoad(c, ranges, Code, v, size); PlainLoad(c, b, Code, v, size) == (x, b)
  {
    hide *;
    var b := Touched(ranges, c, v, Code);
    WalkUpdateIsInvisible(ranges, c, v, Code, v, Code);
    NoTouch(b, c, v, Code);
    SameLoad(ranges, b, c, v, size);
  }

  lemma NoTouch(ranges: seq<Range>, c: Csr, v: nat, access: Access)
    requires !Touches(ranges, c, v, access)
    ensures Touched(ranges, c, v, access) == ranges
  {
  }

  lemma SecondHalfEven(c: Csr, pc: nat)
    requires pc % 2 == 0 && c.Valid()
    ensures SecondHalf(c, pc) % 2 == 0
  {
    LowEven(pc + 2, c.maxXlen);
    hide Low;
  }

  lemma LowEven(a: nat, n: nat)
    requires a % 2 == 0 && n > 0
    ensures Low(a, n) % 2 == 0
  {
    EvenMod(a, Pow2(n - 1));
  }

  lemma EvenMod(a: nat, p: nat)
    requires a % 2 == 0 && p > 0
    ensures a % (2 * p) % 2 == 0
  {
    var h := a / 2;
    var d, r := h / p, h % p;
    assert h == p * d + r;
    assert a == d * (2 * p) + 2 * r;
    DivModUnique(a, 2 * p, d, 2 * r);
  }

  lemma PlainFetchTwice(c: Csr, ranges: seq<Range>, pc: nat)
    requires ValidRanges(ranges) && c.Valid()
    ensures PlainFetch(c, PlainLoad(c, ranges, Code, pc, 2).1, pc) == PlainFetch(c, ranges, pc)
  {
    TouchedTwice(ranges, c, pc, 2);
    hide PlainLoad, SecondHalf, ValidRanges, Csr.Valid;
  }

  /** A block is fetched without rewalking, also when its first half set the accessed bit. */
  lemma FirstFetch(m0: Machine, m: Machine, pc: nat, e: Entry, o: nat)
    requires m0.Valid() && m.Valid() && m.Coherent() && m.csr == m0.csr
    requires m.ranges == PlainLoad(m0.csr, m0.ranges, Code, pc, 2).1
    requires PageAt(m, e) && pc == e.vaddr + o && o + 4 <= PAGE
    ensures InsnAt(m, e, o) == PlainFetch(m0.csr, m0.ranges, pc) && !InsnAt(m, e, o).FetchFault?
  {
    hide *;
    CsrOf(m0);
    CoherentDisjoint(m);
    PlainFetchTwice(m0.csr, m0.ranges, pc);
    BlockFetch(m, e, o);
  }

  lemma EvenOffset(pc: nat)
    requires pc % 2 == 0 && pc % PAGE < PAGE - 2
    ensures pc % PAGE + 4 <= PAGE && PageStart(pc) + pc % PAGE == pc && PageStart(pc) % PAGE == 0
  {
    TagOffset(pc / PAGE, 0);
  }

  /** The invariants of a machine between two operations. */
  ghost predicate Kept(m: Machine) { m.Valid() && m.Coherent() && m.Tracks() }

  /** What is known of a run: the number of instructions executed, the machine and the program counter that can come up
      together. */
  type Reach = (nat, Machine, nat) -> bool

  ghost predicate KeptUnder(k: nat, m: Machine, pc: nat, reach: Reach) { Kept(m) && reach(k, m, pc) }

  lemma KeptParts(k: nat, m: Machine, pc: nat, reach: Reach)
    requires KeptUnder(k, m, pc, reach)
    ensures m.Valid() && m.Coherent() && m.Tracks() && reach(k, m, pc)
  {
    hide Machine.Valid, Machine.Coherent, Machine.Tracks;
  }

  /** The fetch of an instruction leads to what is known, too. */
  ghost predicate FetchKeeps(reach: Reach) {
    forall k: nat, m: Machine, pc: nat, v: nat ::
      KeptUnder(k, m, pc, reach) && (v == pc || v == SecondHalf(m.csr, pc)) ==>
      reach(k, Load(m, Code, v, 2).1, pc)
  }

  lemma Fetched(k: nat, m: Machine, pc: nat, v: nat, reach: Reach)
    requires FetchKeeps(reach) && KeptUnder(k, m, pc, reach) && (v == pc || v == SecondHalf(m.csr, pc))
    ensures |m.Entries(Code)| == TLB_SIZE && reach(k, Load(m, Code, v, 2).1, pc)
  {
    EntriesLength(m, Code);
    hide Load, SecondHalf, Machine.Valid, Machine.Coherent, Machine.Tracks;
  }

  /** A fetch of two bytes, as the machine and as the walk see it. */
  method FetchHalf(m0: Machine, pc: nat) returns (m: Machine, half: Outcome)
    requires Kept(m0) && pc % 2 == 0
    ensures Kept(m) && m.csr == m0.csr && |m0.Entries(Code)| == TLB_SIZE && m == Load(m0, Code, pc, 2).1
    ensures (half, m.ranges) == PlainLoad(m0.csr, m0.ranges, Code, pc, 2)
    ensures half.Ram? ==> |m.code| == TLB_SIZE && m.code[Slot(pc)].vaddr == PageStart(pc) && PageAt(m, m.code[Slot(pc)])
  {
    LoadIsPlain(m0, Code, pc, 2);
    LoadKeeps(m0, Code, pc, 2);
    EntriesLength(m0, Code);
    LoadCsr(m0, Code, pc, 2);
    var r := Load(m0, Code, pc, 2);
    half, m := r.0, r.1;
    EntriesLength(m, Code);
    if half.Ram? { FetchedEntry(m0, pc); }
    hide *;
  }

  /** The fetch that starts a block: the entry of the page, and the instruction, whose second half may be in the
      next page. */
  method StartBlock(m0: Machine, pc: nat, ghost k: nat, ghost reach: Reach)
    returns (m: Machine, cursor: Cursor, insn: Insn)
    requires KeptUnder(k, m0, pc, reach) && FetchKeeps(reach) && pc % 2 == 0
    ensures KeptUnder(k, m, pc, reach) && m.csr == m0.csr
    ensures insn == PlainFetch(m0.csr, m0.ranges, pc)
    ensures insn.FetchFault? <==> cursor.NoBlock?
    ensures cursor.Block? ==> cursor.offset == pc % PAGE && cursor.entry.vaddr == PageStart(pc)
    ensures cursor.Block? && cursor.offset < PAGE - 2 ==> PageAt(m, cursor.entry)
  {
    var low;
    Fetched(k, m0, pc, pc, reach);
    m, low := FetchHalf(m0, pc);
    CsrOf(m);
    Fetched(k, m, pc, SecondHalf(m.csr, pc), reach);
    SecondHalfEven(m.csr, pc);
    hide PlainLoad, Load, Machine.Valid, Machine.Coherent, Machine.Tracks, PageStart, Slot, Pow2, PageAt, InsnAt,
         SecondHalf, ValidRanges, Csr.Valid, FetchKeeps;
    if !low.Ram? { return m, NoBlock, FetchFault; }
    cursor := Block(m.code[Slot(pc)], pc % PAGE);
    if cursor.Exhausted() {
      // the instruction is potentially half way between two pages
      insn := Insn16(low.value);
      if IsLong(low.value) {
        var high;
        m, high := FetchHalf(m, SecondHalf(m.csr, pc));
        if !high.Ram? { return m, NoBlock, FetchFault; }
        insn := Insn32(low.value + 65536 * high.value);
      }
    } else {
      EvenOffset(pc);
      FirstFetch(m0, m, pc, cursor.entry, cursor.offset);
      insn := InsnAt(m, cursor.entry, cursor.offset);
    }
  }

  // ----- the loop

  /** The instructions of a run, by their number: a step of the machine, at an address and with given bits, and how it
      ends. What they do to the registers decides what the later ones are. */
  type Executor = (nat, Machine, nat, Insn) -> (Machine, Effect)

  /** The page that `pc` is in is still translated as it was. */
  ghost predicate KeepsCode(m: Machine, m': Machine, pc: nat) {
    forall e: Entry :: e.vaddr == PageStart(pc) && PageAt(m, e) ==> PageAt(m', e)
  }

  /** Wherever the run gets to, the instruction there keeps the invariants of the machine, and leads to where the run
      gets next; one that falls through does not move its own page. */
  ghost predicate Sound(exec: Executor, reach: Reach) {
    forall k: nat, m: Machine, pc: nat, i: Insn :: KeptUnder(k, m, pc, reach) ==> SoundAt(exec, reach, k, m, pc, i)
  }

  ghost predicate SoundAt(exec: Executor, reach: Reach, k: nat, m: Machine, pc: nat, i: Insn) {
    var (m', x) := exec(k, m, pc, i);
    && KeptUnder(k + 1, m', NextPc(m, pc, i, x), reach) && m'.csr.maxXlen == m.csr.maxXlen
    && (x.Falls? ==> KeepsCode(m, m', pc))
    && (x.Jumps? ==> x.target % 2 == 0 && x.target < Pow2(m.csr.maxXlen))
    && (x.Leaves? && !x.traps ==> x.pc % 2 == 0 && x.pc < Pow2(m.csr.maxXlen))
  }

  /** One instruction of a run: the machine that fetched it, its address and bits, and the machine that executed it. */
  datatype Executed = Executed(before: Machine, pc: nat, insn: Insn, after: Machine)

  /** Every instruction executed has the bits that translating its own address gives, in the machine as it was then. */
  ghost predicate FetchedPlainly(trace: seq<Executed>) {
    forall k :: 0 <= k < |trace| ==> IsFetched(trace[k])
  }

  ghost predicate IsFetched(t: Executed) {
    && t.before.Valid() && Disjoint(t.before.ranges) && t.pc % 2 == 0 && t.pc < Pow2(t.before.csr.maxXlen)
    && !t.insn.FetchFault? && t.insn == PlainFetch(t.before.csr, t.before.ranges, t.pc)
  }

  /** The bytes of the instructions, and where those that fall through lead. */
  ghost predicate RunsCode(exec: Executor, k0: nat, trace: seq<Executed>) {
    && (forall k :: 0 <= k < |trace| ==>
          !trace[k].insn.FetchFault? &&
          IsCodeAt(trace[k].before.csr, trace[k].before.ranges, trace[k].pc, trace[k].insn.bits))
    && (forall k :: 0 < k < |trace| && !trace[k - 1].insn.FetchFault? ==>
          FallsThrough(exec, k0 + k - 1, trace[k - 1]) ==>
          trace[k].pc == (trace[k - 1].pc + Length(trace[k - 1].insn.bits)) % Pow2(trace[k - 1].after.csr.maxXlen))
  }

  /** Where the last instruction leads, if it falls through. */
  ghost predicate LastLeads(exec: Executor, k0: nat, trace: seq<Executed>, pc: nat) {
    trace != [] && !trace[|trace| - 1].insn.FetchFault? ==>
      var t := trace[|trace| - 1];
      FallsThrough(exec, k0 + |trace| - 1, t) ==> pc == (t.pc + Length(t.insn.bits)) % Pow2(t.after.csr.maxXlen)
  }

  ghost predicate FallsThrough(exec: Executor, k: nat, t: Executed) {
    exec(k, t.after, t.pc, t.insn).1.Falls?
  }

  function NextPc(m: Machine, pc: nat, insn: Insn, x: Effect): nat {
    match x
    case Falls => Low(pc + insn.Size(), m.csr.maxXlen)
    case Jumps(t) => t
    case Leaves(p, _, _) => p
  }

  /** Instruction number `k`, `insn` at `pc` in the machine `m`, goes on to `pc'` in the machine `m'`. */
  ghost predicate LeadsTo(exec: Executor, k: nat, m: Machine, pc: nat, insn: Insn, m': Machine, pc': nat) {
    var (m1, x) := exec(k, m, pc, insn);
    !x.Leaves? && m' == m1 && pc' == NextPc(m, pc, insn, x)
  }

  /** Each instruction runs in the machine that the one before it left, at the address that one goes on to; the first
      one has the number `k0`. */
  ghost predicate Chained(exec: Executor, k0: nat, trace: seq<Executed>) {
    forall k :: 0 < k < |trace| ==>
      LeadsTo(exec, k0 + k - 1, trace[k - 1].after, trace[k - 1].pc, trace[k - 1].insn, trace[k].before, trace[k].pc)
  }

  ghost predicate ChainsTo(exec: Executor, k0: nat, trace: seq<Executed>, m: Machine, pc: nat) {
    trace != [] ==> var t := trace[|trace| - 1]; LeadsTo(exec, k0 + |trace| - 1, t.after, t.pc, t.insn, m, pc)
  }

  lemma ExtendTrace(exec: Executor, k0: nat, trace: seq<Executed>, t: Executed)
    requires FetchedPlainly(trace) && Chained(exec, k0, trace) && IsFetched(t)
    requires ChainsTo(exec, k0, trace, t.before, t.pc)
    ensures FetchedPlainly(trace + [t]) && Chained(exec, k0, trace + [t])
  {
    hide IsFetched, LeadsTo;
  }

  /** What a call of riscv_cpu_interp_x leaves: how far the instruction counter moved, and why it stopped. */
  datatype Stop = Budget | Interrupt | MmuFault | Left(traps: bool, powerDown: bool)

  /** The program counter while a block is being executed stays in its page. */
  ghost predicate InBlock(m: Machine, cursor: Cursor, pc: nat) {
    cursor.Block? && !cursor.Exhausted() ==>
      PageAt(m, cursor.entry) && cursor.offset % 2 == 0 && cursor.entry.vaddr + cursor.offset == pc
      && cursor.entry.vaddr + PAGE <= Pow2(m.csr.maxXlen)
  }

  lemma PageTop(c: Csr, pc: nat)
    requires c.Valid() && pc < Pow2(c.maxXlen)
    ensures PageStart(pc) + PAGE <= Pow2(c.maxXlen)
  {
    Pow2Add(12, c.maxXlen - 12);
    assert Pow2(12) == PAGE;
    var p, q := Pow2(c.maxXlen - 12), pc / PAGE;
    hide Pow2;
    if q >= p { MulAtLeast(q - p + 1, PAGE); }
    assert (q + 1) * PAGE == q * PAGE + PAGE;
    WholeMono(q + 1, p);
  }

  lemma WholeMono(a: nat, b: nat)
    requires a <= b
    ensures a * PAGE <= PAGE * b
  {
  }

  lemma NextEven(maxXlen: nat, pc: nat, size: nat)
    requires maxXlen > 0 && pc % 2 == 0 && (size == 2 || size == 4)
    ensures Low(pc + size, maxXlen) % 2 == 0 && Low(pc + size, maxXlen) < Pow2(maxXlen)
    ensures pc + size < Pow2(maxXlen) ==> Low(pc + size, maxXlen) == pc + size
  {
    hide *;
    LowEven(pc + size, maxXlen);
    ShrLow(pc + size, maxXlen);
    if pc + size < Pow2(maxXlen) { LowSmall(pc + size, maxXlen); }
  }

  lemma LowSmall(a: nat, n: nat)
    requires a < Pow2(n)
    ensures Low(a, n) == a
  {
    DivModUnique(a, Pow2(n), 0, a);
  }

  /** The cursor after the instruction at `pc` fell through. */
  lemma Advances(m: Machine, m': Machine, cursor: Cursor, pc: nat, size: nat)
    requires m.Valid() && pc % 2 == 0 && pc < Pow2(m.csr.maxXlen) && (size == 2 || size == 4)
    requires m'.csr.maxXlen == m.csr.maxXlen && KeepsCode(m, m', pc)
    requires cursor.Block? && cursor.entry.vaddr == PageStart(pc) && cursor.offset == pc % PAGE
    requires cursor.offset < PAGE - 2 ==> PageAt(m, cursor.entry)
    ensures InBlock(m', cursor.(offset := cursor.offset + size), Low(pc + size, m.csr.maxXlen))
  {
    CsrOf(m);
    PageTop(m.csr, pc);
    NextEven(m.csr.maxXlen, pc, size);
    EvenSum(pc, size);
    hide Pow2, Low, PageAt, Machine.Valid, Csr.Valid, PageStart;
  }

  lemma EvenSum(pc: nat, size: nat)
    requires pc % 2 == 0 && size % 2 == 0
    ensures (pc % PAGE + size) % 2 == 0 && PageStart(pc) + pc % PAGE == pc
  {
    EvenParts(pc, pc / PAGE, pc % PAGE);
  }

  lemma EvenParts(pc: nat, q: nat, r: nat)
    requires pc % 2 == 0 && pc == 4096 * q + r
    ensures r % 2 == 0
  {
    var h := pc / 2;
    assert r == 2 * (h - 2048 * q);
  }

  /** Executing the instruction fetched: the machine, the address and the place in the block it leads to. */
  method Execute(m: Machine, pc: nat, cursor: Cursor, insn: Insn, k: nat, exec: Executor, ghost reach: Reach)
    returns (m': Machine, pc': nat, cursor': Cursor, x: Effect)
    requires KeptUnder(k, m, pc, reach) && Sound(exec, reach) && pc % 2 == 0 && pc < Pow2(m.csr.maxXlen)
    requires cursor.Block? && cursor.entry.vaddr == PageStart(pc) && cursor.offset == pc % PAGE
    requires cursor.offset < PAGE - 2 ==> PageAt(m, cursor.entry)
    ensures x == exec(k, m, pc, insn).1
    ensures !x.Leaves? ==> LeadsTo(exec, k, m, pc, insn, m', pc')
    ensures KeptUnder(k + 1, m', pc', reach) && m'.csr.maxXlen == m.csr.maxXlen
    ensures !x.Leaves? ==> InBlock(m', cursor', pc')
    ensures !(x.Leaves? && x.traps) ==> pc' % 2 == 0 && pc' < Pow2(m'.csr.maxXlen)
    ensures x.Falls? ==> cursor' == cursor.(offset := cursor.offset + insn.Size())
    ensures !x.Falls? ==> cursor' == NoBlock
  {
    hide Pow2, PageAt, Machine.Valid, Machine.Coherent, Machine.Tracks, Csr.Valid, PageStart, KeepsCode, Sound, InBlock;
    var r := exec(k, m, pc, insn);
    m', x := r.0, r.1;
    ExecutorFacts(exec, reach, k, m, pc, insn);
    pc' := NextPc(m, pc, insn, x);
    cursor' := NoBlock;
    if x.Falls? {
      cursor' := cursor.(offset := cursor.offset + insn.Size());
      Advances(m, m', cursor, pc, insn.Size());
    } else {
      NoBlockIn(m', pc');
    }
  }

  lemma NoBlockIn(m: Machine, pc: nat)
    ensures InBlock(m, NoBlock, pc)
  {
  }

  lemma ExecutorFacts(exec: Executor, reach: Reach, k: nat, m: Machine, pc: nat, insn: Insn)
    requires Sound(exec, reach) && KeptUnder(k, m, pc, reach) && pc % 2 == 0
    ensures var (m', x) := exec(k, m, pc, insn);
      && KeptUnder(k + 1, m', NextPc(m, pc, insn, x), reach) && m'.csr.maxXlen == m.csr.maxXlen
      && (x.Falls? ==> KeepsCode(m, m', pc))
      && (!(x.Leaves? && x.traps) ==>
            NextPc(m, pc, insn, x) % 2 == 0 && NextPc(m, pc, insn, x) < Pow2(m.csr.maxXlen))
  {
    hide Machine.Valid, Machine.Coherent, Machine.Tracks, KeepsCode, Low;
    XlenPositive(m);
    NextEven(m.csr.maxXlen, pc, insn.Size());
    assert SoundAt(exec, reach, k, m, pc, insn);
    hide Sound;
    var r := exec(k, m, pc, insn);
    if r.1.Falls? {
      assert NextPc(m, pc, insn, r.1) == Low(pc + insn.Size(), m.csr.maxXlen);
    }
  }

  lemma XlenPositive(m: Machine)
    requires m.Valid()
    ensures m.csr.maxXlen > 0
  {
  }

  /** Inside a block no translation is looked up. */
  lemma FastFetch(m: Machine, cursor: Cursor, pc: nat, k: nat, reach: Reach)
    requires KeptUnder(k, m, pc, reach) && InBlock(m, cursor, pc) && !cursor.Exhausted() && pc % 2 == 0
    ensures InsnAt(m, cursor.entry, cursor.offset) == PlainFetch(m.csr, m.ranges, pc)
    ensures !InsnAt(m, cursor.entry, cursor.offset).FetchFault?
    ensures PageAt(m, cursor.entry) && cursor.entry.vaddr == PageStart(pc) && cursor.offset == pc % PAGE
  {
    hide *;
    KeptParts(k, m, pc, reach);
    CoherentDisjoint(m);
    InBlockFacts(m, cursor, pc);
    BlockFetch(m, cursor.entry, cursor.offset);
  }

  lemma InBlockFacts(m: Machine, cursor: Cursor, pc: nat)
    requires InBlock(m, cursor, pc) && !cursor.Exhausted() && pc % 2 == 0
    ensures cursor.Block? && PageAt(m, cursor.entry) && cursor.entry.vaddr == PageStart(pc) &&
            cursor.offset == pc % PAGE
    ensures pc == cursor.entry.vaddr + cursor.offset && cursor.offset + 4 <= PAGE
  {
    hide Machine.EntryAgrees, Pow2;
    OffsetIn(cursor.entry.vaddr, cursor.offset);
  }

  /** `j` instructions have been executed since the last check, each at least two bytes long; all but the last of
      them ended inside the block. */
  ghost predicate Counted(cursor: Cursor, j: nat) {
    j <= 2047 && (!cursor.Exhausted() ==> 2 * j <= cursor.offset && cursor.offset % 2 == 0)
  }

  lemma NoneCounted()
    ensures Counted(NoBlock, 0)
  {
  }

  lemma CountedBound(cursor: Cursor, j: nat)
    requires Counted(cursor, j)
    ensures j <= 2047 && (!cursor.Exhausted() ==> cursor.Block? && j <= 2046 && 2 * j <= cursor.offset)
  {
  }

  lemma CountedNext(cursor: Cursor, j: nat, insn: Insn, x: Effect, cursor': Cursor)
    requires cursor.Block? && j <= 2046 && 2 * j <= cursor.offset && cursor.offset % 2 == 0
    requires cursor' == if x.Falls? then cursor.(offset := cursor.offset + insn.Size()) else NoBlock
    ensures Counted(cursor', j + 1)
  {
  }

  lemma EvenPlace(pc: nat, o: nat)
    requires pc % 2 == 0 && o == pc % PAGE
    ensures o % 2 == 0
  {
    EvenParts(pc, pc / PAGE, o);
  }

  /** The instructions executed since the start at `pc0` in `m0`, and where they lead. */
  ghost predicate Traced(exec: Executor, k0: nat, m0: Machine, pc0: nat, trace: seq<Executed>, m: Machine, pc: nat) {
    && FetchedPlainly(trace) && Chained(exec, k0, trace) && ChainsTo(exec, k0, trace, m, pc)
    && (if trace == [] then m == m0 && pc == pc0 else trace[0].before == m0 && trace[0].pc == pc0)
  }

  lemma TracedFacts(exec: Executor, k0: nat, m0: Machine, pc0: nat, trace: seq<Executed>, m: Machine, pc: nat)
    requires Traced(exec, k0, m0, pc0, trace, m, pc)
    ensures FetchedPlainly(trace) && Chained(exec, k0, trace) && RunsCode(exec, k0, trace)
    ensures trace != [] ==> trace[0].before == m0 && trace[0].pc == pc0
    ensures trace != [] ==> !trace[|trace| - 1].insn.FetchFault?
    ensures LastLeads(exec, k0, trace, pc)
  {
    hide FetchedPlainly, Chained, ChainsTo, RunsCode, LastLeads;
    CodeOfTrace(exec, k0, trace);
    LastCode(exec, k0, trace, m, pc);
  }

  lemma LastCode(exec: Executor, k0: nat, trace: seq<Executed>, m: Machine, pc: nat)
    requires FetchedPlainly(trace) && ChainsTo(exec, k0, trace, m, pc)
    ensures trace != [] ==> !trace[|trace| - 1].insn.FetchFault?
    ensures LastLeads(exec, k0, trace, pc)
  {
    hide PlainFetch, IsCodeAt, Pow2, Machine.Valid, Disjoint, Length;
    if trace != [] {
      var t := trace[|trace| - 1];
      assert IsFetched(t);
      CsrOf(t.before);
      CodeFetched(t.before.csr, t.before.ranges, t.pc);
    }
  }

  /** The bytes of an instruction that translated fetches deliver. */
  lemma CodeFetched(c: Csr, ranges: seq<Range>, pc: nat)
    requires c.Valid() && ValidRanges(ranges) && Disjoint(ranges) && pc % 2 == 0 && pc < Pow2(c.maxXlen)
    requires !PlainFetch(c, ranges, pc).FetchFault?
    ensures var i := PlainFetch(c, ranges, pc); IsCodeAt(c, ranges, pc, i.bits) && i.Size() == Length(i.bits)
  {
    hide *;
    var (low, first) := PlainLoad(c, ranges, Code, pc, 2);
    var next := SecondHalf(c, pc);
    var (high, second) := PlainLoad(c, first, Code, next, 2);
    FetchCases(c, ranges, pc, low, first, high);
    EvenPc(c, pc);
    HalfBytes(c, ranges, pc, low.value, first);
    if IsLong(low.value) {
      FirstTouched(c, ranges, pc);
      HalfBytes(c, first, next, high.value, second);
      SameBytes(c, ranges, pc, second, next, high.value % 256);
      SameBytes(c, ranges, pc, second, next + 1, high.value / 256);
      LongCode(c, ranges, pc, low.value, high.value, first, second);
    } else {
      ShortCode(c, ranges, pc, low.value, first);
    }
  }

  lemma FetchCases(c: Csr, ranges: seq<Range>, pc: nat, low: Outcome, first: seq<Range>, high: Outcome)
    requires PlainLoad(c, ranges, Code, pc, 2) == (low, first)
    requires PlainLoad(c, first, Code, SecondHalf(c, pc), 2).0 == high && !PlainFetch(c, ranges, pc).FetchFault?
    ensures low.Ram? && (IsLong(low.value) ==> high.Ram?)
    ensures PlainFetch(c, ranges, pc) ==
            if IsLong(low.value) then Insn32(low.value + 65536 * high.value) else Insn16(low.value)
  {
    hide PlainLoad, SecondHalf;
  }

  lemma EvenPc(c: Csr, pc: nat)
    requires c.Valid() && pc % 2 == 0 && pc < Pow2(c.maxXlen)
    ensures (pc + 1) % Pow2(c.maxXlen) == pc + 1 && SecondHalf(c, pc) == (pc + 2) % Pow2(c.maxXlen)
    ensures SecondHalf(c, pc) % 2 == 0 && SecondHalf(c, pc) + 1 == (pc + 3) % Pow2(c.maxXlen)
  {
    var top, half := Pow2(c.maxXlen), Pow2(c.maxXlen - 1);
    assert top == 2 * half;
    PageTop(c, pc);
    hide Pow2;
    WrapEven(pc, half, top);
  }

  lemma WrapEven(pc: nat, half: nat, top: nat)
    requires pc % 2 == 0 && top == 2 * half && PageStart(pc) + PAGE <= top
    ensures 0 < top && (pc + 1) % top == pc + 1 && (pc + 2) % top % 2 == 0 && (pc + 2) % top + 1 == (pc + 3) % top
    ensures (if pc % PAGE == PAGE - 2 then (pc + 2) % top else pc + 2) == (pc + 2) % top
  {
    BelowTop(pc, half, top);
    WrapTwo(pc, half, top);
    hide PageStart;
  }

  lemma WrapTwo(pc: nat, half: nat, top: nat)
    requires pc % 2 == 0 && top == 2 * half && pc + 2 <= top && (pc + 2 == top || pc + 3 < top)
    ensures (pc + 1) % top == pc + 1
    ensures (pc + 2) % top == (if pc + 2 == top then 0 else pc + 2) && (pc + 3) % top == (pc + 2) % top + 1
  {
    DivModUnique(pc + 1, top, 0, pc + 1);
    if pc + 2 == top {
      DivModUnique(pc + 2, top, 1, 0);
      DivModUnique(pc + 3, top, 1, 1);
    } else {
      DivModUnique(pc + 2, top, 0, pc + 2);
      DivModUnique(pc + 3, top, 0, pc + 3);
    }
  }

  lemma BelowTop(pc: nat, half: nat, top: nat)
    requires pc % 2 == 0 && top == 2 * half && PageStart(pc) + PAGE <= top
    ensures pc + 2 <= top && (pc + 2 == top || pc + 3 < top) && (pc + 2 == top ==> pc % PAGE == PAGE - 2)
  {
    var h := pc / 2;
    assert pc == 2 * h && pc < top;
  }

  lemma FirstTouched(c: Csr, ranges: seq<Range>, pc: nat)
    requires c.Valid() && ValidRanges(ranges) && Disjoint(ranges)
    ensures var b := Touched(ranges, c, pc, Code); ValidRanges(b) && Disjoint(b)
  {
    TouchedPlaces(ranges, c, pc, Code);
    hide Touched, Disjoint, SamePlacement, ValidRanges;
    DisjointStays(ranges, Touched(ranges, c, pc, Code));
  }

  /** The fetch of the first half changes no translation. */
  lemma SameBytes(c: Csr, ranges: seq<Range>, pc: nat, now: seq<Range>, v: nat, x: nat)
    requires c.Valid() && ValidRanges(ranges) && IsByteAt(c, Touched(ranges, c, pc, Code), now, v, x)
    ensures IsByteAt(c, ranges, now, v, x)
  {
    WalkUpdateIsInvisible(ranges, c, pc, Code, v, Code);
    hide Translate, Touched, Touches, ValidRanges, Csr.Valid;
  }

  lemma ShortCode(c: Csr, ranges: seq<Range>, pc: nat, x: nat, first: seq<Range>)
    requires !IsLong(x) && x < 65536 && first == Touched(ranges, c, pc, Code)
    requires (pc + 1) % Pow2(c.maxXlen) == pc + 1
    requires IsByteAt(c, ranges, first, pc, x % 256) && IsByteAt(c, ranges, first, pc + 1, x / 256)
    ensures IsCodeAt(c, ranges, pc, x) && Insn16(x).Size() == Length(x)
  {
    hide IsByteAt, Touched, Pow2;
    assert x / 256 % 256 == x / 256;
  }

  lemma LongCode(c: Csr, ranges: seq<Range>, pc: nat, x: nat, y: nat, first: seq<Range>, second: seq<Range>)
    requires IsLong(x) && x < 65536 && y < 65536 && first == Touched(ranges, c, pc, Code)
    requires var top := Pow2(c.maxXlen); var v := (pc + 2) % top;
             (pc + 1) % top == pc + 1 && (pc + 3) % top == v + 1 && second == Touched(first, c, v, Code)
    requires IsByteAt(c, ranges, first, pc, x % 256) && IsByteAt(c, ranges, first, pc + 1, x / 256)
    requires var v := (pc + 2) % Pow2(c.maxXlen);
             IsByteAt(c, ranges, second, v, y % 256) && IsByteAt(c, ranges, second, v + 1, y / 256)
    ensures IsCodeAt(c, ranges, pc, x + 65536 * y) && Insn32(x + 65536 * y).Size() == Length(x + 65536 * y)
  {
    WordDigits(x, y);
    hide IsByteAt, Touched, Pow2;
  }

  lemma WordDigits(x: nat, y: nat)
    requires x < 65536 && y < 65536
    ensures var b := x + 65536 * y;
      && b % 4 == x % 4 && b % 256 == x % 256 && b / 256 % 256 == x / 256
      && b / 0x1_0000 % 256 == y % 256 && b / 0x100_0000 % 256 == y / 256 && b < 0x1_0000_0000
  {
    var b := x + 65536 * y;
    DivModUnique(b, 0x1_0000, y, x);
    DivModUnique(b, 0x100_0000, y / 256, x + 65536 * (y % 256));
    DivModUnique(b, 256, x / 256 + 256 * y, x % 256);
    DivModUnique(x / 256 + 256 * y, 256, y, x / 256);
    DivModUnique(b, 4, x / 4 + 16384 * y, x % 4);
  }

  lemma CodeOfTrace(exec: Executor, k0: nat, trace: seq<Executed>)
    requires FetchedPlainly(trace) && Chained(exec, k0, trace)
    ensures RunsCode(exec, k0, trace)
  {
    hide PlainFetch, IsCodeAt, Pow2, Machine.Valid, Disjoint, Length;
    forall k | 0 <= k < |trace|
      ensures !trace[k].insn.FetchFault? &&
              IsCodeAt(trace[k].before.csr, trace[k].before.ranges, trace[k].pc, trace[k].insn.bits) &&
              trace[k].insn.Size() == Length(trace[k].insn.bits)
    {
      assert IsFetched(trace[k]);
      CsrOf(trace[k].before);
      CodeFetched(trace[k].before.csr, trace[k].before.ranges, trace[k].pc);
    }
    hide IsFetched, Insn.Size;
    forall k | 0 < k < |trace| && FallsThrough(exec, k0 + k - 1, trace[k - 1])
      ensures trace[k].pc == (trace[k - 1].pc + Length(trace[k - 1].insn.bits)) % Pow2(trace[k - 1].after.csr.maxXlen)
    {
      assert LeadsTo(exec, k0 + k - 1, trace[k - 1].after, trace[k - 1].pc, trace[k - 1].insn, trace[k].before,
                     trace[k].pc);
    }
  }

  lemma TracedNone(exec: Executor, k0: nat, m: Machine, pc: nat)
    ensures Traced(exec, k0, m, pc, [], m, pc)
  {
  }

  /** One more instruction, and where it leads unless it leaves. */
  lemma TracedNext(exec: Executor, k0: nat, m0: Machine, pc0: nat, trace: seq<Executed>, t: Executed)
    requires Traced(exec, k0, m0, pc0, trace, t.before, t.pc)
    requires IsFetched(t)
    ensures var all := trace + [t];
            && FetchedPlainly(all) && Chained(exec, k0, all) && RunsCode(exec, k0, all)
            && all[0].before == m0 && all[0].pc == pc0
    ensures forall m, pc: nat :: LeadsTo(exec, k0 + |trace|, t.after, t.pc, t.insn, m, pc) ==>
              Traced(exec, k0, m0, pc0, trace + [t], m, pc)
  {
    hide IsFetched, LeadsTo, FetchedPlainly, Chained, RunsCode;
    ExtendTrace(exec, k0, trace, t);
    CodeOfTrace(exec, k0, trace + [t]);
  }

  lemma FetchedNow(k: nat, before: Machine, pc: nat, reach: Reach, insn: Insn, after: Machine)
    requires KeptUnder(k, before, pc, reach) && pc % 2 == 0 && pc < Pow2(before.csr.maxXlen)
    requires insn == PlainFetch(before.csr, before.ranges, pc) && !insn.FetchFault?
    ensures IsFetched(Executed(before, pc, insn, after))
  {
    KeptParts(k, before, pc, reach);
    CoherentDisjoint(before);
    hide PlainFetch, Pow2, KeptUnder, Machine.Valid, Machine.Coherent, Machine.Tracks, Disjoint;
  }

  /** One turn of the loop after the fetch: the instruction is executed and recorded. */
  method Turn(exec: Executor, k0: nat, ghost m0: Machine, ghost pc0: nat, ghost inBlock: nat, ghost reach: Reach,
              before: Machine, m: Machine, pc: nat, cursor: Cursor, insn: Insn, trace: seq<Executed>)
    returns (m': Machine, pc': nat, cursor': Cursor, x: Effect, trace': seq<Executed>)
    requires Traced(exec, k0, m0, pc0, trace, before, pc)
    requires IsFetched(Executed(before, pc, insn, m)) && !insn.FetchFault?
    requires KeptUnder(k0 + |trace|, m, pc, reach) && Sound(exec, reach) && pc % 2 == 0 && pc < Pow2(m.csr.maxXlen)
    requires cursor.Block? && cursor.entry.vaddr == PageStart(pc) && cursor.offset == pc % PAGE
    requires cursor.offset < PAGE - 2 ==> PageAt(m, cursor.entry)
    requires inBlock <= 2046 && 2 * inBlock <= cursor.offset
    ensures trace' == trace + [Executed(before, pc, insn, m)]
    ensures FetchedPlainly(trace') && Chained(exec, k0, trace') && trace'[0].before == m0 && trace'[0].pc == pc0
    ensures RunsCode(exec, k0, trace') && (x.Leaves? ==> LastLeads(exec, k0, trace', pc'))
    ensures KeptUnder(k0 + |trace'|, m', pc', reach)
    ensures !x.Leaves? ==>
              Traced(exec, k0, m0, pc0, trace', m', pc') && InBlock(m', cursor', pc') && Counted(cursor', inBlock + 1)
    ensures !(x.Leaves? && x.traps) ==> pc' % 2 == 0 && pc' < Pow2(m'.csr.maxXlen)
  {
    hide *;
    EvenPlace(pc, cursor.offset);
    TracedNext(exec, k0, m0, pc0, trace, Executed(before, pc, insn, m));
    trace' := trace + [Executed(before, pc, insn, m)];
    m', pc', cursor', x := Execute(m, pc, cursor, insn, k0 + |trace|, exec, reach);
    CountedNext(cursor, inBlock, insn, x, cursor');
    LastLeaves(exec, k0, trace', pc');
  }

  lemma LastLeaves(exec: Executor, k0: nat, trace: seq<Executed>, pc: nat)
    requires trace != [] && !trace[|trace| - 1].insn.FetchFault?
    ensures var t := trace[|trace| - 1];
            exec(k0 + |trace| - 1, t.after, t.pc, t.insn).1.Leaves? ==> LastLeads(exec, k0, trace, pc)
  {
  }

  /** riscv_cpu_interp_x: `n` is the budget, `k0` the number of instructions executed before, and `irq` tells at each
      check whether an interrupt is taken. The counter moves by at least one and passes the budget by at most 2046. */
  method InterpX(m0: Machine, pc0: nat, n: int, k0: nat, exec: Executor, irq: nat -> bool, ghost reach: Reach)
    returns (m: Machine, pc: nat, used: int, stop: Stop, trace: seq<Executed>)
    requires KeptUnder(k0, m0, pc0, reach) && Sound(exec, reach) && FetchKeeps(reach)
    requires pc0 % 2 == 0 && pc0 < Pow2(m0.csr.maxXlen) && n > 0
    ensures 1 <= used <= n + 2046
    ensures stop.Budget? ==> used >= n
    ensures stop.Budget? || (stop.Left? && !stop.traps) ==> pc % 2 == 0 && pc < Pow2(m.csr.maxXlen)
    ensures FetchedPlainly(trace) && Chained(exec, k0, trace)
    ensures RunsCode(exec, k0, trace) && (trace != [] ==> !trace[|trace| - 1].insn.FetchFault?)
    ensures LastLeads(exec, k0, trace, pc)
    ensures trace != [] ==> trace[0].before == m0 && trace[0].pc == pc0
    ensures KeptUnder(k0 + |trace|, m, pc, reach)
  {
    hide *;
    m, pc, trace := m0, pc0, [];
    TracedNone(exec, k0, m, pc);
    TracedFacts(exec, k0, m0, pc0, trace, m, pc);
    // check pending interrupts
    if irq(0) {
      return m, pc, 1, Interrupt, trace;
    }
    var cycles := n + 1;
    var cursor := NoBlock;
    ghost var inBlock := 0;
    NoBlockIn(m, pc);
    NoneCounted();
    while true
      invariant KeptUnder(k0 + |trace|, m, pc, reach) && pc % 2 == 0 && pc < Pow2(m.csr.maxXlen)
      invariant InBlock(m, cursor, pc)
      invariant 2 - inBlock <= cycles <= n + 1 - |trace| && Counted(cursor, inBlock)
      invariant |trace| == 0 ==> cursor == NoBlock && cycles == n + 1
      invariant Traced(exec, k0, m0, pc0, trace, m, pc)
      decreases cycles + 2046
    {
      cycles := cycles - 1;
      CountedBound(cursor, inBlock);
      TracedFacts(exec, k0, m0, pc0, trace, m, pc);
      var insn;
      var before := m;
      if cursor.Exhausted() {
        // the budget is tested only between blocks
        if cycles <= 0 {
          return m, pc, n - cycles, Budget, trace;
        }
        // check pending interrupts
        if irq(|trace|) {
          return m, pc, n - cycles, Interrupt, trace;
        }
        m, cursor, insn := StartBlock(m, pc, k0 + |trace|, reach);
        if insn.FetchFault? {
          return m, pc, n - (cycles - 1), MmuFault, trace;
        }
        inBlock := 0;
      } else {
        insn := InsnAt(m, cursor.entry, cursor.offset);
        FastFetch(m, cursor, pc, k0 + |trace|, reach);
      }
      FetchedNow(k0 + |trace|, before, pc, reach, insn, m);
      var effect;
      m, pc, cursor, effect, trace := Turn(exec, k0, m0, pc0, inBlock, reach, before, m, pc, cursor, insn, trace);
      inBlock := inBlock + 1;
      if effect.Leaves? {
        return m, pc, n - (cycles - 1), Left(effect.traps, effect.powerDown), trace;
      }
    }
  }

  /** riscv_cpu_interp: blocks are run until the budget is used up or the CPU powers down. `irq` tells, call by call and
      check by check, whether an interrupt is taken; `trap` what taking one, or a fault or another exception, does to
      the machine. */
  method Interp(m0: Machine, pc0: nat, n: int, exec: Executor, irq: (nat, nat) -> bool, trap: Trapper,
                ghost reach: Reach)
    returns (m: Machine, pc: nat, used: int, powerDown: bool, executed: nat)
    requires KeptUnder(0, m0, pc0, reach) && Sound(exec, reach) && SoundTrap(trap, reach) && FetchKeeps(reach)
    requires pc0 % 2 == 0 && pc0 < Pow2(m0.csr.maxXlen)
    ensures KeptUnder(executed, m, pc, reach) && pc % 2 == 0 && pc < Pow2(m.csr.maxXlen)
    ensures n <= 0 ==> used == 0
    ensures n > 0 ==> 1 <= used <= n + 2046
    ensures !powerDown ==> used >= n
  {
    hide *;
    m, pc, used, powerDown, executed := m0, pc0, 0, false, 0;
    var calls := 0;
    while !powerDown && n - used > 0
      invariant KeptUnder(executed, m, pc, reach) && pc % 2 == 0 && pc < Pow2(m.csr.maxXlen)
      invariant calls == 0 ==> used == 0 && !powerDown
      invariant n <= 0 ==> calls == 0
      invariant calls > 0 ==> 1 <= used <= n + 2046
      decreases n - used, if powerDown then 0 else 1
    {
      var budget := n - used;
      var delta, stop, trace;
      m, pc, delta, stop, trace := InterpX(m, pc, budget, executed, exec, (i: nat) => irq(calls, i), reach);
      used, executed := used + delta, executed + |trace|;
      if stop.Left? {
        powerDown := stop.powerDown;
      }
      if stop.Interrupt? || stop.MmuFault? || (stop.Left? && stop.traps) {
        var r := trap(executed, m, pc);
        TrapFacts(trap, reach, executed, m, pc);
        m, pc := r.0, r.1;
      }
      calls := calls + 1;
    }
  }

  type Trapper = (nat, Machine, nat) -> (Machine, nat)

  /** Where execution resumes after a trap. */
  ghost predicate SoundTrap(trap: Trapper, reach: Reach) {
    forall k: nat, m: Machine, pc: nat :: KeptUnder(k, m, pc, reach) ==>
      var (m', pc') := trap(k, m, pc); KeptUnder(k, m', pc', reach) && pc' % 2 == 0 && pc' < Pow2(m'.csr.maxXlen)
  }

  lemma TrapFacts(trap: Trapper, reach: Reach, k: nat, m: Machine, pc: nat)
    requires SoundTrap(trap, reach) && KeptUnder(k, m, pc, reach)
    ensures var (m', pc') := trap(k, m, pc);
            KeptUnder(k, m', pc', reach) && pc' % 2 == 0 && pc' < Pow2(m'.csr.maxXlen)
  {
    hide Machine.Valid, Machine.Coherent, Machine.Tracks;
  }

  // ----- a write to mstatus that falls through

  /** The leaf of a code page as the walk finds it, before the checks. */
  function CodeLeaf(m: Machine, v: nat): Leaf {
    FindLeaf(m.ranges, m.csr, v, m.csr.Base(), 0)
  }

  /** Clearing SUM in supervisor mode withdraws user pages from execution. */
  predicate WithdrawsCode(m: Machine, value: Mstatus, v: nat) {
    m.csr.priv == PRV_S && m.csr.mode != 0 && m.csr.sum && !value.sum && CodeLeaf(m, v).Leaf? &&
      UserPte(CodeLeaf(m, v).pte)
  }

  lemma {:induction false} SettingsLeaf(ranges: seq<Range>, c: Csr, c': Csr, v: nat, base: nat, i: nat)
    requires c'.maxXlen == c.maxXlen && c'.mode == c.mode
    ensures FindLeaf(ranges, c', v, base, i) == FindLeaf(ranges, c, v, base, i)
    decreases c.Levels() - i
  {
    hide IsValidPte, Xwr, ReadPte, Pow2, Low, Shr;
    if i < c.Levels() {
      var pte := ReadPte(ranges, EntryAddr(c, v, base, i), c.PteSize());
      SettingsLeaf(ranges, c, c', v, PteTarget(c, pte), i + 1);
    }
  }

  lemma SettingsCode(c: Csr, value: Mstatus, m: Machine)
    requires m.csr == c && m.Valid()
    ensures var c' := SetMstatus(m, value).csr;
      c'.maxXlen == c.maxXlen && c'.mode == c.mode && c'.priv == c.priv && c'.xlen == c.xlen && c'.root == c.root &&
        c'.sum == value.sum
  {
    hide FlushAll, Machine.Valid;
  }

  /** The write goes on in the block it is in although the TLBs may have been flushed. The next fetch of a translated
      code page would still be allowed exactly when the write does not clear SUM in supervisor mode on a user page. */
  lemma MstatusKeepsCodeIff(m: Machine, value: Mstatus, v: nat)
    requires m.Valid() && Translate(m.ranges, m.csr, v, Code).To?
    ensures var c' := SetMstatus(m, value).csr;
      Translate(m.ranges, c', v, Code) == Translate(m.ranges, m.csr, v, Code) <==> !WithdrawsCode(m, value, v)
  {
    var c, c' := m.csr, SetMstatus(m, value).csr;
    hide Machine.Valid, SetMstatus, Translate, FindLeaf, UserPte;
    SettingsCode(c, value, m);
    CodeIff(m.ranges, c, c', v);
  }

  lemma TranslateCases(ranges: seq<Range>, c: Csr, v: nat, l: Leaf)
    requires l == FindLeaf(ranges, c, v, c.Base(), 0)
    ensures l.Leaf? ==> l.level < c.Levels()
    ensures Translate(ranges, c, v, Code) ==
            if Bare(c, Code) then To(BareAddr(c, v, Code))
            else if !Canonical(c, v) || l.NoLeaf? || !Permits(c, l.pte, Code) then PageFault
            else To(LeafTarget(c, v, l.pte, l.level))
  {
    hide FindLeaf, Permits, IsValidPte, Xwr, LeafTarget, Canonical, Bare, BareAddr, Csr.Base, Csr.Levels;
    LeafLevel(ranges, c, v, c.Base(), 0);
  }

  lemma CodeIff(ranges: seq<Range>, c: Csr, c': Csr, v: nat)
    requires c'.maxXlen == c.maxXlen && c'.mode == c.mode && c'.priv == c.priv && c'.xlen == c.xlen && c'.root == c.root
    requires Translate(ranges, c, v, Code).To?
    ensures var l := FindLeaf(ranges, c, v, c.Base(), 0);
      Translate(ranges, c', v, Code) == Translate(ranges, c, v, Code) <==>
      !(c.priv == PRV_S && c.mode != 0 && c.sum && !c'.sum && l.Leaf? && UserPte(l.pte))
  {
    hide Translate, FindLeaf, Permits, UserPte, LeafTarget, Canonical, Bare, BareAddr, Csr.Base, Csr.Levels;
    CodeSettings(c, c', v);
    SettingsLeaf(ranges, c, c', v, c.Base(), 0);
    var l := FindLeaf(ranges, c, v, c.Base(), 0);
    TranslateCases(ranges, c, v, l);
    TranslateCases(ranges, c', v, l);
    if l.Leaf? && !Bare(c, Code) {
      CodeTarget(c, c', v, l.pte, l.level);
      CodePermission(c, c', l.pte);
    }
  }

  lemma CodeSettings(c: Csr, c': Csr, v: nat)
    requires c'.maxXlen == c.maxXlen && c'.mode == c.mode && c'.priv == c.priv && c'.xlen == c.xlen && c'.root == c.root
    ensures Bare(c', Code) == Bare(c, Code) && BareAddr(c', v, Code) == BareAddr(c, v, Code)
    ensures Bare(c, Code) <==> c.priv == PRV_M || c.mode == 0
    ensures Canonical(c', v) == Canonical(c, v) && c'.Base() == c.Base()
  {
    hide Pow2, Low;
  }

  lemma CodeTarget(c: Csr, c': Csr, v: nat, pte: nat, i: nat)
    requires c'.maxXlen == c.maxXlen && c'.mode == c.mode && i < c.Levels()
    ensures c'.Levels() == c.Levels() && LeafTarget(c', v, pte, i) == LeafTarget(c, v, pte, i)
  {
    hide Pow2, Low, Shl, Shr;
  }

  lemma CodePermission(c: Csr, c': Csr, pte: nat)
    requires c'.priv == c.priv && c.priv != PRV_M
    ensures Permits(c, pte, Code) ==> (Permits(c', pte, Code) <==> !(c.priv == PRV_S && UserPte(pte) && !c'.sum))
    ensures Permits(c, pte, Code) && c.priv == PRV_S && UserPte(pte) ==> c.sum
  {
    hide Xwr, UserPte;
  }
}
