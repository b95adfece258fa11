/** Which instructions the interpreter's loop may run: those made of the operations of the machine, as long as they meet
    the hypotheses under which the TLBs stay coherent, and do not take their own code page away. */
module InterpSteps {
  import opened Powers
  import opened PhysMemory
  import opened PageWalk
  import opened Tlb
  import opened MachineRuns
  import opened InterpLoop

  /** A write misses the table entries that the page of `pc` is translated with. */
  ghost predicate SparesPath(m: Machine, pc: nat, p: Place, len: nat) {
    p.At? ==> AvoidsPath(m.ranges, m.csr, PageStart(pc), m.csr.Base(), 0, p.range, p.offset, len)
  }

  /** The operations after which the loop goes on in the same block, and what they owe to the page they run on. */
  ghost predicate SparesCode(m: Machine, op: Op, pc: nat)
    requires m.Valid() && Called(m, op)
  {
    match op
    case LoadOp(_, _, _) => true
    case StoreOp(vaddr, bytes) => SparesPath(StoreMachine(m, vaddr, |bytes|), pc, StorePlace(m, vaddr, |bytes|),
                                             |bytes|)
    case HostOp(paddr, bytes) => SparesPath(HostPointer(m, paddr).1, pc, HostPointer(m, paddr).0, |bytes|)
    case MstatusOp(v) => !WithdrawsCode(m, v, PageStart(pc))
    case FenceOp => true
    case _ => false
  }

  // ----- one operation

  lemma KeptPage(m: Machine, b: seq<Range>, e: Entry)
    requires PageAt(m, e) && ValidRanges(m.ranges) && Keeps(m.ranges, b) && SameWalk(m.csr, m.ranges, b, Code, e.vaddr)
    ensures PageAt(m.(ranges := b), e)
  {
    KeptAgrees(m, b, Code, e);
    hide SameWalk, Touches, Translate;
    assert SamePlace(m.ranges[e.range], b[e.range]) && m.ranges[e.range].Valid() && b[e.range].Valid();
  }

  /** Only the registers, the entries or the history differ. */
  lemma SamePage(m: Machine, m': Machine, e: Entry)
    requires PageAt(m, e) && m'.csr == m.csr && m'.ranges == m.ranges
    ensures PageAt(m', e)
  {
    hide Translate, Touches, RangeAt;
  }

  lemma RefillPage(m: Machine, access: Access, vaddr: nat, e: Entry)
    requires m.Valid() && PageAt(m, e) && |m.Entries(access)| == TLB_SIZE
    ensures PageAt(Refill(m, access, vaddr), e)
  {
    CsrOf(m);
    ReachedKeeps(m.csr, m.ranges, access, vaddr);
    ReachedSameWalk(m.csr, m.ranges, access, vaddr, Code, e.vaddr);
    var b := Reached(m.csr, m.ranges, access, vaddr);
    KeptPage(m, b, e);
    hide PageAt, Reached, Translate, RangeAt, NewEntry, Slot;
    SamePage(m.(ranges := b), Refill(m, access, vaddr), e);
  }

  lemma WrittenPage(m: Machine, e: Entry, r: nat, o: nat, bytes: seq<Byte>)
    requires m.Valid() && PageAt(m, e) && r < |m.ranges| && o + |bytes| <= |m.ranges[r].mem|
    requires AvoidsPath(m.ranges, m.csr, e.vaddr, m.csr.Base(), 0, r, o, |bytes|)
    ensures PageAt(Written(m, r, o, bytes), e)
  {
    CsrOf(m);
    WriteAtKeeps(m.ranges, r, o, bytes);
    AvoidingAgrees(m.ranges, m.csr, e.vaddr, m.csr.Base(), 0, r, o, bytes);
    var b := WriteAt(m.ranges, r, o, bytes);
    AgreeingTranslation(m.ranges, b, m.csr, e.vaddr, Code);
    hide PageAt, WriteAt, PathAgrees, AvoidsPath, Translate, Touches, Keeps, Machine.Valid, Csr.Valid, ValidRanges;
    assert SameWalk(m.csr, m.ranges, b, Code, e.vaddr);
    KeptPage(m, b, e);
    SamePage(m.(ranges := b), Written(m, r, o, bytes), e);
  }

  lemma LoadPage(m: Machine, access: Access, vaddr: nat, size: nat, e: Entry)
    requires m.Valid() && size > 0 && PageAt(m, e)
    ensures PageAt(Load(m, access, vaddr, size).1, e)
  {
    EntriesLength(m, access);
    RefillPage(m, access, vaddr, e);
    hide PageAt, Translate, RangeAt, Refill, Hit, LoadAt, Slot;
  }

  lemma StoreMachinePage(m: Machine, vaddr: nat, size: nat, e: Entry)
    requires m.Valid() && size > 0 && PageAt(m, e)
    ensures |m.write| == TLB_SIZE && PageAt(StoreMachine(m, vaddr, size), e) && StoreMachine(m, vaddr, size).Valid()
  {
    EntriesLength(m, Write);
    RefillPage(m, Write, vaddr, e);
    RefillTracks(m, Write, vaddr);
    hide PageAt, Refill, Hit, Machine.Valid;
  }

  lemma StorePage(m: Machine, vaddr: nat, bytes: seq<Byte>, pc: nat, e: Entry)
    requires m.Valid() && IsSize(|bytes|) && vaddr % |bytes| == 0 && PageAt(m, e) && e.vaddr == PageStart(pc)
    requires |m.write| == TLB_SIZE
    requires SparesPath(StoreMachine(m, vaddr, |bytes|), pc, StorePlace(m, vaddr, |bytes|), |bytes|)
    ensures PageAt(Store(m, vaddr, bytes).1, e)
  {
    StoreIsWrite(m, vaddr, bytes);
    StoreMachinePage(m, vaddr, |bytes|, e);
    var p, m1 := StorePlace(m, vaddr, |bytes|), StoreMachine(m, vaddr, |bytes|);
    RefillPage(m, Write, vaddr, e);
    hide PageAt, Store, StorePlace, Written, Hit, Refill, AvoidsPath, Machine.Valid, PageStart;
    if p.At? { WrittenPage(m1, e, p.range, p.offset, bytes); }
  }

  lemma HostPage(m: Machine, paddr: nat, bytes: seq<Byte>, pc: nat, e: Entry)
    requires m.Valid() && paddr % PAGE + |bytes| <= PAGE && PageAt(m, e) && e.vaddr == PageStart(pc)
    requires SparesPath(HostPointer(m, paddr).1, pc, HostPointer(m, paddr).0, |bytes|)
    ensures PageAt(HostWrite(m, paddr, bytes), e)
  {
    HostPointerKeeps(m, paddr, |bytes|);
    PointerPage(m, paddr, e);
    var (p, m') := HostPointer(m, paddr);
    hide PageAt, HostPointer, Written, AvoidsPath, Machine.Valid, PageStart;
    if p.At? { WrittenPage(m', e, p.range, p.offset, bytes); }
  }

  lemma PointerPage(m: Machine, paddr: nat, e: Entry)
    requires m.Valid() && PageAt(m, e)
    ensures PageAt(HostPointer(m, paddr).1, e)
  {
    CsrOf(m);
    hide *;
    var b := HostPointer(m, paddr).1.ranges;
    PointerRanges(m, paddr);
    if b != m.ranges {
      MarkSameWalk(m.csr, m.ranges, b, Code, e.vaddr);
      KeptPage(m, b, e);
    }
  }

  /** The pointer marks a page at most. */
  lemma PointerRanges(m: Machine, paddr: nat)
    requires ValidRanges(m.ranges)
    ensures var b := HostPointer(m, paddr).1.ranges;
      && HostPointer(m, paddr).1 == m.(ranges := b) && (b == m.ranges ==> m == m.(ranges := b))
      && (b != m.ranges ==> Keeps(m.ranges, b) && SameMemory(m.ranges, b))
  {
    if IsRamAt(m.ranges, paddr) {
      MarkRamKeeps(m.ranges, paddr);
      MarkRamSame(m.ranges, paddr);
    }
    hide ValidRanges, Keeps, SameMemory, MarkAt;
  }

  lemma FencePage(m: Machine, e: Entry)
    requires PageAt(m, e)
    ensures PageAt(FlushAll(m), e)
  {
    hide PageAt;
    SamePage(m, FlushAll(m), e);
  }

  /** A code page that is not withdrawn needs no more bits set than before. */
  lemma MstatusTouches(m: Machine, v: Mstatus, a: nat)
    requires m.Valid() && Translate(m.ranges, m.csr, a, Code).To? && !Touches(m.ranges, m.csr, a, Code)
    ensures !Touches(m.ranges, SetMstatus(m, v).csr, a, Code)
  {
    var c, c' := m.csr, SetMstatus(m, v).csr;
    SettingsCode(c, v, m);
    hide Machine.Valid, SetMstatus, FindLeaf, Permits, LeafTarget;
    CodeSettings(c, c', a);
    SettingsLeaf(m.ranges, c, c', a, c.Base(), 0);
    LeafLevel(m.ranges, c, a, c.Base(), 0);
  }

  lemma MstatusPage(m: Machine, v: Mstatus, pc: nat, e: Entry)
    requires m.Valid() && v.Valid() && PageAt(m, e) && e.vaddr == PageStart(pc) && !WithdrawsCode(m, v, PageStart(pc))
    ensures PageAt(SetMstatus(m, v), e)
  {
    MstatusKeepsCodeIff(m, v, e.vaddr);
    MstatusTouches(m, v, e.vaddr);
    var m' := SetMstatus(m, v);
    assert m'.ranges == m.ranges by { hide FlushAll; FlushesKeep(); }
    hide SetMstatus, Translate, Touches, RangeAt, WithdrawsCode;
  }

  /** The page an operation runs on stays where it is. */
  lemma OpKeepsCode(m: Machine, op: Op, pc: nat)
    requires m.Valid() && Called(m, op) && SparesCode(m, op, pc)
    ensures KeepsCode(m, Step(m, op), pc)
  {
    EntriesLength(m, Write);
    hide PageAt, Machine.Valid, Load, Store, SetMstatus, FlushAll, HostWrite, WithdrawsCode, SparesPath, HostPointer,
         StorePlace, StoreMachine, PageStart;
    forall e: Entry | e.vaddr == PageStart(pc) && PageAt(m, e) ensures PageAt(Step(m, op), e) {
      match op
      case LoadOp(access, vaddr, size) => LoadPage(m, access, vaddr, size, e);
      case StoreOp(vaddr, bytes) => StorePage(m, vaddr, bytes, pc, e);
      case HostOp(paddr, bytes) => HostPage(m, paddr, bytes, pc, e);
      case MstatusOp(v) => MstatusPage(m, v, pc, e);
      case FenceOp => FencePage(m, e);
      case _ =>
    }
  }

  // ----- an instruction

  ghost predicate RunSparesCode(m: Machine, ops: seq<Op>, pc: nat)
    requires m.Valid() && m.Tracks() && Runs(m, ops)
    decreases |ops|
  {
    ops == [] || (SparesCode(m, ops[0], pc) && (StepKeeps(m, ops[0]); RunSparesCode(Step(m, ops[0]), ops[1..], pc)))
  }

  lemma {:induction false} RunKeepsCode(m: Machine, ops: seq<Op>, pc: nat)
    requires m.Valid() && m.Tracks() && Runs(m, ops) && RunSparesCode(m, ops, pc)
    ensures KeepsCode(m, Run(m, ops), pc)
    decreases |ops|
  {
    hide Machine.Valid, Machine.Tracks, Step, Called, SparesCode, PageAt, PageStart;
    if ops != [] {
      StepKeeps(m, ops[0]);
      OpKeepsCode(m, ops[0], pc);
      RunKeepsCode(Step(m, ops[0]), ops[1..], pc);
    }
  }

  lemma StepKeepsWidth(m: Machine, op: Op)
    requires m.Valid() && Called(m, op)
    ensures Step(m, op).csr.maxXlen == m.csr.maxXlen
  {
    FlushesKeep();
    if op.CollectOp? || op.ResetOp? || op.MoveOp? { PlacesKeepWidth(m, op); }
    hide Machine.Valid, FlushAll, Pow2, Translate, RangeAt, Reached, NewEntry, LoadAt, WriteAt, Hit, MarkAt,
         GetDirtyBits, ResetDirtyBit, SetAddr, Slot, PageStart;
  }

  lemma PlacesKeepWidth(m: Machine, op: Op)
    requires m.Valid() && Called(m, op) && (op.CollectOp? || op.ResetOp? || op.MoveOp?)
    ensures Step(m, op).csr.maxXlen == m.csr.maxXlen
  {
    forall r: nat, lo: nat, hi: nat, w: Machine ensures FlushWriteRange(w, r, lo, hi).csr == w.csr {
      FlushFields(w, r, lo, hi);
    }
    hide Machine.Valid, FlushWriteRange, AnyWord, Swapped, ClearPageBit;
  }

  lemma {:induction false} RunKeepsWidth(m: Machine, ops: seq<Op>)
    requires m.Valid() && m.Tracks() && Runs(m, ops)
    ensures Run(m, ops).csr.maxXlen == m.csr.maxXlen
    decreases |ops|
  {
    hide Machine.Valid, Machine.Tracks, Step, Called;
    if ops != [] {
      StepKeeps(m, ops[0]);
      StepKeepsWidth(m, ops[0]);
      RunKeepsWidth(Step(m, ops[0]), ops[1..]);
    }
  }

  /** What an instruction does: the operations of the machine, in order, and how it ends. */
  datatype Action = Action(ops: seq<Op>, effect: Effect)

  type Decoder = (nat, Machine, nat, Insn) -> Action

  /** Wherever the run gets to, the instruction there is made of operations that are called as they must be, meet the
      hypotheses of coherence and, where the block goes on, spare the page they run on. */
  ghost predicate Legal(d: Decoder, reach: Reach) {
    forall k: nat, m: Machine, pc: nat, i: Insn :: KeptUnder(k, m, pc, reach) ==>
      LegalAction(k, m, pc, i, d(k, m, pc, i), reach)
  }

  ghost predicate LegalAction(k: nat, m: Machine, pc: nat, i: Insn, a: Action, reach: Reach)
    requires m.Valid() && m.Tracks()
  {
    && Runs(m, a.ops) && RunAssumed(m, a.ops) && reach(k + 1, Run(m, a.ops), NextPc(m, pc, i, a.effect))
    && match a.effect
       case Falls => RunSparesCode(m, a.ops, pc)
       case Jumps(t) => t % 2 == 0 && t < Pow2(m.csr.maxXlen)
       case Leaves(t, traps, _) => traps || (t % 2 == 0 && t < Pow2(m.csr.maxXlen))
  }

  ghost predicate Executes(exec: Executor, d: Decoder, reach: Reach)
    requires Legal(d, reach)
  {
    forall k: nat, m: Machine, pc: nat, i: Insn :: KeptUnder(k, m, pc, reach) ==>
      && LegalAction(k, m, pc, i, d(k, m, pc, i), reach)
      && exec(k, m, pc, i) == (Run(m, d(k, m, pc, i).ops), d(k, m, pc, i).effect)
  }

  lemma ActionIsSound(k: nat, m: Machine, pc: nat, i: Insn, a: Action, reach: Reach)
    requires KeptUnder(k, m, pc, reach) && LegalAction(k, m, pc, i, a, reach)
    ensures KeptUnder(k + 1, Run(m, a.ops), NextPc(m, pc, i, a.effect), reach)
    ensures Run(m, a.ops).csr.maxXlen == m.csr.maxXlen
    ensures a.effect.Falls? ==> KeepsCode(m, Run(m, a.ops), pc)
    ensures a.effect.Jumps? ==> a.effect.target % 2 == 0 && a.effect.target < Pow2(m.csr.maxXlen)
    ensures a.effect.Leaves? && !a.effect.traps ==> a.effect.pc % 2 == 0 && a.effect.pc < Pow2(m.csr.maxXlen)
  {
    RunCoherent(m, a.ops);
    RunKeepsWidth(m, a.ops);
    if a.effect.Falls? { RunKeepsCode(m, a.ops, pc); }
    hide Machine.Valid, Machine.Tracks, Machine.Coherent, Runs, RunAssumed, RunSparesCode, Run, KeepsCode, Pow2;
  }

  /** What the interpreter's loop asks of its instructions holds of all instructions made of such operations. */
  lemma StepsAreSound(exec: Executor, d: Decoder, reach: Reach)
    requires Legal(d, reach) && Executes(exec, d, reach)
    ensures Sound(exec, reach)
  {
    hide Machine.Valid, Machine.Tracks, Machine.Coherent, LegalAction, Run, KeepsCode, Pow2, Legal, NextPc;
    forall k: nat, m: Machine, pc: nat, i: Insn | KeptUnder(k, m, pc, reach) ensures SoundAt(exec, reach, k, m, pc, i) {
      ActionIsSound(k, m, pc, i, d(k, m, pc, i), reach);
    }
  }

  // ----- the way out of the loop

  /** The run gets only to settings that a trap does not take back without a flush, and a trap leads to where it gets
      next: the trap vector. */
  ghost predicate Vectors(trap: Trapper, delegated: Machine -> bool, vector: Machine -> nat, reach: Reach) {
    forall k: nat, m: Machine, pc: nat :: KeptUnder(k, m, pc, reach) ==>
      && TrapKeepsView(m.csr) && vector(m) % 2 == 0 && vector(m) < Pow2(m.csr.maxXlen)
      && trap(k, m, pc) == (Trap(m, delegated(m)), vector(m)) && reach(k, Trap(m, delegated(m)), vector(m))
  }

  lemma TrapSettings(m: Machine, delegated: bool)
    ensures Trap(m, delegated).csr.maxXlen == m.csr.maxXlen && Trap(m, delegated).csr.mprv == m.csr.mprv
  {
    FlushesKeep();
    hide FlushAll, Pow2;
  }

  /** What the loop asks of the way out holds of the machine's traps, in runs that do not get to the settings for which
      a trap leaves stale entries. */
  lemma TrapsAreSound(trap: Trapper, delegated: Machine -> bool, vector: Machine -> nat, reach: Reach)
    requires Vectors(trap, delegated, vector, reach)
    ensures SoundTrap(trap, reach)
  {
    hide Machine.Valid, Machine.Tracks, Machine.Coherent, Pow2, Trap, TrapKeepsView;
    forall k: nat, m: Machine, pc: nat | KeptUnder(k, m, pc, reach)
      ensures var (m', pc') := trap(k, m, pc);
              KeptUnder(k, m', pc', reach) && pc' % 2 == 0 && pc' < Pow2(m'.csr.maxXlen)
    {
      TrapKeeps(m, delegated(m));
      TrapSettings(m, delegated(m));
    }
  }
}
