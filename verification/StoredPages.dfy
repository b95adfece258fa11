/** No store is lost to dirty tracking (iomem.c, riscv_cpu.c), told by the operations of a run: a page that one of them
    stores to is in the next bitmap collected. */
module StoredPages {
  import opened PhysMemory
  import opened PageWalk
  import opened Tlb
  import opened MachineRuns
  import StoreMeaning

  /** A physical address is in a page of a RAM range. */
  predicate InPageOf(ranges: seq<Range>, p: nat, r: nat, page: nat) {
    && r < |ranges| && ranges[r].isRam && p < ranges[r].addr + ranges[r].size
    && ranges[r].addr + 4096 * page <= p < ranges[r].addr + 4096 * page + 4096
  }

  /** The operation stores to the page: a store of the CPU where its address is translated to, one of a device where it
      says. */
  predicate StoresTo(m: Machine, op: Op, r: nat, page: nat)
    requires m.Valid() && Called(m, op)
  {
    match op
    case StoreOp(v, bytes) =>
      var t := Translate(m.ranges, m.csr, v, Write);
      Seen(m, op).Ram? && t.To? && InPageOf(m.ranges, t.paddr, r, page)
    case HostOp(paddr, bytes) => InPageOf(m.ranges, paddr, r, page)
    case _ => false
  }

  /** The operation collects the bitmap of the range or cleans the page. */
  predicate Cleans(op: Op, r: nat, page: nat) {
    op == CollectOp(r) || op == ResetOp(r, page)
  }

  lemma OnlyThere(ranges: seq<Range>, p: nat, r: nat, page: nat)
    requires Disjoint(ranges) && InPageOf(ranges, p, r, page)
    ensures IsRamAt(ranges, p) && RangeAt(ranges, p) == r && (p - ranges[r].addr) / PAGE == page
  {
    assert ranges[r].Covers(p);
  }

  lemma StoreRecords(m: Machine, v: nat, bytes: seq<Byte>, r: nat, page: nat)
    requires m.Valid() && m.Tracks() && m.Coherent() && Called(m, StoreOp(v, bytes))
    requires StoresTo(m, StoreOp(v, bytes), r, page)
    ensures var s := Store(m, v, bytes).1.stored; r < |s| && page in s[r]
  {
    hide *;
    EntriesLength(m, Write);
    StoredHere(m, v, bytes, r, page);
    OnlyThere(m.ranges, Translate(m.ranges, m.csr, v, Write).paddr, r, page);
    if Hit(m, Write, v, |bytes|) {
      HitRecords(m, v, bytes);
    } else {
      MissRecords(m, v, bytes);
    }
  }

  lemma StoredHere(m: Machine, v: nat, bytes: seq<Byte>, r: nat, page: nat)
    requires m.Valid() && m.Coherent() && Called(m, StoreOp(v, bytes)) && StoresTo(m, StoreOp(v, bytes), r, page)
    ensures |m.Entries(Write)| == |m.write| == TLB_SIZE && |bytes| > 0 && IsSize(|bytes|)
    ensures Disjoint(m.ranges) && Store(m, v, bytes).0.Ram?
    ensures var t := Translate(m.ranges, m.csr, v, Write); t.To? && InPageOf(m.ranges, t.paddr, r, page)
  {
    EntriesLength(m, Write);
    CoherentDisjoint(m);
    hide Translate, Machine.Valid, Machine.Coherent, Store, InPageOf, Disjoint;
  }

  lemma HitRecords(m: Machine, v: nat, bytes: seq<Byte>)
    requires m.Valid() && m.Tracks() && m.Coherent() && IsSize(|bytes|) && Hit(m, Write, v, |bytes|)
    ensures var t := Translate(m.ranges, m.csr, v, Write); var s := Store(m, v, bytes).1.stored;
            t.To? && var r := RangeAt(m.ranges, t.paddr);
                     r < |m.ranges| && r < |s| && (t.paddr - m.ranges[r].addr) / PAGE in s[r]
  {
    CsrOf(m);
    HitReached(m, v, |bytes|);
    EntriesLength(m, Write);
    hide Translate, Machine.Valid, Machine.Tracks, Machine.Coherent, Hit, Slot, RangeAt, Reached, WriteAt;
    var e := m.write[Slot(v)];
    PageOfOffset(e.page, v);
  }

  lemma PageOfOffset(page: nat, v: nat)
    ensures (page * PAGE + v % PAGE) / PAGE == page
  {
  }

  lemma MissRecords(m: Machine, v: nat, bytes: seq<Byte>)
    requires m.Valid() && m.Coherent() && IsSize(|bytes|) && !Hit(m, Write, v, |bytes|)
    requires Store(m, v, bytes).0.Ram?
    ensures var t := Translate(m.ranges, m.csr, v, Write); var s := Store(m, v, bytes).1.stored;
            t.To? && var r := RangeAt(m.ranges, t.paddr);
                     r < |m.ranges| && r < |s| && (t.paddr - m.ranges[r].addr) / PAGE in s[r]
  {
    CsrOf(m);
    EntriesLength(m, Write);
    var t, b := Translate(m.ranges, m.csr, v, Write), Reached(m.csr, m.ranges, Write, v);
    ReachedKeeps(m.csr, m.ranges, Write, v);
    KeptValid(m.ranges, b);
    CoherentDisjoint(m);
    hide Translate, Machine.Valid, Machine.Coherent, Hit, Slot, Disjoint, RangeAt, Reached, WriteAt, ValidRanges,
         NewEntry, StoreMeaning.InRam;
    if t.To? {
      StoreMeaning.PlacedAlike(m.ranges, b, t.paddr);
      MissMoves(m, v);
    }
  }

  /** The slow path changes memory and the TLB entry only. */
  lemma MissMoves(m: Machine, v: nat)
    requires |m.write| == TLB_SIZE
    ensures Refill(m, Write, v).stored == m.stored
    ensures Refill(m, Write, v).ranges == Reached(m.csr, m.ranges, Write, v)
  {
    hide Translate, Reached, RangeAt, NewEntry;
  }

  lemma HostRecords(m: Machine, paddr: nat, bytes: seq<Byte>, r: nat, page: nat)
    requires m.Valid() && m.Coherent() && Called(m, HostOp(paddr, bytes))
    requires InPageOf(m.ranges, paddr, r, page)
    ensures var s := HostWrite(m, paddr, bytes).stored; r < |s| && page in s[r]
  {
    CsrOf(m);
    OnlyThere(m.ranges, paddr, r, page);
    hide Machine.Valid, Disjoint, RangeAt;
  }

  lemma AccessRemembers(m: Machine, access: Access, v: nat, size: nat, bytes: seq<Byte>, r: nat, page: nat)
    requires m.Valid() && r < |m.stored| && page in m.stored[r] && size > 0 && |bytes| > 0
    ensures |m.Entries(access)| == |m.write| == TLB_SIZE && Load(m, access, v, size).1.stored == m.stored
    ensures var s := Store(m, v, bytes).1.stored; r < |s| && page in s[r]
  {
    EntriesLength(m, access);
    EntriesLength(m, Write);
    LoadRemembers(m, access, v, size);
    StoreRemembers(m, v, bytes, r, page);
    hide Machine.Valid, Load, Store;
  }

  lemma RefillRemembers(m: Machine, access: Access, v: nat)
    requires |m.Entries(access)| == TLB_SIZE
    ensures Refill(m, access, v).stored == m.stored
  {
    hide Translate, Reached, RangeAt, NewEntry, Slot;
  }

  lemma LoadRemembers(m: Machine, access: Access, v: nat, size: nat)
    requires |m.Entries(access)| == TLB_SIZE && size > 0
    ensures Load(m, access, v, size).1.stored == m.stored
  {
    RefillRemembers(m, access, v);
    hide Translate, Hit, Slot, RangeAt, Refill, LoadAt;
  }

  lemma StoreRemembers(m: Machine, v: nat, bytes: seq<Byte>, r: nat, page: nat)
    requires |m.write| == TLB_SIZE && |bytes| > 0 && r < |m.stored| && page in m.stored[r]
    ensures var s := Store(m, v, bytes).1.stored; r < |s| && page in s[r]
  {
    RefillRemembers(m, Write, v);
    hide Translate, Hit, Slot, RangeAt, Refill, WriteAt;
  }

  lemma SettingsRemember(m: Machine, op: Op)
    requires m.Valid() && Called(m, op)
    requires op.MstatusOp? || op.SatpOp? || op.TrapOp? || op.SretOp? || op.MretOp? || op.FenceOp?
    ensures Step(m, op).stored == m.stored
  {
    hide Machine.Valid;
  }

  lemma RangesRemember(m: Machine, op: Op, r: nat, page: nat)
    requires m.Valid() && Called(m, op) && r < |m.stored| && page in m.stored[r] && !Cleans(op, r, page)
    requires op.CollectOp? || op.ResetOp? || op.MoveOp? || op.HostOp?
    ensures var s := Step(m, op).stored; r < |s| && page in s[r]
  {
    hide RangeAt, WriteAt, Swapped, ClearPageBit, SetDirty, FlushWriteRange;
    FlushesForget();
  }

  lemma FlushesForget()
    ensures forall m: Machine, r, lo, hi: nat {:trigger FlushWriteRange(m, r, lo, hi)} ::
              FlushWriteRange(m, r, lo, hi).stored == m.stored
  {
  }

  lemma StepRemembers(m: Machine, op: Op, r: nat, page: nat)
    requires m.Valid() && Called(m, op) && r < |m.stored| && page in m.stored[r] && !Cleans(op, r, page)
    ensures var s := Step(m, op).stored; r < |s| && page in s[r]
  {
    hide Machine.Valid, Load, Store, Cleans;
    match op
    case LoadOp(access, v, size) => AccessRemembers(m, access, v, size, [0], r, page);
    case StoreOp(v, bytes) => AccessRemembers(m, Write, v, 1, bytes, r, page);
    case CollectOp(_) => RangesRemember(m, op, r, page);
    case ResetOp(_, _) => RangesRemember(m, op, r, page);
    case MoveOp(_, _, _) => RangesRemember(m, op, r, page);
    case HostOp(_, _) => RangesRemember(m, op, r, page);
    case _ => SettingsRemember(m, op);
  }

  lemma {:induction false} RunRemembers(m: Machine, ops: seq<Op>, r: nat, page: nat)
    requires m.Valid() && m.Tracks() && Runs(m, ops) && r < |m.stored| && page in m.stored[r]
    requires forall k :: 0 <= k < |ops| ==> !Cleans(ops[k], r, page)
    ensures var s := Run(m, ops).stored; r < |s| && page in s[r]
    decreases |ops|
  {
    hide Machine.Valid, Machine.Tracks, Step, Called, Cleans;
    if ops != [] {
      StepKeeps(m, ops[0]);
      StepRemembers(m, ops[0], r, page);
      RunRemembers(Step(m, ops[0]), ops[1..], r, page);
    }
  }

  /** Whatever follows a store, as long as neither the bitmap is collected nor the page cleaned: the next bitmap
      collected holds its page. */
  lemma StoreIsCollected(m: Machine, ops: seq<Op>, r: nat, page: nat)
    requires m.Valid() && m.Tracks() && m.Coherent() && Runs(m, ops) && ops != [] && StoresTo(m, ops[0], r, page)
    requires forall k :: 0 < k < |ops| ==> !Cleans(ops[k], r, page)
    ensures var m' := Run(m, ops);
            r < |m'.ranges| && (m'.ranges[r].tracked ==> PageBit(GetDirtyBits(m', r).0, page))
  {
    StepKeeps(m, ops[0]);
    if ops[0].StoreOp? {
      StoreRecords(m, ops[0].vaddr, ops[0].bytes, r, page);
    } else {
      HostRecords(m, ops[0].paddr, ops[0].bytes, r, page);
    }
    RunRemembers(Step(m, ops[0]), ops[1..], r, page);
    var m' := Run(m, ops);
    CsrOf(m');
    if m'.ranges[r].tracked { RunCollects(m, ops, r, page); }
  }
}
