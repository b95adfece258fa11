/** The CPU's memory side as an object (riscv_cpu.c, riscv_cpu_priv.h): its methods carry out the steps of MachineRuns
    on TLB arrays, registers and memory. */
module Cpu {
  import opened Powers
  import opened PhysMemory
  import opened PageWalk
  import opened Tlb
  import opened MachineRuns

  // ----- misaligned accesses

  /** target_read_u* at any address: a misaligned read joins two aligned ones, or two bytes. */
  function LoadAny(m: Machine, vaddr: nat, size: nat): (Outcome, Machine)
    requires m.Valid() && IsSize(size)
  {
    var al := vaddr % size;
    if al == 0 then Load(m, Read, vaddr, size)
    else
      var first := if size == 2 then vaddr else vaddr - al;
      var width := if size == 2 then 1 else size;
      var (x, m1) := Load(m, Read, first, width);
      LoadKeeps(m, Read, first, width);
      if x.AccessFault? then (x, m1)
      else
        var (y, m2) := Load(m1, Read, (first + width) % Pow2(m.csr.maxXlen), width);
        if y.AccessFault? then (y, m2)
        else if x.NotRam? || y.NotRam? then (NotRam, m2)
        else (Ram(if size == 2 then x.value + 256 * y.value else Joined(x.value, y.value, size, al)), m2)
  }

  /** target_write_u* at any address: a misaligned write stores byte by byte and stops at the first fault. */
  function StoreBytes(m: Machine, vaddr: nat, bytes: seq<Byte>): (r: (bool, Machine))
    requires m.Valid()
    ensures r.1.Valid()
    decreases |bytes|
  {
    if bytes == [] then (true, m)
    else
      StoreKeeps(m, vaddr, bytes[..1]);
      var (x, m1) := Store(m, vaddr, bytes[..1]);
      if x.AccessFault? then (false, m1) else StoreBytes(m1, (vaddr + 1) % Pow2(m.csr.maxXlen), bytes[1..])
  }

  class State {
    var csr: Csr
    var ranges: seq<Range>
    const tlbRead: array<Entry>
    const tlbWrite: array<Entry>
    const tlbCode: array<Entry>
    ghost var stored: seq<set<nat>>

    ghost function Abs(): Machine
      reads this, tlbRead, tlbWrite, tlbCode
    {
      Machine(csr, ranges, tlbRead[..], tlbWrite[..], tlbCode[..], stored)
    }

    ghost predicate Valid()
      reads this, tlbRead, tlbWrite, tlbCode
    {
      tlbRead != tlbWrite && tlbRead != tlbCode && tlbWrite != tlbCode && Abs().Valid()
    }

    /** riscv_cpu_init, for a machine without memory as yet */
    constructor (maxXlen: nat)
      requires maxXlen == 32 || maxXlen == 64 || maxXlen == 128
      ensures Valid() && Abs().Coherent() && Abs().Tracks() && ranges == []
      ensures fresh(tlbRead) && fresh(tlbWrite) && fresh(tlbCode)
    {
      var mxl := BaseOfXlen(maxXlen);
      csr := Csr(maxXlen, maxXlen, PRV_M, false, PRV_U, PRV_U, false, false, mxl, mxl, mxl, 0, 0);
      ranges, stored := [], [];
      var none := Entry(NoTag(maxXlen), 0, 0);
      tlbRead := new Entry[TLB_SIZE](i => none);
      tlbWrite := new Entry[TLB_SIZE](i => none);
      tlbCode := new Entry[TLB_SIZE](i => none);
      new;
      hide NoTag, Translate, Touches;
      assert Abs() == FlushAll(Abs());
    }

    /** get_phys_mem_range: the index of the range, or the number of ranges if none covers the address. */
    method GetPhysMemRange(paddr: nat) returns (r: nat)
      ensures r == RangeAt(ranges, paddr)
    {
      r := 0;
      while r < |ranges|
        invariant r <= |ranges| && FindRange(ranges, paddr, r) == RangeAt(ranges, paddr)
      {
        if ranges[r].Covers(paddr) { return; }
        r := r + 1;
      }
    }

    /** tlb_flush_all */
    method TlbFlushAll()
      requires Valid()
      modifies tlbRead, tlbWrite, tlbCode
      ensures Valid() && Abs() == FlushAll(old(Abs()))
    {
      ghost var m := Abs();
      hide NoTag, Range.Valid, Csr.Valid, Slot;
      var none := Entry(NoTag(csr.maxXlen), 0, 0);
      for i := 0 to TLB_SIZE
        invariant forall k :: 0 <= k < i ==> tlbRead[k] == none && tlbWrite[k] == none && tlbCode[k] == none
        invariant Abs() == m.(read := tlbRead[..], write := tlbWrite[..], code := tlbCode[..])
      {
        tlbRead[i], tlbWrite[i], tlbCode[i] := none, none, none;
      }
      assert Abs() == FlushAll(m);
      FlushDrops(m, 0, 0, 0);
    }

    /** riscv_cpu_flush_tlb_write_range_ram */
    method FlushTlbWriteRangeRam(r: nat, lo: nat, hi: nat)
      requires Valid()
      modifies tlbWrite
      ensures Valid() && Abs() == FlushWriteRange(old(Abs()), r, lo, hi)
    {
      ghost var m := Abs();
      hide NoTag, Range.Valid, Csr.Valid, Slot;
      for i := 0 to TLB_SIZE
        invariant forall k :: 0 <= k < TLB_SIZE ==>
          tlbWrite[k] == if k < i then FlushWriteRange(m, r, lo, hi).write[k] else m.write[k]
        invariant Abs() == m.(write := tlbWrite[..])
      {
        var e := tlbWrite[i];
        if e.vaddr != NoTag(csr.maxXlen) {
          if e.range == r && lo <= e.page * PAGE < hi {
            tlbWrite[i] := e.(vaddr := NoTag(csr.maxXlen));
          }
        }
      }
      assert Abs() == FlushWriteRange(m, r, lo, hi);
      FlushDrops(m, r, lo, hi);
    }

    /** The loop of get_phys_addr, up to the leaf entry. */
    method WalkTables(vaddr: nat) returns (leaf: Leaf)
      ensures leaf == FindLeaf(ranges, csr, vaddr, csr.Base(), 0)
    {
      hide Pow2, ReadPte, EntryAddr, PteTarget, IsValidPte, Xwr, Csr.Base;
      var pteAddr := csr.Base();
      var i := 0;
      while i < csr.Levels()
        invariant i <= csr.Levels()
        invariant FindLeaf(ranges, csr, vaddr, csr.Base(), 0) == FindLeaf(ranges, csr, vaddr, pteAddr, i)
      {
        pteAddr := EntryAddr(csr, vaddr, pteAddr, i);
        var pte := ReadPte(ranges, pteAddr, csr.PteSize());
        if !IsValidPte(pte) { return NoLeaf; }
        if Xwr(pte) != 0 { return Leaf(pteAddr, pte, i); }
        pteAddr := PteTarget(csr, pte);
        i := i + 1;
      }
      return NoLeaf;
    }

    /** get_phys_addr: the page walk, the checks on the leaf, and its accessed and dirty bits. */
    method GetPhysAddr(vaddr: nat, access: Access) returns (ok: bool, paddr: nat)
      requires Valid()
      modifies this`ranges
      ensures Valid() && Abs() == old(Abs()).(ranges := Touched(old(ranges), csr, vaddr, access))
      ensures Translate(old(ranges), csr, vaddr, access) == if ok then To(paddr) else PageFault
    {
      ghost var m := Abs();
      CsrOf(m);
      TouchedKeeps(ranges, csr, vaddr, access);
      KeptMachine(m, Touched(ranges, csr, vaddr, access));
      LeafLevel(ranges, csr, vaddr, csr.Base(), 0);
      hide Pow2, Low, Shr, Shl, WritePte, Machine.Valid, FindLeaf, LeafTarget, Canonical, Keeps, Csr.Valid, Permits,
           NeedsUpdate, Updated;
      if csr.Priv(access) == PRV_M {
        return true, if csr.xlen < csr.maxXlen then Low(vaddr, csr.xlen) else vaddr;
      }
      if csr.mode == 0 {
        return true, vaddr;
      }
      if !Canonical(csr, vaddr) { return false, 0; }
      var leaf := WalkTables(vaddr);
      if leaf.NoLeaf? || !Permits(csr, leaf.pte, access) { return false, 0; }
      if NeedsUpdate(leaf.pte, access) {
        ranges := WritePte(ranges, leaf.addr, csr.PteSize(), Updated(leaf.pte, access));
      }
      return true, LeafTarget(csr, vaddr, leaf.pte, leaf.level);
    }

    /** The end of the slow paths for an address in RAM: the dirty bit of a write, and the new entry. */
    method FillEntry(vaddr: nat, paddr: nat, r: nat, access: Access)
      requires Valid() && IsRamAt(ranges, paddr) && r == RangeAt(ranges, paddr)
      modifies this`ranges, tlbRead, tlbWrite, tlbCode
      ensures Valid() && Abs() == Filled(old(Abs()), access, vaddr, paddr)
    {
      ghost var m := Abs();
      FilledValid(m, access, vaddr, paddr);
      hide Machine.Valid, RangeAt, Slot, PageStart, MarkAt, Range.Covers;
      var page := (paddr - ranges[r].addr) / PAGE;
      if access == Write {
        ranges := MarkAt(ranges, r, page);
      }
      var e := Entry(PageStart(vaddr), r, page);
      match access
      case Read => tlbRead[Slot(vaddr)] := e;
      case Write => tlbWrite[Slot(vaddr)] := e;
      case Code => tlbCode[Slot(vaddr)] := e;
    }

    /** The slow path up to the access itself; `r` and `o` say where in RAM the address is. */
    method SlowPath(access: Access, vaddr: nat) returns (ok: bool, ram: bool, r: nat, o: nat)
      requires Valid()
      modifies this`ranges, tlbRead, tlbWrite, tlbCode
      ensures Valid() && Abs() == Refill(old(Abs()), access, vaddr)
      ensures SlowResult(old(Abs()), Abs().ranges, access, vaddr, ok, ram, r, o)
    {
      ghost var m := Abs();
      RefillCases(m, access, vaddr);
      hide Machine.Valid, Translate, Touched, RangeAt, Slot, PageStart, Range.Covers, MarkAt, Refill, Filled;
      ghost var b := Touched(ranges, csr, vaddr, access);
      var paddr;
      ok, paddr := GetPhysAddr(vaddr, access);
      assert ranges == b;
      ram, r, o := false, 0, 0;
      if ok {
        r := GetPhysMemRange(paddr);
        if r < |ranges| && ranges[r].isRam {
          ram, o := true, paddr - ranges[r].addr;
          FillEntry(vaddr, paddr, r, access);
          FilledPlace(old(Abs()).(ranges := b), access, vaddr, paddr);
        }
      }
    }

    /** target_read_slow and target_read_insn_slow at an aligned address. */
    method ReadSlow(access: Access, vaddr: nat, size: nat) returns (x: Outcome)
      requires Valid() && access != Write && IsSize(size) && vaddr % size == 0 && !Hit(Abs(), access, vaddr, size)
      modifies this`ranges, tlbRead, tlbWrite, tlbCode
      ensures Valid() && (x, Abs()) == Load(old(Abs()), access, vaddr, size)
    {
      ghost var m := Abs();
      EntriesLength(m, access);
      hide Machine.Valid, Slot, Hit, Refill, LoadAt, Load, SlowResult;
      var ok, ram, r, o := SlowPath(access, vaddr);
      LoadMissIs(m, access, vaddr, size, ok, ram, r, o);
      x := if !ok then AccessFault else if !ram then NotRam else Ram(LoadAt(ranges, r, o, size));
    }

    /** target_read_u* at an aligned address, and target_read_insn_u16: the fast path, or the slow one. */
    method ReadAligned(access: Access, vaddr: nat, size: nat) returns (x: Outcome)
      requires Valid() && access != Write && IsSize(size) && vaddr % size == 0
      modifies this`ranges, tlbRead, tlbWrite, tlbCode
      ensures Valid() && (x, Abs()) == Load(old(Abs()), access, vaddr, size)
    {
      EntriesLength(Abs(), access);
      if Hit(Abs(), access, vaddr, size) { HitEntry(Abs(), access, vaddr, size); }
      hide Machine.Valid, Translate, RangeAt, Slot, PageStart, Refill, TagOf;
      var e := if access == Read then tlbRead[Slot(vaddr)] else tlbCode[Slot(vaddr)];
      if e.vaddr == TagOf(access, vaddr, size) {
        // in bounds: the entry points into the buffer of a RAM range, and the access stays in its page
        x := Ram(Word(ranges[e.range].mem, e.page * PAGE + vaddr % PAGE, size));
      } else {
        x := ReadSlow(access, vaddr, size);
      }
    }

    /** target_read_u* */
    method TargetRead(vaddr: nat, size: nat) returns (x: Outcome)
      requires Valid() && IsSize(size)
      modifies this`ranges, tlbRead, tlbWrite, tlbCode
      ensures Valid() && (x, Abs()) == LoadAny(old(Abs()), vaddr, size)
    {
      hide Machine.Valid, Load;
      var al := vaddr % size;
      if al == 0 {
        x := ReadAligned(Read, vaddr, size);
      } else {
        var first := if size == 2 then vaddr else vaddr - al;
        var width := if size == 2 then 1 else size;
        AlignedParts(vaddr, size, csr.maxXlen) by { CsrOf(Abs()); }
        var v0 := ReadAligned(Read, first, width);
        if v0.AccessFault? { return v0; }
        var v1 := ReadAligned(Read, (first + width) % Pow2(csr.maxXlen), width);
        if v1.AccessFault? { return v1; }
        if v0.NotRam? || v1.NotRam? { return NotRam; }
        x := Ram(if size == 2 then v0.value + 256 * v1.value else Joined(v0.value, v1.value, size, al));
      }
    }

    /** target_write_slow at an aligned address. */
    method WriteSlow(vaddr: nat, bytes: seq<Byte>) returns (x: Outcome)
      requires Valid() && IsSize(|bytes|) && vaddr % |bytes| == 0 && !Hit(Abs(), Write, vaddr, |bytes|)
      modifies this`ranges, this`stored, tlbRead, tlbWrite, tlbCode
      ensures Valid() && (x, Abs()) == Store(old(Abs()), vaddr, bytes)
    {
      ghost var m := Abs();
      TlbLengths(m);
      FaultRefills(m, Write, vaddr);
      StoreKeeps(m, vaddr, bytes);
      hide Machine.Valid, Slot, Hit, Refill, WriteAt, StoredPage, Store, SlowResult;
      var ok, ram, r, o := SlowPath(Write, vaddr);
      StoreMissIs(m, vaddr, bytes, ok, ram, r, o);
      if !ok {
        x := AccessFault;
      } else if !ram {
        x := NotRam;
      } else {
        stored := StoredPage(Abs(), r, o / PAGE);
        ranges := WriteAt(ranges, r, o, bytes);
        x := Ram(0);
      }
    }

    /** target_write_u* at an aligned address. */
    method WriteAligned(vaddr: nat, bytes: seq<Byte>) returns (x: Outcome)
      requires Valid() && IsSize(|bytes|) && vaddr % |bytes| == 0
      modifies this`ranges, this`stored, tlbRead, tlbWrite, tlbCode
      ensures Valid() && (x, Abs()) == Store(old(Abs()), vaddr, bytes)
    {
      ghost var m := Abs();
      TlbLengths(m);
      StoreKeeps(m, vaddr, bytes);
      if Hit(m, Write, vaddr, |bytes|) { StoreHitIs(m, vaddr, bytes); }
      hide Machine.Valid, Translate, RangeAt, Slot, PageStart, Refill, TagOf, Store, WriteRam, StoredPage;
      var e := tlbWrite[Slot(vaddr)];
      if e.vaddr == TagOf(Write, vaddr, |bytes|) {
        stored := StoredPage(m, e.range, e.page);
        ranges := WriteRam(ranges, e.range, e.page * PAGE + vaddr % PAGE, bytes);
        x := Ram(0);
      } else {
        x := WriteSlow(vaddr, bytes);
      }
    }

    /** target_write_u*: a misaligned write stores byte by byte. */
    method TargetWrite(vaddr: nat, bytes: seq<Byte>) returns (ok: bool)
      requires Valid() && IsSize(|bytes|)
      modifies this`ranges, this`stored, tlbRead, tlbWrite, tlbCode
      ensures Valid()
      ensures vaddr % |bytes| == 0 ==>
                ok == !Store(old(Abs()), vaddr, bytes).0.AccessFault? && Abs() == Store(old(Abs()), vaddr, bytes).1
      ensures vaddr % |bytes| != 0 ==> (ok, Abs()) == StoreBytes(old(Abs()), vaddr, bytes)
    {
      ghost var m := Abs();
      hide Machine.Valid, Store;
      if vaddr % |bytes| == 0 {
        var x := WriteAligned(vaddr, bytes);
        return !x.AccessFault?;
      }
      var i: nat := 0;
      var addr: nat := vaddr;
      assert bytes[0..] == bytes;
      while i < |bytes|
        invariant Valid() && i <= |bytes|
        invariant StoreBytes(m, vaddr, bytes) == StoreBytes(Abs(), addr, bytes[i..])
      {
        assert bytes[i..][..1] == [bytes[i]] && bytes[i..][1..] == bytes[i + 1..];
        var x := WriteAligned(addr, [bytes[i]]);
        if x.AccessFault? { return false; }
        addr := (addr + 1) % Pow2(csr.maxXlen);
        i := i + 1;
      }
      return true;
    }

    // ----- control registers

    /** set_mstatus */
    method SetMstatus(v: Mstatus)
      requires Valid() && v.Valid()
      modifies this`csr, tlbRead, tlbWrite, tlbCode
      ensures Valid() && Abs() == MachineRuns.SetMstatus(old(Abs()), v)
    {
      ghost var m := Abs();
      SetMstatusKeeps(m, v);
      hide Machine.Valid, FlushAll;
      if v.mprv != csr.mprv || v.sum != csr.sum || v.mxr != csr.mxr || (csr.mprv && v.mpp != csr.mpp) {
        TlbFlushAll();
      }
      csr := csr.(mprv := v.mprv, mpp := v.mpp, spp := v.spp, sum := v.sum, mxr := v.mxr);
      if csr.maxXlen >= 64 {
        if 1 <= v.uxl <= BaseOfXlen(csr.maxXlen) {
          csr := csr.(uxl := v.uxl, sxl := v.sxl);
        }
      }
    }

    /** csr_write, for satp */
    method WriteSatp(mode: nat, root: nat)
      requires Valid()
      modifies this`csr, tlbRead, tlbWrite, tlbCode
      ensures Valid() && Abs() == MachineRuns.WriteSatp(old(Abs()), mode, root)
    {
      WriteSatpKeeps(Abs(), mode, root);
      FlushesKeep();
      hide Machine.Valid, FlushAll;
      var supported := if csr.maxXlen == 32 then mode <= 1 else mode == 0 || mode == 8 || mode == 9;
      var mode' := if supported then mode else csr.mode;
      TlbFlushAll();
      csr := csr.(mode := mode', root := root);
    }

    /** set_priv */
    method SetPriv(priv: nat)
      requires Valid() && priv < 4
      modifies this`csr, tlbRead, tlbWrite, tlbCode
      ensures Valid() && Abs() == MachineRuns.SetPriv(old(Abs()), priv)
    {
      CsrOf(Abs());
      SetPrivKeeps(Abs(), csr, priv);
      hide Machine.Valid, FlushAll, Pow2, Csr.Valid, Machine.Coherent, Machine.Tracks;
      if csr.priv != priv {
        TlbFlushAll();
        if csr.maxXlen >= 64 {
          // change the current xlen
          var xl := if priv == PRV_S then csr.sxl else if priv == PRV_U then csr.uxl else csr.mxl;
          csr := csr.(xlen := Pow2(4 + xl));
        }
        csr := csr.(priv := priv);
        assert Abs() == FlushAll(old(Abs())).(csr := csr);
      }
    }

    /** raise_exception2, as far as translation is concerned */
    method RaiseException(delegated: bool)
      requires Valid()
      modifies this`csr, tlbRead, tlbWrite, tlbCode
      ensures Valid() && Abs() == Trap(old(Abs()), delegated)
    {
      ghost var m := Abs();
      CsrOf(m);
      Settings(m, csr.(mpp := csr.priv));
      if csr.priv <= PRV_S { Settings(m, csr.(spp := csr.priv)); }
      hide Machine.Valid, FlushAll, Pow2, MachineRuns.SetPriv;
      if csr.priv <= PRV_S && delegated {
        csr := csr.(spp := csr.priv);
        SetPriv(PRV_S);
      } else {
        csr := csr.(mpp := csr.priv);
        SetPriv(PRV_M);
      }
    }

    /** handle_sret */
    method HandleSret()
      requires Valid()
      modifies this`csr, tlbRead, tlbWrite, tlbCode
      ensures Valid() && Abs() == Sret(old(Abs()))
    {
      CsrOf(Abs());
      Settings(Abs(), csr.(spp := PRV_U));
      hide Machine.Valid, FlushAll, Pow2, MachineRuns.SetPriv;
      var spp := csr.spp;
      csr := csr.(spp := PRV_U);
      SetPriv(spp);
    }

    /** handle_mret */
    method HandleMret()
      requires Valid() && csr.priv == PRV_M
      modifies this`csr, tlbRead, tlbWrite, tlbCode
      ensures Valid() && Abs() == Mret(old(Abs()))
    {
      CsrOf(Abs());
      Settings(Abs(), csr.(mpp := PRV_U));
      hide Machine.Valid, FlushAll, Pow2, MachineRuns.SetPriv;
      var mpp := csr.mpp;
      csr := csr.(mpp := PRV_U);
      SetPriv(mpp);
    }

    // ----- physical memory

    static method HasDirtyBits(dirty: seq<nat>) returns (r: bool)
      ensures r == AnyWord(dirty)
    {
      r := false;
      for i := 0 to |dirty|
        invariant !r && forall k :: 0 <= k < i ==> dirty[k] == 0
      {
        if dirty[i] != 0 { return true; }
      }
    }

    /** default_get_dirty_bits: the flush is skipped when no page is dirty. */
    method CollectDirtyBits(r: nat) returns (dirty: seq<nat>)
      requires Valid() && Abs().Tracks() && r < |ranges| && ranges[r].tracked
      modifies this`ranges, this`stored, tlbWrite
      ensures Valid() && (dirty, Abs()) == GetDirtyBits(old(Abs()), r)
      ensures forall p :: p in old(stored)[r] ==> PageBit(dirty, p)
    {
      ghost var m := Abs();
      CsrOf(m);
      assert ranges[r].Valid();
      GetDirtyBitsKeeps(m, r);
      hide Machine.Valid, Machine.Tracks, FlushWriteRange, PageBit, Range.Valid;
      var range := ranges[r];
      dirty := range.bits[range.index];
      var hasDirtyBits := HasDirtyBits(dirty);
      hide AnyWord;
      if hasDirtyBits && range.size != 0 {
        FlushTlbWriteRangeRam(r, 0, range.orgSize);
      }
      ranges := ranges[r := Swapped(range)];
      stored := stored[r := {}];
    }

    /** phys_mem_reset_dirty_bit */
    method ClearDirtyBit(r: nat, page: nat)
      requires Valid() && r < |ranges|
      modifies this`ranges, this`stored, tlbWrite
      ensures Valid() && Abs() == ResetDirtyBit(old(Abs()), r, page)
    {
      ghost var m := Abs();
      CsrOf(m);
      ResetDirtyBitKeeps(m, r, page);
      ghost var history := stored[r := stored[r] - {page}];
      SmallerHistory(m, history);
      hide Machine.Valid, FlushWriteRange, PageBit, Range.Valid, ClearPageBit;
      stored := history;
      var range := ranges[r];
      if range.Dirty(page) {
        FlushTlbWriteRangeRam(r, page * PAGE, page * PAGE + PAGE);
        ranges := ranges[r := range.(bits := range.bits[range.index := ClearPageBit(range.bits[range.index], page)])];
      }
    }

    /** default_set_addr */
    method SetAddress(r: nat, addr: nat, enabled: bool)
      requires Valid() && r < |ranges| && (ranges[r].isRam ==> addr % PAGE == 0)
      modifies this`ranges, tlbWrite
      ensures Valid() && Abs() == SetAddr(old(Abs()), r, addr, enabled)
    {
      SetAddrKeeps(Abs(), r, addr, enabled);
      hide Machine.Valid, FlushWriteRange;
      var range := ranges[r];
      if enabled {
        if range.size == 0 || range.addr != addr {
          // enable or move the mapping
          if range.isRam { FlushTlbWriteRangeRam(r, 0, range.orgSize); }
          ranges := ranges[r := range.(addr := addr, size := range.orgSize)];
        }
      } else if range.size != 0 {
        // disable the mapping
        if range.isRam { FlushTlbWriteRangeRam(r, 0, range.orgSize); }
        ranges := ranges[r := range.(addr := 0, size := 0)];
      }
    }
  }

  /** What FillEntry does. */
  function Filled(m: Machine, access: Access, vaddr: nat, paddr: nat): Machine
    requires m.Valid() && IsRamAt(m.ranges, paddr)
  {
    var r := RangeAt(m.ranges, paddr);
    var page := (paddr - m.ranges[r].addr) / PAGE;
    SetEntry(if access == Write then m.(ranges := MarkAt(m.ranges, r, page)) else m, access, Slot(vaddr),
             Entry(PageStart(vaddr), r, page))
  }

  lemma FilledPlace(m: Machine, access: Access, vaddr: nat, paddr: nat)
    requires m.Valid() && IsRamAt(m.ranges, paddr)
    ensures var r, b := RangeAt(m.ranges, paddr), Filled(m, access, vaddr, paddr).ranges;
      IsRamAt(b, paddr) && RangeAt(b, paddr) == r && b[r].addr == m.ranges[r].addr
  {
    CsrOf(m);
    hide Machine.Valid, Slot, PageStart, Range.Covers;
    MarkedLookup(m.ranges, paddr);
    hide RangeAt, MarkAt;
  }

  lemma MarkedMachine(m: Machine, vaddr: nat, paddr: nat)
    requires m.Valid() && IsRamAt(m.ranges, paddr)
    ensures var r := RangeAt(m.ranges, paddr);
      var m' := m.(ranges := MarkAt(m.ranges, r, (paddr - m.ranges[r].addr) / PAGE));
      m'.Valid() && m'.ValidEntry(NewEntry(m.ranges, vaddr, paddr), Slot(vaddr))
  {
    CsrOf(m);
    NewEntryValid(m, vaddr, paddr);
    MarkRamKeeps(m.ranges, paddr);
    var r := RangeAt(m.ranges, paddr);
    var b := MarkAt(m.ranges, r, (paddr - m.ranges[r].addr) / PAGE);
    KeptMachine(m, b);
    KeptValid(m.ranges, b);
    SamePlaceOf(m.ranges, b, r);
    hide Machine.Valid, MarkAt, Keeps, Slot, PageStart, RangeAt;
  }

  lemma FilledValid(m: Machine, access: Access, vaddr: nat, paddr: nat)
    requires m.Valid() && IsRamAt(m.ranges, paddr)
    ensures Filled(m, access, vaddr, paddr).Valid() && |m.read| == |m.write| == |m.code| == TLB_SIZE
  {
    TlbLengths(m);
    NewEntryValid(m, vaddr, paddr);
    MarkedMachine(m, vaddr, paddr);
    var r := RangeAt(m.ranges, paddr);
    var e := NewEntry(m.ranges, vaddr, paddr);
    hide Machine.Valid, RangeAt, Slot, MarkAt, PageStart, Machine.ValidEntry, SetEntry;
    SetEntryValid(m.(ranges := MarkAt(m.ranges, r, (paddr - m.ranges[r].addr) / PAGE)), access, Slot(vaddr), e);
    SetEntryValid(m, access, Slot(vaddr), e);
  }

  lemma SamePlaceOf(a: seq<Range>, b: seq<Range>, r: nat)
    requires SamePlacement(a, b) && r < |a|
    ensures |b| == |a| && SamePlace(a[r], b[r])
  {
  }

  lemma TlbLengths(m: Machine)
    requires m.Valid()
    ensures |m.read| == |m.write| == |m.code| == TLB_SIZE
  {
  }

  /** What SlowPath reports, for the memory `b` it leaves. */
  ghost predicate SlowResult(m: Machine, b: seq<Range>, access: Access, vaddr: nat, ok: bool, ram: bool, r: nat,
                             o: nat) {
    var t := Translate(m.ranges, m.csr, vaddr, access);
    && ok == t.To?
    && (t.To? ==> ram == IsRamAt(b, t.paddr))
    && (t.To? && ram ==> r == RangeAt(b, t.paddr) && o == t.paddr - b[r].addr)
  }

  lemma StoreHitIs(m: Machine, vaddr: nat, bytes: seq<Byte>)
    requires m.Valid() && IsSize(|bytes|) && Hit(m, Write, vaddr, |bytes|)
    ensures var e := m.write[Slot(vaddr)];
      var o := e.page * PAGE + vaddr % PAGE;
      e.range < |m.ranges| && o + |bytes| <= |m.ranges[e.range].mem| &&
      Store(m, vaddr, bytes) == (Ram(0), m.(ranges := WriteRam(m.ranges, e.range, o, bytes),
                                            stored := StoredPage(m, e.range, e.page)))
  {
    HitEntry(m, Write, vaddr, |bytes|);
    hide Machine.Valid, Translate, RangeAt, Slot, PageStart, Refill, TagOf, WriteRam, StoredPage;
  }

  lemma StoreMissIs(m: Machine, vaddr: nat, bytes: seq<Byte>, ok: bool, ram: bool, r: nat, o: nat)
    requires |bytes| > 0 && |m.write| == TLB_SIZE && !Hit(m, Write, vaddr, |bytes|)
    requires SlowResult(m, Refill(m, Write, vaddr).ranges, Write, vaddr, ok, ram, r, o)
    ensures Store(m, vaddr, bytes) ==
            if !ok then (AccessFault, m)
            else if !ram then (NotRam, Refill(m, Write, vaddr))
            else (Ram(0), Written(Refill(m, Write, vaddr), r, o, bytes))
    ensures !ok ==> Refill(m, Write, vaddr) == m
  {
    FaultRefills(m, Write, vaddr);
    hide Translate, Slot, Hit, Refill, RangeAt, Range.Covers, WriteAt, StoredPage;
  }

  lemma LoadMissIs(m: Machine, access: Access, vaddr: nat, size: nat, ok: bool, ram: bool, r: nat, o: nat)
    requires size > 0 && |m.Entries(access)| == TLB_SIZE && !Hit(m, access, vaddr, size)
    requires SlowResult(m, Refill(m, access, vaddr).ranges, access, vaddr, ok, ram, r, o)
    ensures Load(m, access, vaddr, size) ==
            (if !ok then AccessFault else if !ram then NotRam
             else Ram(LoadAt(Refill(m, access, vaddr).ranges, r, o, size)),
             Refill(m, access, vaddr))
  {
    FaultRefills(m, access, vaddr);
    hide Translate, Slot, Hit, Refill, RangeAt, Range.Covers, LoadAt;
  }

  lemma FaultRefills(m: Machine, access: Access, vaddr: nat)
    requires |m.Entries(access)| == TLB_SIZE
    ensures Translate(m.ranges, m.csr, vaddr, access).PageFault? ==> Refill(m, access, vaddr) == m
  {
    hide Translate, Touched;
  }

  /** Refill by cases, in the order the slow paths decide them. */
  lemma RefillCases(m: Machine, access: Access, vaddr: nat)
    requires m.Valid()
    ensures |m.read| == |m.write| == |m.code| == TLB_SIZE
    ensures var t, b := Translate(m.ranges, m.csr, vaddr, access), Touched(m.ranges, m.csr, vaddr, access);
      && m.(ranges := b).Valid()
      && ((t.PageFault? || !IsRamAt(b, t.paddr)) ==> Refill(m, access, vaddr) == m.(ranges := b))
      && (t.To? && IsRamAt(b, t.paddr) ==> Refill(m, access, vaddr) == Filled(m.(ranges := b), access, vaddr, t.paddr))
  {
    CsrOf(m);
    TlbLengths(m);
    TouchedKeeps(m.ranges, m.csr, vaddr, access);
    FaultTouchesNothing(m.ranges, m.csr, vaddr, access);
    var t, b := Translate(m.ranges, m.csr, vaddr, access), Touched(m.ranges, m.csr, vaddr, access);
    KeptMachine(m, b);
    KeptValid(m.ranges, b);
    hide Machine.Valid, Translate, Touched, Slot, PageStart, Keeps, ValidRanges, RangeAt, Filled, SetEntry, MarkAt,
         NewEntry;
    if t.To? && IsRamAt(b, t.paddr) { RefillRam(m, access, vaddr, t.paddr, b); }
  }

  lemma RefillRam(m: Machine, access: Access, vaddr: nat, p: nat, b: seq<Range>)
    requires |m.Entries(access)| == TLB_SIZE && m.(ranges := b).Valid() &&
             Translate(m.ranges, m.csr, vaddr, access) == To(p)
    requires b == Touched(m.ranges, m.csr, vaddr, access) && IsRamAt(b, p)
    ensures Refill(m, access, vaddr) == Filled(m.(ranges := b), access, vaddr, p)
  {
    CsrOf(m.(ranges := b));
    MarkedLookup(b, p);
    hide Machine.Valid, Translate, Touched, Slot, PageStart, RangeAt, SetEntry, MarkAt, Range.Covers;
  }

  lemma MarkedLookup(b: seq<Range>, p: nat)
    requires ValidRanges(b) && IsRamAt(b, p)
    ensures var r := RangeAt(b, p);
      var b' := MarkAt(b, r, (p - b[r].addr) / PAGE);
      |b'| == |b| && IsRamAt(b', p) && RangeAt(b', p) == r && b'[r].addr == b[r].addr
  {
    MarkRamKeeps(b, p);
    var r := RangeAt(b, p);
    var b' := MarkAt(b, r, (p - b[r].addr) / PAGE);
    KeptValid(b, b');
    SameLookup(b, b', p, 0);
    assert SamePlace(b[r], b'[r]);
  }

  /** A failed walk sets nothing. */
  lemma FaultTouchesNothing(ranges: seq<Range>, c: Csr, vaddr: nat, access: Access)
    ensures Translate(ranges, c, vaddr, access).PageFault? ==> Touched(ranges, c, vaddr, access) == ranges
  {
    hide CheckedLeaf, BareAddr;
  }

  lemma AlignedParts(vaddr: nat, size: nat, maxXlen: nat)
    requires IsSize(size) && maxXlen >= 4
    ensures (vaddr - vaddr % size) % size == 0 && (vaddr - vaddr % size + size) % Pow2(maxXlen) % size == 0
  {
    var k := SizeLog(size);
    Pow2Split(maxXlen, k);
    hide Pow2;
    var q := vaddr / size;
    assert vaddr - vaddr % size == size * q;
    MultipleMod(q, size, Pow2(maxXlen - k));
  }

  lemma SizeLog(size: nat) returns (k: nat)
    requires IsSize(size)
    ensures k <= 4 && Pow2(k) == size
  {
    k := if size == 1 then 0 else if size == 2 then 1 else if size == 4 then 2 else if size == 8 then 3 else 4;
  }

  lemma MultipleMod(q: nat, n: nat, p: nat)
    requires n > 0 && p > 0
    ensures (n * q) % n == 0 && (n * q + n) % (n * p) % n == 0
  {
    DivModUnique(n * q, n, q, 0);
    var d, r := (q + 1) / p, (q + 1) % p;
    assert n * q + n == n * (p * d + r) == d * (n * p) + n * r;
    MulOrder(n, r, p);
    DivModUnique(n * q + n, n * p, d, n * r);
    DivModUnique(n * r, n, r, 0);
  }

  lemma MulOrder(n: nat, r: nat, p: nat)
    requires n > 0 && r < p
    ensures n * r < n * p
  {
    MulAtLeast(p - r, n);
    assert n * (p - r) == n * p - n * r;
  }
}
