/** Every step that touches translation or dirty tracking (riscv_cpu.c: set_mstatus, csr_write, set_priv,
    raise_exception2, handle_sret, handle_mret; iomem.c: the dirty bitmap and set_addr), and what all runs keep. */
module MachineRuns {
  import opened Powers
  import opened PhysMemory
  import opened PageWalk
  import opened Tlb

  // ----- control registers

  /** The fields of a value written to mstatus that matter here. */
  datatype Mstatus = Mstatus(mprv: bool, mpp: nat, spp: nat, sum: bool, mxr: bool, uxl: nat, sxl: nat) {
    predicate Valid() { mpp < 4 && spp < 2 && uxl < 4 && sxl < 4 }
  }

  /** get_base_from_xlen */
  function BaseOfXlen(xlen: nat): nat {
    if xlen == 32 then 1 else if xlen == 64 then 2 else 3
  }

  /** set_mstatus: flushes when the translation settings change. The SXL field is copied when the UXL field
      written is valid. */
  function SetMstatus(m: Machine, v: Mstatus): Machine {
    var c := m.csr;
    var flush := v.mprv != c.mprv || v.sum != c.sum || v.mxr != c.mxr || (c.mprv && v.mpp != c.mpp);
    var xl := c.maxXlen >= 64 && 1 <= v.uxl <= BaseOfXlen(c.maxXlen);
    (if flush then FlushAll(m) else m).(
      csr := c.(mprv := v.mprv, mpp := v.mpp, spp := v.spp, sum := v.sum, mxr := v.mxr,
                uxl := if xl then v.uxl else c.uxl, sxl := if xl then v.sxl else c.sxl))
  }

  /** A write to satp: an unsupported mode leaves the mode as it was; the TLBs are flushed in any case. */
  function WriteSatp(m: Machine, mode: nat, root: nat): Machine {
    var ok := if m.csr.maxXlen == 32 then mode <= 1 else mode == 0 || mode == 8 || mode == 9;
    FlushAll(m).(csr := m.csr.(mode := if ok then mode else m.csr.mode, root := root))
  }

  /** set_priv: flushes on a change, which may change XLEN too. */
  function SetPriv(m: Machine, priv: nat): Machine {
    if m.csr.priv == priv then m
    else
      var xl := if priv == PRV_S then m.csr.sxl else if priv == PRV_U then m.csr.uxl else m.csr.mxl;
      FlushAll(m).(csr := m.csr.(priv := priv, xlen := if m.csr.maxXlen >= 64 then Pow2(4 + xl) else m.csr.xlen))
  }

  /** raise_exception2: to the supervisor when delegated, otherwise to machine mode. */
  function Trap(m: Machine, delegated: bool): Machine {
    if m.csr.priv <= PRV_S && delegated
    then SetPriv(m.(csr := m.csr.(spp := m.csr.priv)), PRV_S)
    else SetPriv(m.(csr := m.csr.(mpp := m.csr.priv)), PRV_M)
  }

  /** handle_sret */
  function Sret(m: Machine): Machine {
    SetPriv(m.(csr := m.csr.(spp := PRV_U)), m.csr.spp)
  }

  /** handle_mret */
  function Mret(m: Machine): Machine {
    SetPriv(m.(csr := m.csr.(mpp := PRV_U)), m.csr.mpp)
  }

  /** The settings translate every access alike. */
  ghost predicate SameView(c: Csr, c': Csr) {
    && c'.maxXlen == c.maxXlen && c'.xlen == c.xlen && c'.sum == c.sum && c'.mxr == c.mxr && c'.mode == c.mode &&
       c'.root == c.root
    && forall access: Access :: c'.Priv(access) == c.Priv(access)
  }

  lemma SameViewEntry(c: Csr, c': Csr, v: nat, base: nat, i: nat, pte: nat)
    requires SameView(c, c')
    ensures c'.Levels() == c.Levels() && c'.PteSize() == c.PteSize() && PteTarget(c', pte) == PteTarget(c, pte)
    ensures i < c.Levels() ==> EntryAddr(c', v, base, i) == EntryAddr(c, v, base, i)
  {
    hide Pow2, Low, Shr;
  }

  lemma {:induction false} SameViewLeaf(ranges: seq<Range>, c: Csr, c': Csr, v: nat, base: nat, i: nat)
    requires SameView(c, c')
    ensures FindLeaf(ranges, c', v, base, i) == FindLeaf(ranges, c, v, base, i)
    decreases c.Levels() - i
  {
    SameViewEntry(c, c', v, base, i, 0);
    if i < c.Levels() {
      var pte := ReadPte(ranges, EntryAddr(c, v, base, i), c.PteSize());
      SameViewEntry(c, c', v, base, i, pte);
      hide IsValidPte, Xwr, ReadPte, EntryAddr, PteTarget, SameView, Csr.Levels, Csr.PteSize;
      SameViewLeaf(ranges, c, c', v, PteTarget(c, pte), i + 1);
    }
  }

  lemma SameViewChecks(c: Csr, c': Csr, access: Access, v: nat, pte: nat)
    requires SameView(c, c')
    ensures Bare(c', access) == Bare(c, access) && BareAddr(c', v, access) == BareAddr(c, v, access)
    ensures Canonical(c', v) == Canonical(c, v) && c'.Base() == c.Base()
    ensures Permits(c', pte, access) == Permits(c, pte, access)
  {
    hide Pow2, Low, UserPte, Xwr;
  }

  lemma SameViewTarget(c: Csr, c': Csr, v: nat, pte: nat, i: nat)
    requires SameView(c, c') && i < c.Levels()
    ensures c'.Levels() == c.Levels() && LeafTarget(c', v, pte, i) == LeafTarget(c, v, pte, i)
  {
    hide Pow2, Low, Shl, Shr;
  }

  lemma SameViewTranslates(ranges: seq<Range>, c: Csr, c': Csr, access: Access, v: nat)
    requires SameView(c, c')
    ensures Translate(ranges, c', v, access) == Translate(ranges, c, v, access)
    ensures Touches(ranges, c', v, access) == Touches(ranges, c, v, access)
  {
    SameViewLeaf(ranges, c, c', v, c.Base(), 0);
    LeafLevel(ranges, c, v, c.Base(), 0);
    var l := FindLeaf(ranges, c, v, c.Base(), 0);
    SameViewChecks(c, c', access, v, if l.Leaf? then l.pte else 0);
    if l.Leaf? { SameViewTarget(c, c', v, l.pte, l.level); }
    hide FindLeaf, Pow2, Low, Shr, Shl, Permits, Canonical, NeedsUpdate, Bare, BareAddr, LeafTarget, SameView,
         Csr.Base, Csr.Levels, IsValidPte, Xwr;
  }

  lemma SameViewCoherent(m: Machine, c': Csr)
    requires m.Coherent() && SameView(m.csr, c')
    ensures m.(csr := c').Coherent()
  {
    hide Translate, Touches, RangeAt, Disjoint, NoTag;
    SameViewAgrees(m, c', Read);
    SameViewAgrees(m, c', Write);
    SameViewAgrees(m, c', Code);
  }

  lemma SameViewAgrees(m: Machine, c': Csr, access: Access)
    requires m.Agrees(access) && SameView(m.csr, c')
    ensures m.(csr := c').Agrees(access)
  {
    hide Translate, Touches, RangeAt, NoTag;
    var m' := m.(csr := c');
    forall i | 0 <= i < |m'.Entries(access)| && m'.Live(m'.Entries(access)[i])
      ensures m'.EntryAgrees(access, m'.Entries(access)[i])
    {
      assert m.Live(m.Entries(access)[i]);
      SameViewTranslates(m.ranges, m.csr, c', access, m.Entries(access)[i].vaddr);
    }
  }

  /** New settings after a flush. */
  lemma FlushedSettings(m: Machine, c': Csr)
    requires m.Valid() && c'.Valid() && c'.maxXlen == m.csr.maxXlen
    ensures FlushAll(m).(csr := c').Valid() && (Disjoint(m.ranges) ==> FlushAll(m).(csr := c').Coherent())
    ensures m.Tracks() ==> FlushAll(m).(csr := c').Tracks()
  {
    hide NoTag, Range.Valid, Csr.Valid, Range.Dirty, Disjoint, Machine.EntryAgrees, Slot;
  }

  /** New settings without a flush. */
  lemma Settings(m: Machine, c': Csr)
    requires m.Valid() && c'.Valid() && c'.maxXlen == m.csr.maxXlen
    ensures m.(csr := c').Valid() && (m.Tracks() ==> m.(csr := c').Tracks())
  {
    hide NoTag, Range.Valid, Csr.Valid, Range.Dirty, Slot;
    SettingsEntries(m, c', Read);
    SettingsEntries(m, c', Write);
    SettingsEntries(m, c', Code);
    if m.Tracks() {
      forall i | 0 <= i < |m.write| && m.(csr := c').Live(m.write[i]) ensures m.(csr := c').WriteTracked(m.write[i]) {
        assert m.WriteTracked(m.write[i]);
      }
    }
  }

  lemma SettingsEntries(m: Machine, c': Csr, access: Access)
    requires |m.Entries(access)| == TLB_SIZE && m.ValidEntries(access) && c'.maxXlen == m.csr.maxXlen
    ensures m.(csr := c').ValidEntries(access)
  {
    hide NoTag, Slot;
    forall i | 0 <= i < TLB_SIZE && m.(csr := c').Live(m.(csr := c').Entries(access)[i])
      ensures m.(csr := c').ValidEntry(m.(csr := c').Entries(access)[i], i)
    {
      assert m.Live(m.Entries(access)[i]);
    }
  }

  // ----- what each control step keeps

  lemma SetMstatusKeeps(m: Machine, v: Mstatus)
    requires m.Valid() && v.Valid()
    ensures SetMstatus(m, v).Valid() && (m.Tracks() ==> SetMstatus(m, v).Tracks())
    ensures m.Coherent() ==> SetMstatus(m, v).Coherent()
  {
    var c := m.csr;
    var c' := SetMstatus(m, v).csr;
    hide Machine.Valid, Machine.Tracks, Machine.Coherent, FlushAll, Disjoint;
    assert c.Valid() by { CsrOf(m); }
    if SetMstatus(m, v) == m.(csr := c') {
      Settings(m, c');
    }
    FlushedSettings(m, c');
    if m.Coherent() {
      CoherentDisjoint(m);
      if !(v.mprv != c.mprv || v.sum != c.sum || v.mxr != c.mxr || (c.mprv && v.mpp != c.mpp)) {
        SameViewCoherent(m, c');
      }
    }
  }

  lemma CsrOf(m: Machine)
    requires m.Valid()
    ensures m.csr.Valid() && ValidRanges(m.ranges) && |m.stored| == |m.ranges|
  {
  }

  lemma CoherentDisjoint(m: Machine)
    requires m.Coherent()
    ensures Disjoint(m.ranges)
  {
  }

  lemma WriteSatpKeeps(m: Machine, mode: nat, root: nat)
    requires m.Valid()
    ensures WriteSatp(m, mode, root).Valid() && (m.Tracks() ==> WriteSatp(m, mode, root).Tracks())
    ensures Disjoint(m.ranges) ==> WriteSatp(m, mode, root).Coherent()
  {
    CsrOf(m);
    hide Machine.Valid, Machine.Tracks, Machine.Coherent, FlushAll, Disjoint;
    FlushedSettings(m, WriteSatp(m, mode, root).csr);
  }

  lemma XlenBound(k: nat)
    ensures Pow2(4 + k) >= 12
  {
    Pow2Mono(4, 4 + k);
  }

  /** A change of privilege with other fields of mstatus rewritten: the flush covers both. */
  lemma SetPrivKeeps(m: Machine, c: Csr, priv: nat)
    requires m.Valid() && c.Valid() && c.maxXlen == m.csr.maxXlen && priv < 4
    ensures var m' := SetPriv(m.(csr := c), priv);
      m'.Valid() && (m.Tracks() ==> m'.Tracks()) &&
        (m.Coherent() && (c.priv != priv || SameView(m.csr, c) || (Untranslated(m.csr) && Untranslated(c))) ==>
           m'.Coherent())
  {
    var m' := SetPriv(m.(csr := c), priv);
    XlenBound(if priv == PRV_S then c.sxl else if priv == PRV_U then c.uxl else c.mxl);
    assert m'.csr.Valid();
    assert FlushAll(m).(csr := m'.csr) == FlushAll(m.(csr := c)).(csr := m'.csr);
    hide Machine.Valid, Machine.Tracks, Machine.Coherent, FlushAll, Disjoint, Pow2, SameView, Untranslated;
    if m.Coherent() { CoherentDisjoint(m); }
    if c.priv == priv {
      Settings(m, c);
      if m.Coherent() && SameView(m.csr, c) { SameViewCoherent(m, c); }
      if m.Coherent() && Untranslated(m.csr) && Untranslated(c) { UntranslatedCoherent(m, c); }
    } else {
      FlushedSettings(m, m'.csr);
    }
  }

  /** No access is translated or cut, whatever its privilege. */
  predicate Untranslated(c: Csr) { c.mode == 0 && c.xlen >= c.maxXlen }

  lemma UntranslatedCoherent(m: Machine, c': Csr)
    requires m.Coherent() && Untranslated(m.csr) && Untranslated(c') && c'.maxXlen == m.csr.maxXlen
    ensures m.(csr := c').Coherent()
  {
    hide Translate, Touches, RangeAt, Disjoint, NoTag;
    UntranslatedAgrees(m, c', Read);
    UntranslatedAgrees(m, c', Write);
    UntranslatedAgrees(m, c', Code);
  }

  lemma UntranslatedAgrees(m: Machine, c': Csr, access: Access)
    requires m.Agrees(access) && Untranslated(m.csr) && Untranslated(c') && c'.maxXlen == m.csr.maxXlen
    ensures m.(csr := c').Agrees(access)
  {
    hide Translate, Touches, RangeAt, NoTag, Untranslated;
    var m' := m.(csr := c');
    forall i | 0 <= i < |m'.Entries(access)| && m'.Live(m'.Entries(access)[i])
      ensures m'.EntryAgrees(access, m'.Entries(access)[i])
    {
      assert m.Live(m.Entries(access)[i]);
      UntranslatedAddress(m.ranges, m.csr, access, m.Entries(access)[i].vaddr);
      UntranslatedAddress(m.ranges, c', access, m.Entries(access)[i].vaddr);
    }
  }

  lemma UntranslatedAddress(ranges: seq<Range>, c: Csr, access: Access, v: nat)
    requires Untranslated(c)
    ensures Translate(ranges, c, v, access) == To(v) && !Touches(ranges, c, v, access)
  {
    hide FindLeaf;
  }

  /** A trap or return that stays in machine mode rewrites MPP without a flush: with MPRV set the privilege of data
      accesses may change, which matters if they can be translated. */
  predicate TrapKeepsView(c: Csr) {
    !(c.priv == PRV_M && c.mprv && c.mpp != PRV_M) || Untranslated(c)
  }

  predicate MretKeepsView(c: Csr) {
    !(c.mprv && c.mpp == PRV_M) || Untranslated(c)
  }

  /** The flush, or settings that translate as before. */
  lemma TrapView(m: Machine, delegated: bool)
    requires TrapKeepsView(m.csr)
    ensures var c, c' := m.csr, Trap(m, delegated).csr;
            c'.priv != c.priv || SameView(c, c') || (Untranslated(c) && Untranslated(c'))
  {
    var c, c' := m.csr, Trap(m, delegated).csr;
    assert c.Priv(Read) == if c.mprv then c.mpp else c.priv;
    assert c'.Priv(Read) == if c'.mprv then c'.mpp else c'.priv;
    hide Pow2, FlushAll;
  }

  /** MRET is executed in machine mode. */
  lemma MretView(m: Machine)
    requires m.csr.priv == PRV_M && MretKeepsView(m.csr)
    ensures var c, c' := m.csr, Mret(m).csr;
            c'.priv != c.priv || SameView(c, c') || (Untranslated(c) && Untranslated(c'))
  {
    var c, c' := m.csr, Mret(m).csr;
    assert c.Priv(Read) == if c.mprv then c.mpp else c.priv;
    assert c'.Priv(Read) == if c'.mprv then c'.mpp else c'.priv;
    hide Pow2, FlushAll;
  }

  /** XLEN is that of the privilege. */
  predicate XlenSet(c: Csr) {
    c.maxXlen >= 64 ==> c.xlen == Pow2(4 + (if c.priv == 1 then c.sxl else if c.priv == 0 then c.uxl else c.mxl))
  }

  /** What a trap and the return from it leave: the settings as they were, with the field of the previous privilege at
      the user's; in between, the privilege of the handler. */
  lemma TrapReturns(m: Machine)
    requires m.Valid() && XlenSet(m.csr)
    ensures var t := Trap(m, false);
            t.csr.priv == 3 && XlenSet(t.csr) && Mret(t).csr == m.csr.(mpp := 0) && Mret(t).ranges == m.ranges
    ensures m.csr.priv <= 1 ==>
              var t := Trap(m, true);
              t.csr.priv == 1 && XlenSet(t.csr) && Sret(t).csr == m.csr.(spp := 0) && Sret(t).ranges == m.ranges
    ensures m.csr.priv > 1 ==> Trap(m, true) == Trap(m, false)
  {
    hide Pow2;
  }

  /** So the program that was trapped sees its memory as before. */
  lemma TrapIsTransparent(m: Machine, access: Access, v: nat)
    requires m.Valid() && XlenSet(m.csr) && (!m.csr.mprv || m.csr.mpp == 0)
    ensures var r := Mret(Trap(m, false));
            Translate(r.ranges, r.csr, v, access) == Translate(m.ranges, m.csr, v, access)
  {
    TrapReturns(m);
    var r := Mret(Trap(m, false));
    hide Trap, Mret, Translate, Pow2;
    SameViewTranslates(m.ranges, m.csr, r.csr, access, v);
  }

  /** The codes of the widths 32, 64 and 128 */
  lemma BaseIs(xlen: nat)
    requires xlen == 32 || xlen == 64 || xlen == 128
    ensures Pow2(4 + BaseOfXlen(xlen)) == xlen
  {
    assert Pow2(5) == 32 && Pow2(6) == 64 && Pow2(7) == 128;
  }

  lemma TrapKeeps(m: Machine, delegated: bool)
    requires m.Valid()
    ensures Trap(m, delegated).Valid() && (m.Tracks() ==> Trap(m, delegated).Tracks())
    ensures m.Coherent() && TrapKeepsView(m.csr) ==> Trap(m, delegated).Coherent()
  {
    CsrOf(m);
    if TrapKeepsView(m.csr) { TrapView(m, delegated); }
    var c := m.csr;
    hide Machine.Valid, Machine.Tracks, Machine.Coherent, Pow2, FlushAll;
    if c.priv <= PRV_S && delegated {
      SetPrivKeeps(m, c.(spp := c.priv), PRV_S);
    } else {
      SetPrivKeeps(m, c.(mpp := c.priv), PRV_M);
    }
  }

  lemma SretKeeps(m: Machine)
    requires m.Valid()
    ensures Sret(m).Valid() && (m.Tracks() ==> Sret(m).Tracks()) && (m.Coherent() ==> Sret(m).Coherent())
  {
    CsrOf(m);
    hide Machine.Valid, Machine.Tracks, Machine.Coherent, Pow2, FlushAll;
    SetPrivKeeps(m, m.csr.(spp := PRV_U), m.csr.spp);
  }

  lemma MretKeeps(m: Machine)
    requires m.Valid() && m.csr.priv == PRV_M
    ensures Mret(m).Valid() && (m.Tracks() ==> Mret(m).Tracks())
    ensures m.Coherent() && MretKeepsView(m.csr) ==> Mret(m).Coherent()
  {
    CsrOf(m);
    if MretKeepsView(m.csr) { MretView(m); }
    hide Machine.Valid, Machine.Tracks, Machine.Coherent, Pow2, FlushAll;
    SetPrivKeeps(m, m.csr.(mpp := PRV_U), m.csr.mpp);
  }

  // ----- dirty bitmaps

  predicate AnyWord(b: seq<nat>) {
    exists i :: 0 <= i < |b| && b[i] != 0
  }

  lemma NoWordNoPage(b: seq<nat>, p: nat)
    requires !AnyWord(b)
    ensures !PageBit(b, p)
  {
    NoBit(p % 32);
  }

  /** The bitmaps swapped and the new one cleared. */
  function Swapped(r: Range): Range
    requires r.tracked && |r.bits| == 2 && r.index < 2
  {
    r.(index := 1 - r.index, bits := r.bits[1 - r.index := ZeroBitmap(|r.bits[1 - r.index]|)])
  }

  /** default_get_dirty_bits on a range that keeps dirty bits; the bitmap returned is the one that was in use. */
  function GetDirtyBits(m: Machine, r: nat): (seq<nat>, Machine)
    requires m.Valid() && r < |m.ranges| && m.ranges[r].tracked
  {
    assert m.ranges[r].Valid();
    var range := m.ranges[r];
    var dirty := range.bits[range.index];
    var m' := if AnyWord(dirty) && range.size != 0 then FlushWriteRange(m, r, 0, range.orgSize) else m;
    (dirty, m'.(ranges := m.ranges[r := Swapped(range)], stored := m.stored[r := {}]))
  }

  lemma SwappedValid(r: Range)
    requires r.Valid() && r.tracked
    ensures Swapped(r).Valid() && Swapped(r) == r.(index := 1 - r.index, bits := Swapped(r).bits)
    ensures forall p: nat :: !Swapped(r).Dirty(p)
  {
    ZeroBitmapValid(r.orgSize / PAGE);
    forall p: nat ensures !Swapped(r).Dirty(p) { ZeroNoPage(|r.bits[1 - r.index]|, p); }
  }

  /** No live write entry is left that points into the range, although the flush is skipped when the bitmap is empty. */
  lemma NoWriterLeft(m: Machine, r: nat, i: nat)
    requires m.Valid() && m.WritesTracked() && r < |m.ranges| && m.ranges[r].tracked && i < TLB_SIZE
    ensures var m' := GetDirtyBits(m, r).1;
            |m'.write| == TLB_SIZE && (m'.Live(m'.write[i]) ==> m'.write[i].range != r && m'.write[i] == m.write[i])
  {
    var range := m.ranges[r];
    assert range.Valid();
    var e := m.write[i];
    if m.Live(e) && e.range == r {
      assert m.ValidEntries(Write) && m.Live(m.Entries(Write)[i]);
      assert m.ValidEntry(e, i);
      assert m.WriteTracked(e);
      if !AnyWord(range.bits[range.index]) { NoWordNoPage(range.bits[range.index], e.page); }
    }
  }

  /** Collecting a bitmap keeps both invariants, and the bitmap holds every page stored to since the last collection. */
  lemma GetDirtyBitsKeeps(m: Machine, r: nat)
    requires m.Valid() && r < |m.ranges| && m.ranges[r].tracked
    ensures m.Tracks() ==> GetDirtyBits(m, r).1.Valid() && GetDirtyBits(m, r).1.Tracks()
    ensures m.Tracks() ==> forall p :: p in m.stored[r] ==> PageBit(GetDirtyBits(m, r).0, p)
    ensures m.Tracks() && m.Coherent() ==> GetDirtyBits(m, r).1.Coherent()
  {
    assert m.ranges[r].Valid();
    SwappedValid(m.ranges[r]);
    var b := m.ranges[r := Swapped(m.ranges[r])];
    SwapPlaces(m.ranges, r);
    var m' := GetDirtyBits(m, r).1;
    FlushDrops(m, r, 0, m.ranges[r].orgSize);
    CsrOf(m);
    DropNothing(m);
    if m.Tracks() { SwapTracks(m, r); }
    hide Machine.Valid, Machine.Tracks, Machine.Coherent, FlushWriteRange, Range.Valid, Swapped, SameMemory, AnyWord,
         Dropped, PageBit;
    FlushFields(m, r, 0, m.ranges[r].orgSize);
    var w := if AnyWord(m.ranges[r].bits[m.ranges[r].index]) && m.ranges[r].size != 0
             then FlushWriteRange(m, r, 0, m.ranges[r].orgSize) else m;
    DroppedLike(m, w, m');
    DroppedRanges(m, m', b);
    if m.Coherent() { SwapCoherent(m, m', b); }
  }

  lemma DropNothing(m: Machine)
    ensures Dropped(m, m)
  {
  }

  lemma DroppedLike(m: Machine, w: Machine, m': Machine)
    requires Dropped(m, w) && m'.csr == w.csr && m'.read == w.read && m'.write == w.write && m'.code == w.code
    ensures Dropped(m, m')
  {
    DroppedLikeIn(m, w, m', Read);
    DroppedLikeIn(m, w, m', Write);
    DroppedLikeIn(m, w, m', Code);
  }

  lemma DroppedLikeIn(m: Machine, w: Machine, m': Machine, access: Access)
    requires OnlyDropped(m, w, access) && m'.csr == w.csr && m'.Entries(access) == w.Entries(access)
    ensures OnlyDropped(m, m', access)
  {
    hide NoTag;
    forall i | 0 <= i < |m.Entries(access)| && m'.Live(m'.Entries(access)[i])
      ensures m'.Entries(access)[i] == m.Entries(access)[i]
    {
      assert w.Live(w.Entries(access)[i]);
    }
  }

  lemma SwapPlaces(ranges: seq<Range>, r: nat)
    requires ValidRanges(ranges) && r < |ranges| && ranges[r].tracked
    ensures SameMemory(ranges, ranges[r := Swapped(ranges[r])])
  {
    SwappedValid(ranges[r]);
  }

  /** Dropping entries and changing dirty bits. */
  lemma DroppedRanges(m: Machine, m': Machine, b: seq<Range>)
    requires m.Valid() && Dropped(m, m') && m'.csr == m.csr && m'.ranges == b && |m'.stored| == |b| &&
             SameMemory(m.ranges, b)
    ensures m'.Valid()
  {
    hide NoTag, Range.Valid, Csr.Valid, Slot;
    DroppedPlaced(m, m', Read);
    DroppedPlaced(m, m', Write);
    DroppedPlaced(m, m', Code);
  }

  lemma DroppedPlaced(m: Machine, m': Machine, access: Access)
    requires |m.Entries(access)| == TLB_SIZE && m.ValidEntries(access) && OnlyDropped(m, m', access) && m'.csr == m.csr
    requires SamePlacement(m.ranges, m'.ranges)
    ensures |m'.Entries(access)| == TLB_SIZE && m'.ValidEntries(access)
  {
    hide NoTag, Range.Valid, Csr.Valid, Slot;
    forall i | 0 <= i < TLB_SIZE && m'.Live(m'.Entries(access)[i]) ensures m'.ValidEntry(m'.Entries(access)[i], i) {
      var e := m.Entries(access)[i];
      assert m.Live(e) && m.ValidEntry(e, i);
      assert SamePlace(m.ranges[e.range], m'.ranges[e.range]);
    }
  }

  lemma SwapCoherent(m: Machine, m': Machine, b: seq<Range>)
    requires m.Valid() && m.Coherent() && Dropped(m, m') && m'.csr == m.csr && m'.ranges == b && SameMemory(m.ranges, b)
    ensures m'.Coherent()
  {
    forall access, i | 0 <= i < |m.Entries(access)| && m.Live(m.Entries(access)[i])
      ensures SameWalk(m.csr, m.ranges, b, access, m.Entries(access)[i].vaddr) {
      MarkSameWalk(m.csr, m.ranges, b, access, m.Entries(access)[i].vaddr);
    }
    hide NoTag, SameMemory, SameWalk, Machine.Coherent;
    KeptCoherent(m, b);
    DroppedCoherent(m.(ranges := b), m');
  }

  lemma SwapTracks(m: Machine, r: nat)
    requires m.Valid() && m.Tracks() && r < |m.ranges| && m.ranges[r].tracked
    ensures GetDirtyBits(m, r).1.Tracks()
    ensures forall p :: p in m.stored[r] ==> PageBit(GetDirtyBits(m, r).0, p)
  {
    var m' := GetDirtyBits(m, r).1;
    forall p | p in m.stored[r] ensures PageBit(GetDirtyBits(m, r).0, p) {
      assert m.ranges[r].Dirty(p);
    }
    forall i | 0 <= i < |m'.write| && m'.Live(m'.write[i]) ensures m'.WriteTracked(m'.write[i]) {
      NoWriterLeft(m, r, i);
      assert m.Live(m.write[i]) && m.WriteTracked(m.write[i]);
    }
  }

  /** phys_mem_reset_dirty_bit: the page is clean until it is stored to again. */
  function ResetDirtyBit(m: Machine, r: nat, page: nat): Machine
    requires r < |m.ranges| && r < |m.stored|
  {
    var range := m.ranges[r];
    var m' := m.(stored := m.stored[r := m.stored[r] - {page}]);
    if range.Dirty(page) then
      FlushWriteRange(m', r, page * PAGE, page * PAGE + PAGE).(
        ranges := m.ranges[r := range.(bits := range.bits[range.index := ClearPageBit(range.bits[range.index], page)])])
    else m'
  }

  lemma ClearDirty(r: Range, page: nat)
    requires r.Valid() && r.tracked && r.Dirty(page)
    ensures page / 32 < |r.bits[r.index]|
    ensures var r' := r.(bits := r.bits[r.index := ClearPageBit(r.bits[r.index], page)]);
      r'.Valid() && forall p: nat :: r'.Dirty(p) <==> p != page && r.Dirty(p)
  {
    var b := r.bits[r.index];
    ClearPageBitValid(b, page, r.orgSize / PAGE);
    forall p: nat ensures PageBit(ClearPageBit(b, page), p) <==> p != page && PageBit(b, p) {
      ClearPageBitAt(b, page, p);
    }
    hide IsBitmap, PageBit, ClearPageBit;
  }

  lemma ResetDirtyBitKeeps(m: Machine, r: nat, page: nat)
    requires m.Valid() && r < |m.ranges|
    ensures ResetDirtyBit(m, r, page).Valid()
    ensures m.Tracks() ==> ResetDirtyBit(m, r, page).Tracks()
    ensures m.Coherent() ==> ResetDirtyBit(m, r, page).Coherent()
  {
    var range := m.ranges[r];
    var m' := ResetDirtyBit(m, r, page);
    var s := m.(stored := m.stored[r := m.stored[r] - {page}]);
    assert range.Valid();
    SmallerHistory(m, s.stored);
    if range.Dirty(page) {
      ClearDirty(range, page);
      FlushDrops(s, r, page * PAGE, page * PAGE + PAGE);
      ClearPlaces(m.ranges, r, page);
      hide Machine.Valid, Machine.Tracks, Machine.Coherent, FlushWriteRange, Range.Dirty, Range.Valid, PageBit,
           ClearPageBit, SameMemory;
      FlushFields(s, r, page * PAGE, page * PAGE + PAGE);
      DroppedRanges(s, m', m'.ranges);
      if m.Coherent() { SwapCoherent(s, m', m'.ranges); }
      if m.Tracks() { ClearTracks(s, m', r, page); }
    }
  }

  lemma ClearPlaces(ranges: seq<Range>, r: nat, page: nat)
    requires ValidRanges(ranges) && r < |ranges| && ranges[r].tracked && ranges[r].Dirty(page)
    ensures page / 32 < |ranges[r].bits[ranges[r].index]|
    ensures var bits := ranges[r].bits; var x := ranges[r].index;
      var b := ranges[r := ranges[r].(bits := bits[x := ClearPageBit(bits[x], page)])];
      SameMemory(ranges, b) && SamePlacement(ranges, b) &&
      forall i, p: nat :: 0 <= i < |ranges| && (i != r || p != page) && ranges[i].Dirty(p) ==> b[i].Dirty(p)
  {
    ClearDirty(ranges[r], page);
    hide IsBitmap, PageBit, ClearPageBit;
  }

  lemma SmallerHistory(m: Machine, stored: seq<set<nat>>)
    requires m.Valid() && |stored| == |m.stored| && forall r :: 0 <= r < |stored| ==> stored[r] <= m.stored[r]
    ensures m.(stored := stored).Valid()
    ensures m.Coherent() ==> m.(stored := stored).Coherent()
    ensures m.Tracks() ==> m.(stored := stored).Tracks()
  {
    var m' := m.(stored := stored);
    hide NoTag, Range.Valid, Csr.Valid, Range.Dirty, Slot, Translate, Touches, RangeAt, Disjoint;
    assert Dropped(m, m');
    DroppedEntries(m, m', Read);
    DroppedEntries(m, m', Write);
    DroppedEntries(m, m', Code);
    if m.Coherent() { DroppedCoherent(m, m'); }
    if m.Tracks() {
      forall i | 0 <= i < |m'.write| && m'.Live(m'.write[i]) ensures m'.WriteTracked(m'.write[i]) {
        assert m.WriteTracked(m.write[i]);
      }
    }
  }

  lemma ClearTracks(m: Machine, m': Machine, r: nat, page: nat)
    requires m.Valid() && m.Tracks() && r < |m.ranges| && |m'.ranges| == |m.ranges| && m'.stored == m.stored &&
             m'.csr == m.csr
    requires m'.write == FlushWriteRange(m, r, page * PAGE, page * PAGE + PAGE).write && page !in m.stored[r]
    requires SamePlacement(m.ranges, m'.ranges)
    requires forall i, p: nat :: 0 <= i < |m.ranges| && (i != r || p != page) && m.ranges[i].Dirty(p) ==>
               m'.ranges[i].Dirty(p)
    ensures m'.Tracks()
  {
    hide NoTag, Range.Valid, Csr.Valid, Range.Dirty, Slot;
    forall i | 0 <= i < |m'.write| && m'.Live(m'.write[i]) ensures m'.WriteTracked(m'.write[i]) {
      assert m.Live(m.write[i]) && m.WriteTracked(m.write[i]);
      assert SamePlace(m.ranges[m.write[i].range], m'.ranges[m.write[i].range]);
    }
    forall i, p | 0 <= i < |m'.ranges| && m'.ranges[i].tracked && p in m'.stored[i] ensures m'.ranges[i].Dirty(p) {
      assert SamePlace(m.ranges[i], m'.ranges[i]);
      assert m.ranges[i].Dirty(p);
    }
  }

  // ----- moving, enabling and disabling ranges

  /** default_set_addr */
  function SetAddr(m: Machine, r: nat, addr: nat, enabled: bool): Machine
    requires r < |m.ranges|
  {
    var range := m.ranges[r];
    var m' := if range.isRam then FlushWriteRange(m, r, 0, range.orgSize) else m;
    if enabled then
      if range.size == 0 || range.addr != addr
      then m'.(ranges := m.ranges[r := range.(addr := addr, size := range.orgSize)]) else m
    else
      if range.size != 0 then m'.(ranges := m.ranges[r := range.(addr := 0, size := 0)]) else m
  }

  lemma NoWriterInRam(m: Machine, r: nat, i: nat)
    requires m.Valid() && r < |m.ranges| && i < TLB_SIZE
    ensures var w := (if m.ranges[r].isRam then FlushWriteRange(m, r, 0, m.ranges[r].orgSize) else m).write;
      |w| == TLB_SIZE && (m.Live(w[i]) ==> w[i].range != r && w[i] == m.write[i])
  {
    assert m.ValidEntries(Write) && |m.Entries(Write)| == TLB_SIZE;
    assert m.Live(m.Entries(Write)[i]) ==> m.ValidEntry(m.write[i], i);
  }

  /** RAM is placed at page boundaries. Moving a range keeps dirty tracking complete; it keeps the TLBs coherent when
      nothing moves, or a device does and stays clear of the other ranges. */
  lemma SetAddrKeeps(m: Machine, r: nat, addr: nat, enabled: bool)
    requires m.Valid() && r < |m.ranges| && (m.ranges[r].isRam ==> addr % PAGE == 0)
    ensures SetAddr(m, r, addr, enabled).Valid()
    ensures m.Tracks() ==> SetAddr(m, r, addr, enabled).Tracks()
    ensures m.Coherent() && !m.ranges[r].isRam && Disjoint(SetAddr(m, r, addr, enabled).ranges) ==>
      SetAddr(m, r, addr, enabled).Coherent()
  {
    var m' := SetAddr(m, r, addr, enabled);
    if m' != m {
      assert m.ranges[r].Valid();
      MovedEntries(m, m', r, Read);
      MovedEntries(m, m', r, Write);
      MovedEntries(m, m', r, Code);
      if m.Tracks() { MovedTracks(m, m', r); }
      if m.Coherent() && !m.ranges[r].isRam && Disjoint(m'.ranges) { MovedCoherent(m, m', r); }
    }
  }

  ghost predicate Moved(m: Machine, m': Machine, r: nat) {
    && r < |m.ranges| == |m'.ranges| && m'.csr == m.csr && m'.stored == m.stored && m'.read == m.read &&
       m'.code == m.code
    && m'.write == (if m.ranges[r].isRam then FlushWriteRange(m, r, 0, m.ranges[r].orgSize) else m).write
    && m'.ranges == m.ranges[r := m.ranges[r].(addr := m'.ranges[r].addr, size := m'.ranges[r].size)]
  }

  lemma MovedEntries(m: Machine, m': Machine, r: nat, access: Access)
    requires m.Valid() && Moved(m, m', r)
    ensures |m'.Entries(access)| == TLB_SIZE && m'.ValidEntries(access)
  {
    EntriesLength(m, access);
    hide NoTag, Range.Valid, Csr.Valid, Slot;
    forall i | 0 <= i < TLB_SIZE && m'.Live(m'.Entries(access)[i]) ensures m'.ValidEntry(m'.Entries(access)[i], i) {
      NoWriterInRam(m, r, i);
      assert m.Live(m.Entries(access)[i]);
      assert m.ValidEntry(m.Entries(access)[i], i);
    }
  }

  lemma MovedTracks(m: Machine, m': Machine, r: nat)
    requires m.Valid() && m.Tracks() && Moved(m, m', r)
    ensures m'.Tracks()
  {
    hide NoTag, Range.Valid, Csr.Valid, Slot;
    forall i | 0 <= i < |m'.write| && m'.Live(m'.write[i]) ensures m'.WriteTracked(m'.write[i]) {
      NoWriterInRam(m, r, i);
      assert m.Live(m.write[i]) && m.WriteTracked(m.write[i]);
    }
    forall i, p | 0 <= i < |m'.ranges| && m'.ranges[i].tracked && p in m'.stored[i] ensures m'.ranges[i].Dirty(p) {
      assert m.ranges[i].Dirty(p);
    }
  }

  /** With ranges apart, only the range that covers an address decides the lookup. */
  lemma TheRange(ranges: seq<Range>, p: nat, i: nat)
    requires Disjoint(ranges) && i < |ranges| && ranges[i].Covers(p)
    ensures RangeAt(ranges, p) == i
  {
    hide Range.Covers;
    SomeRange(ranges, p, i);
  }

  lemma SomeRange(ranges: seq<Range>, p: nat, i: nat)
    requires i < |ranges| && ranges[i].Covers(p)
    ensures RangeAt(ranges, p) < |ranges|
  {
  }

  lemma DeviceMoveReads(a: seq<Range>, b: seq<Range>, r: nat, e: nat, n: nat)
    requires Disjoint(a) && Disjoint(b) && r < |a| == |b| && !a[r].isRam && !b[r].isRam && b == a[r := b[r]]
    ensures ReadPte(b, e, n) == ReadPte(a, e, n)
    ensures IsRamAt(a, e) ==> IsRamAt(b, e) && RangeAt(b, e) == RangeAt(a, e)
  {
    hide Range.Covers, Word;
    if IsRamAt(a, e) { TheRange(b, e, RangeAt(a, e)); }
    if IsRamAt(b, e) { TheRange(a, e, RangeAt(b, e)); }
  }

  lemma {:induction false} DeviceMoveAgrees(a: seq<Range>, b: seq<Range>, r: nat, c: Csr, v: nat, base: nat, i: nat)
    requires Disjoint(a) && Disjoint(b) && r < |a| == |b| && !a[r].isRam && !b[r].isRam && b == a[r := b[r]]
    ensures PathAgrees(a, b, c, v, base, i)
    decreases c.Levels() - i
  {
    if i < c.Levels() {
      var e := EntryAddr(c, v, base, i);
      DeviceMoveReads(a, b, r, e, c.PteSize());
      var pte := ReadPte(a, e, c.PteSize());
      hide ReadPte, EntryAddr, IsValidPte, Xwr, PteTarget;
      DeviceMoveAgrees(a, b, r, c, v, PteTarget(c, pte), i + 1);
    }
  }

  lemma MovedCoherent(m: Machine, m': Machine, r: nat)
    requires m.Valid() && m.Coherent() && Moved(m, m', r) && !m.ranges[r].isRam && Disjoint(m'.ranges)
    ensures m'.Coherent()
  {
    hide NoTag, Translate, Touches, RangeAt, Disjoint;
    MovedAgrees(m, m', r, Read);
    MovedAgrees(m, m', r, Write);
    MovedAgrees(m, m', r, Code);
  }

  lemma MovedAgrees(m: Machine, m': Machine, r: nat, access: Access)
    requires m.Coherent() && m.Agrees(access) && Moved(m, m', r) && !m.ranges[r].isRam && Disjoint(m'.ranges)
    ensures m'.Agrees(access)
  {
    CoherentDisjoint(m);
    hide NoTag, Translate, Touches, RangeAt, Disjoint, Machine.Coherent;
    forall i | 0 <= i < |m'.Entries(access)| && m'.Live(m'.Entries(access)[i])
      ensures m'.EntryAgrees(access, m'.Entries(access)[i])
    {
      var e := m.Entries(access)[i];
      assert m.Live(e) && m.EntryAgrees(access, e);
      DeviceMoveAgrees(m.ranges, m'.ranges, r, m.csr, e.vaddr, m.csr.Base(), 0);
      AgreeingTranslation(m.ranges, m'.ranges, m.csr, e.vaddr, access);
      DeviceMoveReads(m.ranges, m'.ranges, r, Translate(m.ranges, m.csr, e.vaddr, access).paddr, 1);
    }
  }

  // ----- writes to memory

  /** The write misses every table entry that a live TLB entry was translated with. */
  ghost predicate AvoidsLive(m: Machine, r: nat, o: nat, len: nat) {
    forall access, i :: 0 <= i < |m.Entries(access)| && m.Live(m.Entries(access)[i]) ==>
      AvoidsPath(m.ranges, m.csr, m.Entries(access)[i].vaddr, m.csr.Base(), 0, r, o, len)
  }

  function Written(m: Machine, r: nat, o: nat, bytes: seq<Byte>): Machine {
    m.(ranges := WriteAt(m.ranges, r, o, bytes), stored := StoredPage(m, r, o / PAGE))
  }

  /** A write inside a page that is marked dirty. */
  lemma WrittenKeeps(m: Machine, r: nat, o: nat, bytes: seq<Byte>)
    requires m.Valid() && r < |m.ranges| && o + |bytes| <= |m.ranges[r].mem|
    ensures Written(m, r, o, bytes).Valid()
    ensures m.Tracks() && (m.ranges[r].tracked ==> m.ranges[r].Dirty(o / PAGE)) ==> Written(m, r, o, bytes).Tracks()
    ensures m.Coherent() && AvoidsLive(m, r, o, |bytes|) ==> Written(m, r, o, bytes).Coherent()
  {
    WriteAtKeeps(m.ranges, r, o, bytes);
    var b := WriteAt(m.ranges, r, o, bytes);
    KeptMachine(m, b);
    KeptValid(m.ranges, b);
    CsrOf(m);
    if m.Coherent() && AvoidsLive(m, r, o, |bytes|) {
      forall access, i | 0 <= i < |m.Entries(access)| && m.Live(m.Entries(access)[i])
        ensures SameWalk(m.csr, m.ranges, b, access, m.Entries(access)[i].vaddr) {
        var v := m.Entries(access)[i].vaddr;
        AvoidingAgrees(m.ranges, m.csr, v, m.csr.Base(), 0, r, o, bytes);
        AgreeingTranslation(m.ranges, b, m.csr, v, access);
      }
      KeptCoherent(m, b);
    }
    hide NoTag, Range.Valid, Csr.Valid, Slot, Translate, Touches, RangeAt, Disjoint, WriteAt, Range.Dirty, Keeps;
    NewHistory(m.(ranges := b), r, o / PAGE);
  }

  lemma NewHistory(m: Machine, r: nat, page: nat)
    requires m.Valid() && r < |m.ranges|
    ensures var m' := m.(stored := StoredPage(m, r, page));
      m'.Valid() && (m.Coherent() ==> m'.Coherent())
      && (m.Tracks() && (m.ranges[r].tracked ==> m.ranges[r].Dirty(page)) ==> m'.Tracks())
  {
    var m' := m.(stored := StoredPage(m, r, page));
    hide NoTag, Range.Valid, Csr.Valid, Slot, Translate, Touches, RangeAt, Disjoint, Range.Dirty;
    assert Dropped(m, m');
    DroppedEntries(m, m', Read);
    DroppedEntries(m, m', Write);
    DroppedEntries(m, m', Code);
    if m.Coherent() { DroppedCoherent(m, m'); }
    if m.Tracks() {
      forall i | 0 <= i < |m'.write| && m'.Live(m'.write[i]) ensures m'.WriteTracked(m'.write[i]) {
        assert m.WriteTracked(m.write[i]);
      }
    }
  }

  /** The machine in which a store of the guest writes, and where: the slow path refills first. */
  function StoreMachine(m: Machine, vaddr: nat, size: nat): Machine
    requires size > 0 && |m.write| == TLB_SIZE
  {
    if Hit(m, Write, vaddr, size) then m else Refill(m, Write, vaddr)
  }

  datatype Place = Nowhere | At(range: nat, offset: nat)

  function StorePlace(m: Machine, vaddr: nat, size: nat): Place
    requires size > 0 && |m.write| == TLB_SIZE
  {
    var e := m.write[Slot(vaddr)];
    if Hit(m, Write, vaddr, size) then At(e.range, e.page * PAGE + vaddr % PAGE)
    else
      var t, m' := Translate(m.ranges, m.csr, vaddr, Write), Refill(m, Write, vaddr);
      if t.PageFault? || !IsRamAt(m'.ranges, t.paddr) then Nowhere
      else At(RangeAt(m'.ranges, t.paddr), t.paddr - m'.ranges[RangeAt(m'.ranges, t.paddr)].addr)
  }

  lemma StoreIsWrite(m: Machine, vaddr: nat, bytes: seq<Byte>)
    requires m.Valid() && IsSize(|bytes|) && vaddr % |bytes| == 0
    ensures var p, m1 := StorePlace(m, vaddr, |bytes|), StoreMachine(m, vaddr, |bytes|);
      match p {
        case Nowhere => Store(m, vaddr, bytes).1 == m || Store(m, vaddr, bytes).1 == m1
        case At(r, o) => Store(m, vaddr, bytes).1 == Written(m1, r, o, bytes) && r < |m1.ranges| &&
          o + |bytes| <= |m1.ranges[r].mem|
      }
  {
    EntriesLength(m, Write);
    RefillTracks(m, Write, vaddr);
    if Hit(m, Write, vaddr, |bytes|) {
      HitEntry(m, Write, vaddr, |bytes|);
      OffsetPage(m.write[Slot(vaddr)].page, vaddr % PAGE);
    } else {
      var t, m' := Translate(m.ranges, m.csr, vaddr, Write), Refill(m, Write, vaddr);
      CsrOf(m');
      hide Translate, Refill, RangeAt, Hit, Slot, WriteAt, Machine.Valid;
      if t.To? && IsRamAt(m'.ranges, t.paddr) { StoreFits(m, vaddr, |bytes|); }
    }
  }

  lemma OffsetPage(page: nat, o: nat)
    requires o < PAGE
    ensures (page * PAGE + o) / PAGE == page
  {
    DivModUnique(page * PAGE + o, PAGE, page, o);
  }

  /** An aligned access stays in its page, so in the buffer of its range. */
  lemma StoreFits(m: Machine, vaddr: nat, size: nat)
    requires m.Valid() && IsSize(size) && vaddr % size == 0 && Translate(m.ranges, m.csr, vaddr, Write).To?
    requires IsRamAt(Refill(m, Write, vaddr).ranges, Translate(m.ranges, m.csr, vaddr, Write).paddr)
    ensures var p, b := Translate(m.ranges, m.csr, vaddr, Write).paddr, Refill(m, Write, vaddr).ranges;
      p - b[RangeAt(b, p)].addr + size <= |b[RangeAt(b, p)].mem|
  {
    RefillTracks(m, Write, vaddr);
    CsrOf(Refill(m, Write, vaddr));
    SplitAddr(vaddr);
    SamePageTranslates(m.ranges, m.csr, vaddr, vaddr, vaddr / PAGE, vaddr % PAGE, vaddr % PAGE, Write);
    AlignedInPage(vaddr, size);
    var p, b := Translate(m.ranges, m.csr, vaddr, Write).paddr, Refill(m, Write, vaddr).ranges;
    PageOfRam(b, p);
    assert b[RangeAt(b, p)].Valid();
    hide Translate, Refill, RangeAt;
  }

  lemma HitMarked(m: Machine, vaddr: nat, size: nat)
    requires m.Valid() && m.Tracks() && IsSize(size) && Hit(m, Write, vaddr, size)
    ensures var e := m.write[Slot(vaddr)];
      e.range < |m.ranges| && (m.ranges[e.range].tracked ==>
                               m.ranges[e.range].Dirty((e.page * PAGE + vaddr % PAGE) / PAGE))
  {
    HitEntry(m, Write, vaddr, size);
    var e := m.write[Slot(vaddr)];
    hide Hit, Slot, Range.Dirty, Range.Valid, NoTag;
    assert m.WriteTracked(e);
    OffsetPage(e.page, vaddr % PAGE);
  }

  lemma MissMarked(c: Csr, ranges: seq<Range>, vaddr: nat, t: Translation, b: seq<Range>)
    requires ValidRanges(ranges) && t == Translate(ranges, c, vaddr, Write) && b == Reached(c, ranges, Write, vaddr)
    requires t.To? && IsRamAt(b, t.paddr)
    ensures b[RangeAt(b, t.paddr)].tracked ==>
              b[RangeAt(b, t.paddr)].Dirty((t.paddr - b[RangeAt(b, t.paddr)].addr) / PAGE)
  {
    hide Reached, Translate, RangeAt, Range.Dirty, Range.Valid, Range.Covers, PageStart, ValidRanges;
    ReachedMarks(c, ranges, vaddr);
  }

  ghost predicate PlaceMarked(m: Machine, p: Place) {
    p.At? ==> p.range < |m.ranges| && (m.ranges[p.range].tracked ==> m.ranges[p.range].Dirty(p.offset / PAGE))
  }

  lemma StoreMissMarked(m: Machine, vaddr: nat, size: nat)
    requires size > 0 && |m.write| == TLB_SIZE && ValidRanges(m.ranges) && !Hit(m, Write, vaddr, size)
    ensures PlaceMarked(Refill(m, Write, vaddr), StorePlace(m, vaddr, size))
  {
    hide Reached, Translate, RangeAt, Range.Dirty, Range.Valid, Slot, Hit, Range.Covers, NewEntry, ValidRanges;
    var t, b := Translate(m.ranges, m.csr, vaddr, Write), Reached(m.csr, m.ranges, Write, vaddr);
    assert Refill(m, Write, vaddr).ranges == b;
    hide Refill;
    if t.To? && IsRamAt(b, t.paddr) { MissMarked(m.csr, m.ranges, vaddr, t, b); }
  }

  /** The page a store writes is marked before the store. */
  lemma StoreMarked(m: Machine, vaddr: nat, size: nat)
    requires m.Valid() && m.Tracks() && IsSize(size)
    ensures PlaceMarked(StoreMachine(m, vaddr, size), StorePlace(m, vaddr, size))
  {
    CsrOf(m);
    EntriesLength(m, Write);
    hide Machine.Valid, Machine.Tracks, Slot, Hit, ValidRanges, Refill, Range.Dirty;
    if Hit(m, Write, vaddr, size) {
      HitMarked(m, vaddr, size);
    } else {
      StoreMissMarked(m, vaddr, size);
    }
  }

  lemma StoreKeeps(m: Machine, vaddr: nat, bytes: seq<Byte>)
    requires m.Valid() && IsSize(|bytes|) && vaddr % |bytes| == 0
    ensures Store(m, vaddr, bytes).1.Valid()
    ensures m.Tracks() ==> Store(m, vaddr, bytes).1.Tracks()
    ensures m.Coherent() && SparesTables(m, vaddr, |bytes|) ==> Store(m, vaddr, bytes).1.Coherent()
  {
    StoreIsWrite(m, vaddr, bytes);
    RefillTracks(m, Write, vaddr);
    if m.Coherent() { RefillCoherent(m, Write, vaddr); }
    var p, m1 := StorePlace(m, vaddr, |bytes|), StoreMachine(m, vaddr, |bytes|);
    if m.Tracks() { StoreMarked(m, vaddr, |bytes|); }
    hide Machine.Valid, Machine.Tracks, Machine.Coherent, Store, Refill, StorePlace, AvoidsLive, Written, Hit;
    if p.At? { WrittenKeeps(m1, p.range, p.offset, bytes); }
  }

  /** The store does not overwrite a table entry that a live TLB entry was translated with. */
  ghost predicate SparesTables(m: Machine, vaddr: nat, size: nat)
    requires size > 0 && |m.write| == TLB_SIZE
  {
    var p := StorePlace(m, vaddr, size);
    p.At? ==> AvoidsLive(StoreMachine(m, vaddr, size), p.range, p.offset, size)
  }

  lemma StoreHitIsPlain(m: Machine, vaddr: nat, bytes: seq<Byte>)
    requires m.Valid() && m.Coherent() && m.Tracks() && IsSize(|bytes|) && Hit(m, Write, vaddr, |bytes|)
    ensures var e := m.write[Slot(vaddr)];
      PlainStore(m.csr, m.ranges, vaddr, bytes) ==
        (Ram(0), WriteAt(m.ranges, e.range, e.page * PAGE + vaddr % PAGE, bytes))
  {
    HitReached(m, vaddr, |bytes|);
    hide Translate, Reached, RangeAt, WriteAt, Slot, Hit, Machine.Valid, Machine.Tracks, Machine.Coherent, PageStart;
  }

  lemma StoreMissIsPlain(m: Machine, vaddr: nat, bytes: seq<Byte>)
    requires |bytes| > 0 && |m.write| == TLB_SIZE && !Hit(m, Write, vaddr, |bytes|)
    ensures Store(m, vaddr, bytes).0 == PlainStore(m.csr, m.ranges, vaddr, bytes).0
    ensures Store(m, vaddr, bytes).1.ranges == PlainStore(m.csr, m.ranges, vaddr, bytes).1
  {
    hide Translate, Reached, RangeAt, WriteAt, Slot, Hit, PageStart, NewEntry;
    assert Refill(m, Write, vaddr).ranges == Reached(m.csr, m.ranges, Write, vaddr);
  }

  /** A store has the effect it has without TLBs, on memory and on the dirty bitmaps. */
  lemma StoreIsPlain(m: Machine, vaddr: nat, bytes: seq<Byte>)
    requires m.Valid() && m.Coherent() && m.Tracks() && IsSize(|bytes|) && vaddr % |bytes| == 0
    ensures Store(m, vaddr, bytes).0 == PlainStore(m.csr, m.ranges, vaddr, bytes).0
    ensures Store(m, vaddr, bytes).1.ranges == PlainStore(m.csr, m.ranges, vaddr, bytes).1
  {
    EntriesLength(m, Write);
    hide Translate, RangeAt, WriteAt, Slot, Hit, Machine.Valid, Machine.Tracks, Machine.Coherent, PlainStore, Refill;
    if Hit(m, Write, vaddr, |bytes|) {
      StoreHitIsPlain(m, vaddr, bytes);
    } else {
      StoreMissIsPlain(m, vaddr, bytes);
    }
  }

  /** On a hit the slow path would change nothing: no bit to set in the tables, the page marked already. */
  lemma HitReached(m: Machine, vaddr: nat, size: nat)
    requires m.Valid() && m.Coherent() && m.Tracks() && IsSize(size) && Hit(m, Write, vaddr, size)
    ensures Reached(m.csr, m.ranges, Write, vaddr) == m.ranges
    ensures var t := Translate(m.ranges, m.csr, vaddr, Write);
      var e := m.write[Slot(vaddr)];
      t.To? && IsRamAt(m.ranges, t.paddr) && RangeAt(m.ranges, t.paddr) == e.range
      && t.paddr == m.ranges[e.range].addr + e.page * PAGE + vaddr % PAGE
  {
    HitTranslates(m, Write, vaddr, size);
    HitEntry(m, Write, vaddr, size);
    var e := m.write[Slot(vaddr)];
    assert m.WriteTracked(e);
    OffsetPage(e.page, vaddr % PAGE);
    assert m.ranges[e.range].Valid();
    SetDirtyAgain(m.ranges[e.range], e.page);
    assert MarkAt(m.ranges, e.range, e.page) == m.ranges;
    hide Translate, Touched, RangeAt, Slot, Hit, Machine.Valid, Machine.Tracks, Machine.Coherent, MarkAt;
  }

  lemma LoadKeeps(m: Machine, access: Access, vaddr: nat, size: nat)
    requires m.Valid() && size > 0
    ensures Load(m, access, vaddr, size).1.Valid()
    ensures m.Tracks() ==> Load(m, access, vaddr, size).1.Tracks()
    ensures m.Coherent() ==> Load(m, access, vaddr, size).1.Coherent()
  {
    RefillTracks(m, access, vaddr);
    if m.Coherent() { RefillCoherent(m, access, vaddr); }
    hide Machine.Valid, Machine.Tracks, Machine.Coherent, Refill, Translate, RangeAt, Hit;
  }

  /** phys_mem_get_ram_ptr for writing: the page is marked, and the address is in the buffer. */
  function HostPointer(m: Machine, paddr: nat): (Place, Machine) {
    if !IsRamAt(m.ranges, paddr) then (Nowhere, m)
    else
      var r := RangeAt(m.ranges, paddr);
      var o := paddr - m.ranges[r].addr;
      (At(r, o), m.(ranges := MarkAt(m.ranges, r, o / PAGE)))
  }

  /** A device write through that pointer, inside the page. */
  function HostWrite(m: Machine, paddr: nat, bytes: seq<Byte>): Machine {
    match HostPointer(m, paddr)
    case (Nowhere, m') => m'
    case (At(r, o), m') => Written(m', r, o, bytes)
  }

  ghost predicate HostSparesTables(m: Machine, paddr: nat, len: nat) {
    HostPointer(m, paddr).0.At? ==>
      AvoidsLive(HostPointer(m, paddr).1, HostPointer(m, paddr).0.range, HostPointer(m, paddr).0.offset, len)
  }

  lemma HostPointerKeeps(m: Machine, paddr: nat, len: nat)
    requires m.Valid() && paddr % PAGE + len <= PAGE
    ensures var (p, m') := HostPointer(m, paddr);
      && m'.Valid() && (m.Tracks() ==> m'.Tracks()) && (m.Coherent() ==> m'.Coherent())
      && (p.At? ==> p.range < |m'.ranges| && p.offset + len <= |m'.ranges[p.range].mem| &&
                    (m'.ranges[p.range].tracked ==> m'.ranges[p.range].Dirty(p.offset / PAGE)))
  {
    CsrOf(m);
    if IsRamAt(m.ranges, paddr) {
      PageOfRam(m.ranges, paddr);
      var r := RangeAt(m.ranges, paddr);
      var o := paddr - m.ranges[r].addr;
      var b := MarkAt(m.ranges, r, o / PAGE);
      assert m.ranges[r].Valid();
      MarkKeeps(m.ranges, r, o / PAGE);
      KeptMachine(m, b);
      hide MarkAt, RangeAt, Machine.Valid, Machine.Tracks, Keeps, Range.Dirty;
      assert o % PAGE == paddr % PAGE;
      if m.Coherent() { MarkedCoherent(m, b); }
      hide Machine.Coherent;
      SamePlaceMem(m.ranges, b, r);
    }
  }

  lemma SamePlaceMem(a: seq<Range>, b: seq<Range>, r: nat)
    requires SameMemory(a, b) && r < |a|
    ensures r < |b| && b[r].mem == a[r].mem && b[r].tracked == a[r].tracked
  {
    assert SamePlace(a[r], b[r]);
  }

  lemma MarkedCoherent(m: Machine, b: seq<Range>)
    requires m.Coherent() && SameMemory(m.ranges, b)
    ensures m.(ranges := b).Coherent()
  {
    forall access, i | 0 <= i < |m.Entries(access)| && m.Live(m.Entries(access)[i])
      ensures SameWalk(m.csr, m.ranges, b, access, m.Entries(access)[i].vaddr)
    {
      MarkSameWalk(m.csr, m.ranges, b, access, m.Entries(access)[i].vaddr);
    }
    hide SameWalk, NoTag;
    KeptCoherent(m, b);
  }

  lemma HostWriteKeeps(m: Machine, paddr: nat, bytes: seq<Byte>)
    requires m.Valid() && paddr % PAGE + |bytes| <= PAGE
    ensures HostWrite(m, paddr, bytes).Valid()
    ensures m.Tracks() ==> HostWrite(m, paddr, bytes).Tracks()
    ensures m.Coherent() && HostSparesTables(m, paddr, |bytes|) ==> HostWrite(m, paddr, bytes).Coherent()
  {
    HostPointerKeeps(m, paddr, |bytes|);
    var (p, m') := HostPointer(m, paddr);
    hide Machine.Valid, Machine.Tracks, Machine.Coherent, AvoidsLive, Written, HostPointer;
    if p.At? { WrittenKeeps(m', p.range, p.offset, bytes); }
  }

  // ----- runs

  datatype Op =
    | LoadOp(access: Access, vaddr: nat, size: nat)
    | StoreOp(vaddr: nat, bytes: seq<Byte>)
    | MstatusOp(value: Mstatus)
    | SatpOp(mode: nat, root: nat)
    | TrapOp(delegated: bool)
    | SretOp
    | MretOp
    | FenceOp
    | CollectOp(range: nat)
    | ResetOp(range: nat, page: nat)
    | HostOp(paddr: nat, bytes: seq<Byte>)
    | MoveOp(range: nat, addr: nat, enabled: bool)

  /** What the callers of an operation see to. */
  ghost predicate Called(m: Machine, op: Op) {
    match op
    case LoadOp(access, vaddr, size) => access != Write && IsSize(size) && vaddr % size == 0
    case StoreOp(vaddr, bytes) => IsSize(|bytes|) && vaddr % |bytes| == 0
    case MstatusOp(v) => v.Valid()
    case MretOp => m.csr.priv == PRV_M
    case CollectOp(r) => r < |m.ranges| && m.ranges[r].tracked
    case ResetOp(r, page) => r < |m.ranges|
    case HostOp(paddr, bytes) => paddr % PAGE + |bytes| <= PAGE
    case MoveOp(r, addr, enabled) => r < |m.ranges| && (m.ranges[r].isRam ==> addr % PAGE == 0)
    case _ => true
  }

  function Step(m: Machine, op: Op): Machine
    requires m.Valid() && Called(m, op)
  {
    match op
    case LoadOp(access, vaddr, size) => Load(m, access, vaddr, size).1
    case StoreOp(vaddr, bytes) => Store(m, vaddr, bytes).1
    case MstatusOp(v) => SetMstatus(m, v)
    case SatpOp(mode, root) => WriteSatp(m, mode, root)
    case TrapOp(delegated) => Trap(m, delegated)
    case SretOp => Sret(m)
    case MretOp => Mret(m)
    case FenceOp => FlushAll(m)
    case CollectOp(r) => GetDirtyBits(m, r).1
    case ResetOp(r, page) => ResetDirtyBit(m, r, page)
    case HostOp(paddr, bytes) => HostWrite(m, paddr, bytes)
    case MoveOp(r, addr, enabled) => SetAddr(m, r, addr, enabled)
  }

  /** What the guest sees of a step. */
  function Seen(m: Machine, op: Op): Outcome
    requires m.Valid() && Called(m, op)
  {
    match op
    case LoadOp(access, vaddr, size) => Load(m, access, vaddr, size).0
    case StoreOp(vaddr, bytes) => Store(m, vaddr, bytes).0
    case _ => NotRam
  }

  /** The hypotheses under which the TLBs stay coherent: no live table entry is overwritten, no RAM range moves, and no
      trap or return within machine mode changes the privilege of MPRV accesses. */
  ghost predicate Assumed(m: Machine, op: Op)
    requires m.Valid() && Called(m, op)
  {
    match op
    case StoreOp(vaddr, bytes) => SparesTables(m, vaddr, |bytes|)
    case HostOp(paddr, bytes) => HostSparesTables(m, paddr, |bytes|)
    case TrapOp(delegated) => TrapKeepsView(m.csr)
    case MretOp => MretKeepsView(m.csr)
    case MoveOp(r, addr, enabled) =>
      SetAddr(m, r, addr, enabled) == m || (!m.ranges[r].isRam && Disjoint(SetAddr(m, r, addr, enabled).ranges))
    case _ => true
  }

  /** Tracking is complete after every step; the TLBs are coherent after every step that meets the hypotheses. */
  lemma StepKeeps(m: Machine, op: Op)
    requires m.Valid() && m.Tracks() && Called(m, op)
    ensures Step(m, op).Valid() && Step(m, op).Tracks()
    ensures m.Coherent() && Assumed(m, op) ==> Step(m, op).Coherent()
  {
    if op.FenceOp? { FlushDrops(m, 0, 0, 0); if m.Coherent() { CoherentDisjoint(m); } }
    if op.SatpOp? { WriteSatpKeeps(m, op.mode, op.root); if m.Coherent() { CoherentDisjoint(m); } }
    hide Machine.Valid, Machine.Tracks, Machine.Coherent, Load, Store, SetMstatus, WriteSatp, Trap, Sret, Mret,
         FlushAll, GetDirtyBits, ResetDirtyBit, HostWrite, SetAddr, SparesTables, HostSparesTables, Disjoint;
    match op
    case LoadOp(access, vaddr, size) => LoadKeeps(m, access, vaddr, size);
    case StoreOp(vaddr, bytes) => StoreKeeps(m, vaddr, bytes);
    case MstatusOp(v) => SetMstatusKeeps(m, v);
    case TrapOp(delegated) => TrapKeeps(m, delegated);
    case SretOp => SretKeeps(m);
    case MretOp => MretKeeps(m);
    case CollectOp(r) => GetDirtyBitsKeeps(m, r);
    case ResetOp(r, page) => ResetDirtyBitKeeps(m, r, page);
    case HostOp(paddr, bytes) => HostWriteKeeps(m, paddr, bytes);
    case MoveOp(r, addr, enabled) => SetAddrKeeps(m, r, addr, enabled);
    case _ =>
  }

  /** Every operation of a run is called as it must be. */
  ghost predicate Runs(m: Machine, ops: seq<Op>)
    requires m.Valid() && m.Tracks()
    decreases |ops|
  {
    ops == [] ||
    (Called(m, ops[0]) &&
     (StepKeeps(m, ops[0]); Runs(Step(m, ops[0]), ops[1..])))
  }

  ghost function Run(m: Machine, ops: seq<Op>): (m': Machine)
    requires m.Valid() && m.Tracks() && Runs(m, ops)
    ensures m'.Valid() && m'.Tracks()
    decreases |ops|
  {
    if ops == [] then m else (StepKeeps(m, ops[0]); Run(Step(m, ops[0]), ops[1..]))
  }

  ghost predicate RunAssumed(m: Machine, ops: seq<Op>)
    requires m.Valid() && m.Tracks() && Runs(m, ops)
    decreases |ops|
  {
    ops == [] || (Assumed(m, ops[0]) && (StepKeeps(m, ops[0]); RunAssumed(Step(m, ops[0]), ops[1..])))
  }

  /** In every run that meets the hypotheses, every live entry is what the page walk would give now. */
  lemma {:induction false} RunCoherent(m: Machine, ops: seq<Op>)
    requires m.Valid() && m.Tracks() && m.Coherent() && Runs(m, ops) && RunAssumed(m, ops)
    ensures Run(m, ops).Coherent()
    decreases |ops|
  {
    hide Machine.Valid, Machine.Tracks, Machine.Coherent, Step, Assumed, Called;
    if ops != [] {
      StepKeeps(m, ops[0]);
      RunCoherent(Step(m, ops[0]), ops[1..]);
    }
  }

  /** No store is lost: after any run whatever, the next bitmap collected holds every page stored to since the last. */
  lemma RunCollects(m: Machine, ops: seq<Op>, r: nat, p: nat)
    requires m.Valid() && m.Tracks() && Runs(m, ops)
    requires var m' := Run(m, ops); r < |m'.ranges| && m'.ranges[r].tracked && p in m'.stored[r]
    ensures PageBit(GetDirtyBits(Run(m, ops), r).0, p)
  {
    var m' := Run(m, ops);
    hide Run, Machine.Tracks, Machine.Valid;
    CsrOf(m');
    GetDirtyBitsKeeps(m', r);
  }

  // ----- the machine without TLBs

  /** Same registers, memory and dirty bitmaps; the TLBs may differ. */
  ghost predicate Alike(m: Machine, f: Machine) {
    f.csr == m.csr && f.ranges == m.ranges
  }

  lemma FlushFields(m: Machine, r: nat, lo: nat, hi: nat)
    ensures FlushAll(m) == m.(read := FlushAll(m).read, write := FlushAll(m).write, code := FlushAll(m).code)
    ensures FlushWriteRange(m, r, lo, hi) == m.(write := FlushWriteRange(m, r, lo, hi).write)
  {
  }

  lemma FlushesKeep()
    ensures forall m: Machine :: FlushAll(m).csr == m.csr && FlushAll(m).ranges == m.ranges
  {
  }

  lemma SettingsAlike(m: Machine, f: Machine, op: Op)
    requires m.Valid() && f.Valid() && Alike(m, f) && Called(m, op)
    requires op.MstatusOp? || op.SatpOp? || op.TrapOp? || op.SretOp? || op.MretOp? || op.FenceOp?
    ensures Called(f, op) && Alike(Step(m, op), Step(f, op)) && Seen(m, op) == Seen(f, op)
  {
    hide Pow2, Machine.Valid, FlushAll, FlushWriteRange, GetDirtyBits, ResetDirtyBit, SetAddr, Load, Store, HostWrite,
         ClearPageBit, PageBit, Translate, RangeAt;
    FlushesKeep();
  }

  lemma PlacesAlike(m: Machine, f: Machine, op: Op)
    requires m.Valid() && f.Valid() && Alike(m, f) && Called(m, op) && (op.CollectOp? || op.ResetOp? || op.MoveOp?)
    ensures Called(f, op) && Alike(Step(m, op), Step(f, op)) && Seen(m, op) == Seen(f, op)
  {
    var r := op.range;
    CsrOf(m); CsrOf(f);
    hide Pow2, Machine.Valid, FlushWriteRange, FlushAll, SetMstatus, WriteSatp, Trap, Sret, Mret, Load, Store,
         HostWrite, PageBit, ClearPageBit, Swapped;
    var m', f' := m.(stored := Step(m, op).stored), f.(stored := Step(f, op).stored);
    FlushFields(m, r, 0, m.ranges[r].orgSize);
    FlushFields(f, r, 0, f.ranges[r].orgSize);
    if op.ResetOp? {
      FlushFields(m.(stored := m.stored[r := m.stored[r] - {op.page}]), r, op.page * PAGE, op.page * PAGE + PAGE);
      FlushFields(f.(stored := f.stored[r := f.stored[r] - {op.page}]), r, op.page * PAGE, op.page * PAGE + PAGE);
    }
  }

  lemma HostAlike(m: Machine, f: Machine, op: Op)
    requires m.Valid() && f.Valid() && Alike(m, f) && Called(m, op) && op.HostOp?
    ensures Called(f, op) && Alike(Step(m, op), Step(f, op)) && Seen(m, op) == Seen(f, op)
  {
    hide Pow2, NoTag, Range.Valid, Csr.Valid, Slot, RangeAt, WriteAt, MarkAt, Machine.ValidEntries;
  }

  lemma AccessAlike(m: Machine, f: Machine, op: Op)
    requires m.Valid() && m.Coherent() && m.Tracks() && f.Valid() && f.Coherent() && f.Tracks()
    requires Alike(m, f) && Called(m, op) && (op.LoadOp? || op.StoreOp?)
    ensures Called(f, op) && Seen(m, op) == Seen(f, op)
    ensures Alike(Step(m, op), Step(f, op))
  {
    hide Machine.Valid, Machine.Tracks, Machine.Coherent, PlainLoad, PlainStore;
    EntriesLength(m, Write); EntriesLength(f, Write);
    if op.LoadOp? {
      EntriesLength(m, op.access); EntriesLength(f, op.access);
      LoadIsPlain(m, op.access, op.vaddr, op.size);
      LoadIsPlain(f, op.access, op.vaddr, op.size);
      LoadCsr(m, op.access, op.vaddr, op.size);
      LoadCsr(f, op.access, op.vaddr, op.size);
    } else {
      StoreIsPlain(m, op.vaddr, op.bytes);
      StoreIsPlain(f, op.vaddr, op.bytes);
      StoreCsr(m, op.vaddr, op.bytes);
      StoreCsr(f, op.vaddr, op.bytes);
    }
  }

  lemma LoadCsr(m: Machine, access: Access, vaddr: nat, size: nat)
    requires size > 0 && |m.Entries(access)| == TLB_SIZE
    ensures Load(m, access, vaddr, size).1.csr == m.csr
  {
    hide Translate, RangeAt, Hit, NewEntry, Reached;
  }

  lemma StoreCsr(m: Machine, vaddr: nat, bytes: seq<Byte>)
    requires |bytes| > 0 && |m.write| == TLB_SIZE
    ensures Store(m, vaddr, bytes).1.csr == m.csr
  {
    hide Translate, RangeAt, Hit, NewEntry, Reached, WriteAt;
  }

  lemma StepAlike(m: Machine, f: Machine, op: Op)
    requires m.Valid() && m.Coherent() && m.Tracks() && f.Valid() && f.Coherent() && f.Tracks()
    requires Alike(m, f) && Called(m, op)
    ensures Called(f, op) && Seen(m, op) == Seen(f, op) && Alike(Step(m, op), Step(f, op))
  {
    hide Machine.Valid, Machine.Tracks, Machine.Coherent, Step, Seen, Called, Alike;
    match op
    case LoadOp(_, _, _) => AccessAlike(m, f, op);
    case StoreOp(_, _) => AccessAlike(m, f, op);
    case HostOp(_, _) => HostAlike(m, f, op);
    case CollectOp(_) => PlacesAlike(m, f, op);
    case ResetOp(_, _) => PlacesAlike(m, f, op);
    case MoveOp(_, _, _) => PlacesAlike(m, f, op);
    case _ => SettingsAlike(m, f, op);
  }

  /** `m` runs as the code does; `f` flushes its TLBs before every operation, so every access walks the tables. At
      every step both see the same outcome and agree on registers, memory and dirty bitmaps. */
  ghost predicate SameBehaviour(m: Machine, f: Machine, ops: seq<Op>)
    decreases |ops|
  {
    Alike(m, f) &&
    (ops == [] ||
     var f' := FlushAll(f);
     m.Valid() && f'.Valid() && Called(m, ops[0]) && Called(f', ops[0]) &&
     Seen(m, ops[0]) == Seen(f', ops[0]) &&
     SameBehaviour(Step(m, ops[0]), Step(f', ops[0]), ops[1..]))
  }

  /** The software TLBs are a fast form of the page walk: in every run that meets the hypotheses they cannot be told
      from their absence. */
  lemma {:induction false} TlbsAreInvisible(m: Machine, f: Machine, ops: seq<Op>)
    requires m.Valid() && m.Tracks() && m.Coherent() && Runs(m, ops) && RunAssumed(m, ops)
    requires Alike(m, f) && f.Valid() && f.StoresTracked()
    ensures SameBehaviour(m, f, ops)
    decreases |ops|
  {
    hide Machine.Valid, Machine.Coherent, Machine.WritesTracked, Machine.StoresTracked, Step, Seen, Assumed, Called,
         FlushAll, Disjoint;
    if ops != [] {
      var f' := FlushAll(f);
      CoherentDisjoint(m);
      FlushDrops(f, 0, 0, 0);
      assert Alike(m, f') by { FlushAlike(f); }
      StepAlike(m, f', ops[0]);
      StepKeeps(m, ops[0]);
      StepKeeps(f', ops[0]);
      TlbsAreInvisible(Step(m, ops[0]), Step(f', ops[0]), ops[1..]);
    }
  }

  lemma FlushAlike(f: Machine)
    ensures Alike(f, FlushAll(f))
  {
  }
}
