/** Whole runs of the machine and the frame buffer together (simplefb.c: simplefb_refresh, on the bitmap that
    phys_mem_get_dirty_bits collects). */
module FrameRuns {
  import opened Powers
  import opened PhysMemory
  import opened PageWalk
  import opened Tlb
  import opened MachineRuns
  import opened StoredPages
  import opened SimpleFb

  function Pages(r: Range): nat { r.orgSize / PAGE }

  lemma Collected(m: Machine, r: nat)
    requires m.Valid() && r < |m.ranges| && m.ranges[r].tracked
    ensures IsBitmap(GetDirtyBits(m, r).0, Pages(m.ranges[r]))
    ensures r < |GetDirtyBits(m, r).1.stored| && GetDirtyBits(m, r).1.stored[r] == {}
  {
    hide IsBitmap, FlushWriteRange, AnyWord, Swapped;
    assert m.ranges[r].Valid();
  }

  /** Whatever ran before, every visible row of every page of the buffer that was stored to since the last collection
      lies in a redraw of the next refresh: no store is lost between the write TLB, the bitmap and the merging of the
      bands. */
  lemma StoredRowsAreRedrawn(m: Machine, ops: seq<Op>, r: nat, f: Fb, page: nat, row: nat)
    requires m.Valid() && m.Tracks() && Runs(m, ops) && ValidFb(f)
    requires var m' := Run(m, ops); r < |m'.ranges| && m'.ranges[r].tracked && page in m'.stored[r]
    requires row < f.height && RowInPage(f, row, page)
    ensures var m' := Run(m, ops);
      Covered(Redraws(f, GetDirtyBits(m', r).0, Pages(m'.ranges[r])), row)
  {
    RunCollects(m, ops, r, page);
    Collected(Run(m, ops), r);
    hide *;
    InBitmap(GetDirtyBits(Run(m, ops), r).0, Pages(Run(m, ops).ranges[r]), page);
    DirtyRowsAreRedrawn(f, GetDirtyBits(Run(m, ops), r).0, Pages(Run(m, ops).ranges[r]), page, row);
  }

  /** The same told by the store: whatever follows it, the next refresh redraws the visible rows of its page. */
  lemma StoreIsRedrawn(m: Machine, ops: seq<Op>, r: nat, f: Fb, page: nat, row: nat)
    requires m.Valid() && m.Tracks() && m.Coherent() && Runs(m, ops) && ValidFb(f)
    requires ops != [] && StoresTo(m, ops[0], r, page) && forall k :: 0 < k < |ops| ==> !Cleans(ops[k], r, page)
    requires var m' := Run(m, ops); r < |m'.ranges| && m'.ranges[r].tracked
    requires row < f.height && RowInPage(f, row, page)
    ensures var m' := Run(m, ops);
      Covered(Redraws(f, GetDirtyBits(m', r).0, Pages(m'.ranges[r])), row)
  {
    StoreIsCollected(m, ops, r, page);
    Collected(Run(m, ops), r);
    hide *;
    InBitmap(GetDirtyBits(Run(m, ops), r).0, Pages(Run(m, ops).ranges[r]), page);
    DirtyRowsAreRedrawn(f, GetDirtyBits(Run(m, ops), r).0, Pages(Run(m, ops).ranges[r]), page, row);
  }

  lemma InBitmap(b: seq<nat>, pages: nat, page: nat)
    requires IsBitmap(b, pages) && PageBit(b, page)
    ensures page < pages
  {
  }

  /** simplefb_refresh with the collection of the bitmap, after any run. */
  method RefreshFrame(m: Machine, r: nat, f: Fb, ghost m0: Machine, ghost ops: seq<Op>)
    returns (redraws: seq<Band>, m': Machine)
    requires m0.Valid() && m0.Tracks() && Runs(m0, ops) && m == Run(m0, ops) && m.Valid()
    requires r < |m.ranges| && m.ranges[r].tracked && ValidFb(f)
    ensures m' == GetDirtyBits(m, r).1 && r < |m'.stored| && m'.stored[r] == {}
    ensures redraws == Redraws(f, GetDirtyBits(m, r).0, Pages(m.ranges[r]))
    ensures forall page, row: nat :: page in m.stored[r] && row < f.height && RowInPage(f, row, page) ==>
      Covered(redraws, row)
  {
    Collected(m, r);
    hide *;
    var (dirty, next) := GetDirtyBits(m, r);
    redraws := Refresh(f, dirty, Pages(m.ranges[r]));
    m' := next;
    forall page, row: nat | page in m.stored[r] && row < f.height && RowInPage(f, row, page)
      ensures Covered(redraws, row)
    {
      StoredRowsAreRedrawn(m0, ops, r, f, page, row);
    }
  }
}
