/** The software TLBs and dirty tracking (riscv_cpu.c, riscv_cpu_priv.h, iomem.c) as steps of a machine, with the two
    invariants of its runs: live entries agree with the page walk, and no store is lost to dirty tracking. */
module Tlb {
  import opened Powers
  import opened PhysMemory
  import opened PageWalk

  const TLB_SIZE: nat := 256

  /** TLBEntry. The host address of an entry is kept as a page of the buffer of a range. */
  datatype Entry = Entry(vaddr: nat, range: nat, page: nat)

  /** The tag that no access matches: all ones. */
  function NoTag(maxXlen: nat): nat { Pow2(maxXlen) - 1 }

  function Slot(vaddr: nat): (i: nat)
    ensures i < TLB_SIZE
  {
    vaddr / PAGE % TLB_SIZE
  }

  function PageStart(vaddr: nat): nat { vaddr / PAGE * PAGE }

  /** What the fast paths compare with the tag: the low bits of the access are kept. */
  function Tag(vaddr: nat, size: nat): nat
    requires size > 0
  {
    vaddr / PAGE * PAGE + vaddr % size
  }

  predicate IsSize(n: nat) { n == 1 || n == 2 || n == 4 || n == 8 || n == 16 }

  /** A fast-path hit implies an aligned access to the page of the entry. */
  lemma HitMeansAligned(tag: nat, vaddr: nat, size: nat, maxXlen: nat)
    requires IsSize(size) && maxXlen >= 12 && (tag == NoTag(maxXlen) || tag % PAGE == 0)
    ensures tag == Tag(vaddr, size) <==> tag != NoTag(maxXlen) && tag == PageStart(vaddr) && vaddr % size == 0
  {
    NoTagOffset(maxXlen);
    hide NoTag;
    TagOffset(vaddr / PAGE, vaddr % size);
    TagOffset(vaddr / PAGE, 0);
  }

  lemma TagOffset(q: nat, r: nat)
    requires r < PAGE
    ensures (q * PAGE + r) % PAGE == r
  {
    DivModUnique(q * PAGE + r, PAGE, q, r);
  }

  lemma NoTagOffset(maxXlen: nat)
    requires maxXlen >= 12
    ensures NoTag(maxXlen) % PAGE == PAGE - 1
  {
    Pow2Add(12, maxXlen - 12);
    assert Pow2(12) == PAGE;
    var p := Pow2(maxXlen - 12);
    hide Pow2;
    DivModUnique(PAGE * p - 1, PAGE, p - 1, PAGE - 1);
  }

  /** `stored` records, range by range, the pages stored to since their bitmap was last collected. */
  datatype Machine = Machine(csr: Csr, ranges: seq<Range>, read: seq<Entry>, write: seq<Entry>, code: seq<Entry>,
                             stored: seq<set<nat>>) {
    function Entries(access: Access): (s: seq<Entry>)
      ensures s == read || s == write || s == code
    {
      match access case Read => read case Write => write case Code => code
    }

    predicate Live(e: Entry) { e.vaddr != NoTag(csr.maxXlen) }

    /** Every live entry lies in its slot and inside the buffer of a RAM range: fast accesses stay inside it. */
    ghost predicate Valid() {
      && csr.Valid() && ValidRanges(ranges) && |stored| == |ranges|
      && |read| == |write| == |code| == TLB_SIZE
      && ValidEntries(Read) && ValidEntries(Write) && ValidEntries(Code)
    }

    ghost predicate ValidEntries(access: Access)
      requires |Entries(access)| == TLB_SIZE
    {
      forall i :: 0 <= i < TLB_SIZE && Live(Entries(access)[i]) ==> ValidEntry(Entries(access)[i], i)
    }

    ghost predicate ValidEntry(e: Entry, i: nat) {
      && e.vaddr % PAGE == 0 && Slot(e.vaddr) == i
      && e.range < |ranges| && ranges[e.range].isRam && (e.page + 1) * PAGE <= ranges[e.range].orgSize
    }

    // ----- the first invariant: the TLBs agree with the page walk

    /** The entry is what the walk would give now, with nothing left to set in the leaf. */
    ghost predicate EntryAgrees(access: Access, e: Entry) {
      var t := Translate(ranges, csr, e.vaddr, access);
      && t.To? && !Touches(ranges, csr, e.vaddr, access)
      && IsRamAt(ranges, t.paddr) && RangeAt(ranges, t.paddr) == e.range
      && t.paddr == ranges[e.range].addr + e.page * PAGE
    }

    ghost predicate Coherent() {
      Disjoint(ranges) && Agrees(Read) && Agrees(Write) && Agrees(Code)
    }

    ghost predicate Agrees(access: Access) {
      forall i :: 0 <= i < |Entries(access)| && Live(Entries(access)[i]) ==> EntryAgrees(access, Entries(access)[i])
    }

    // ----- the second invariant: dirty tracking

    /** Every live write entry points into a mapped range, to a page already marked in its current bitmap. */
    ghost predicate WritesTracked() {
      forall i :: 0 <= i < |write| && Live(write[i]) ==> WriteTracked(write[i])
    }

    ghost predicate WriteTracked(e: Entry) {
      e.range < |ranges| && ranges[e.range].size != 0 && (ranges[e.range].tracked ==> ranges[e.range].Dirty(e.page))
    }

    /** Every page stored to since the last collection is marked in the current bitmap. */
    ghost predicate StoresTracked() {
      |stored| == |ranges| &&
      forall r, p :: 0 <= r < |ranges| && ranges[r].tracked && p in stored[r] ==> ranges[r].Dirty(p)
    }

    ghost predicate Tracks() { WritesTracked() && StoresTracked() }
  }

  // ----- dirty bitmaps of a range

  /** phys_mem_set_dirty_bit */
  function SetDirty(r: Range, page: nat): Range {
    if r.tracked && r.index < |r.bits| && page / 32 < |r.bits[r.index]|
    then r.(bits := r.bits[r.index := SetPageBit(r.bits[r.index], page)]) else r
  }

  lemma SetDirtyMarks(r: Range, page: nat)
    requires r.Valid() && r.isRam && (page + 1) * PAGE <= r.orgSize
    ensures var r' := SetDirty(r, page);
      r'.Valid() && r' == r.(bits := r'.bits) &&
        (r.tracked ==> forall p: nat :: r'.Dirty(p) <==> p == page || r.Dirty(p))
  {
    if r.tracked {
      PageInRange(page, r.orgSize);
      var b := r.bits[r.index];
      SetPageBitValid(b, page, r.orgSize / PAGE);
      forall p: nat ensures PageBit(SetPageBit(b, page), p) <==> p == page || PageBit(b, p) {
        SetPageBitAt(b, page, p);
      }
      hide IsBitmap, PageBit, SetPageBit;
    }
  }

  lemma PageInRange(page: nat, size: nat)
    requires (page + 1) * PAGE <= size
    ensures page < size / PAGE
  {
  }

  /** Marking a marked page changes nothing. */
  lemma SetDirtyAgain(r: Range, page: nat)
    requires r.Valid() && r.isRam && (page + 1) * PAGE <= r.orgSize && (r.tracked ==> r.Dirty(page))
    ensures SetDirty(r, page) == r
  {
    SetDirtyMarks(r, page);
    if r.tracked {
      var b := r.bits[r.index];
      SetBitAgain(b[page / 32], page % 32);
      assert SetPageBit(b, page) == b;
      assert r.bits[r.index := b] == r.bits;
    }
  }

  lemma {:induction false} SetBitAgain(w: nat, k: nat)
    requires BitAt(w, k)
    ensures SetBit(w, k) == w
  {
    if k > 0 { SetBitAgain(w / 2, k - 1); }
  }

  // ----- memory accesses

  /** The tag of an access; instruction addresses are known to be even. */
  function TagOf(access: Access, vaddr: nat, size: nat): nat
    requires size > 0
  {
    if access == Code then PageStart(vaddr) else Tag(vaddr, size)
  }

  predicate Hit(m: Machine, access: Access, vaddr: nat, size: nat)
    requires size > 0 && |m.Entries(access)| == TLB_SIZE
  {
    m.Entries(access)[Slot(vaddr)].vaddr == TagOf(access, vaddr, size)
  }

  function LoadAt(ranges: seq<Range>, r: nat, o: nat, n: nat): nat {
    if r < |ranges| && o + n <= |ranges[r].mem| then Word(ranges[r].mem, o, n) else 0
  }

  function WriteAt(ranges: seq<Range>, r: nat, o: nat, bytes: seq<Byte>): seq<Range> {
    if r < |ranges| && o + |bytes| <= |ranges[r].mem| then WriteRam(ranges, r, o, bytes) else ranges
  }

  function MarkAt(ranges: seq<Range>, r: nat, page: nat): seq<Range>
    requires r < |ranges|
  {
    ranges[r := SetDirty(ranges[r], page)]
  }

  function SetEntry(m: Machine, access: Access, i: nat, e: Entry): Machine
    requires i < |m.Entries(access)|
  {
    match access
    case Read => m.(read := m.read[i := e])
    case Write => m.(write := m.write[i := e])
    case Code => m.(code := m.code[i := e])
  }

  /** Physical memory after the walk of an access, with the page marked dirty for a write to RAM. */
  function Reached(c: Csr, ranges: seq<Range>, access: Access, vaddr: nat): seq<Range> {
    var t := Translate(ranges, c, vaddr, access);
    var b := Touched(ranges, c, vaddr, access);
    if t.PageFault? then ranges
    else if access == Write && IsRamAt(b, t.paddr) then
      MarkAt(b, RangeAt(b, t.paddr), (t.paddr - b[RangeAt(b, t.paddr)].addr) / PAGE)
    else b
  }

  /** The entry that the slow path makes for an access to RAM at `paddr`. */
  function NewEntry(ranges: seq<Range>, vaddr: nat, paddr: nat): Entry
    requires IsRamAt(ranges, paddr)
  {
    var r := RangeAt(ranges, paddr);
    Entry(PageStart(vaddr), r, (paddr - ranges[r].addr) / PAGE)
  }

  /** The slow path up to the access itself: the walk, the dirty bit of a write, the new entry. */
  function Refill(m: Machine, access: Access, vaddr: nat): Machine
    requires |m.Entries(access)| == TLB_SIZE
  {
    var t := Translate(m.ranges, m.csr, vaddr, access);
    var b := Reached(m.csr, m.ranges, access, vaddr);
    var m' := m.(ranges := b);
    if t.PageFault? || !IsRamAt(b, t.paddr) then m'
    else SetEntry(m', access, Slot(vaddr), NewEntry(b, vaddr, t.paddr))
  }

  /** The result of an access: NotRam stands for devices and unmapped addresses. */
  datatype Outcome = AccessFault | Ram(value: nat) | NotRam

  /** target_read_u* and target_read_insn_u16, for an aligned address. */
  function Load(m: Machine, access: Access, vaddr: nat, size: nat): (Outcome, Machine)
    requires size > 0 && |m.Entries(access)| == TLB_SIZE
  {
    var e := m.Entries(access)[Slot(vaddr)];
    if Hit(m, access, vaddr, size) then (Ram(LoadAt(m.ranges, e.range, e.page * PAGE + vaddr % PAGE, size)), m)
    else
      var t, m' := Translate(m.ranges, m.csr, vaddr, access), Refill(m, access, vaddr);
      if t.PageFault? then (AccessFault, m)
      else if !IsRamAt(m'.ranges, t.paddr) then (NotRam, m')
      else
        var r := RangeAt(m'.ranges, t.paddr);
        (Ram(LoadAt(m'.ranges, r, t.paddr - m'.ranges[r].addr, size)), m')
  }

  function StoredPage(m: Machine, r: nat, page: nat): seq<set<nat>> {
    if r < |m.stored| then m.stored[r := m.stored[r] + {page}] else m.stored
  }

  /** target_write_u*, for an aligned address. */
  function Store(m: Machine, vaddr: nat, bytes: seq<Byte>): (Outcome, Machine)
    requires |bytes| > 0 && |m.write| == TLB_SIZE
  {
    var e := m.write[Slot(vaddr)];
    if Hit(m, Write, vaddr, |bytes|) then
      (Ram(0), m.(ranges := WriteAt(m.ranges, e.range, e.page * PAGE + vaddr % PAGE, bytes),
                  stored := StoredPage(m, e.range, e.page)))
    else
      var t, m' := Translate(m.ranges, m.csr, vaddr, Write), Refill(m, Write, vaddr);
      if t.PageFault? then (AccessFault, m)
      else if !IsRamAt(m'.ranges, t.paddr) then (NotRam, m')
      else
        var r := RangeAt(m'.ranges, t.paddr);
        var o := t.paddr - m'.ranges[r].addr;
        (Ram(0), m'.(ranges := WriteAt(m'.ranges, r, o, bytes), stored := StoredPage(m', r, o / PAGE)))
  }

  // ----- the same accesses on a machine without TLBs

  function PlainLoad(c: Csr, ranges: seq<Range>, access: Access, vaddr: nat, size: nat): (Outcome, seq<Range>) {
    var t, b := Translate(ranges, c, vaddr, access), Touched(ranges, c, vaddr, access);
    if t.PageFault? then (AccessFault, ranges)
    else if !IsRamAt(b, t.paddr) then (NotRam, b)
    else (Ram(LoadAt(b, RangeAt(b, t.paddr), t.paddr - b[RangeAt(b, t.paddr)].addr, size)), b)
  }

  function PlainStore(c: Csr, ranges: seq<Range>, vaddr: nat, bytes: seq<Byte>): (Outcome, seq<Range>) {
    var t, b := Translate(ranges, c, vaddr, Write), Reached(c, ranges, Write, vaddr);
    if t.PageFault? then (AccessFault, ranges)
    else if !IsRamAt(b, t.paddr) then (NotRam, b)
    else
      var r := RangeAt(b, t.paddr);
      (Ram(0), WriteAt(b, r, t.paddr - b[r].addr, bytes))
  }

  // ----- hits

  lemma HitEntry(m: Machine, access: Access, vaddr: nat, size: nat)
    requires m.Valid() && IsSize(size) && Hit(m, access, vaddr, size) && (access == Code ==> vaddr % size == 0)
    ensures var e := m.Entries(access)[Slot(vaddr)];
      && m.Live(e) && e.vaddr == PageStart(vaddr) && vaddr % size == 0
      && m.ValidEntry(e, Slot(vaddr))
      && e.page * PAGE + vaddr % PAGE + size <= |m.ranges[e.range].mem|
  {
    var e := m.Entries(access)[Slot(vaddr)];
    assert m.ValidEntries(access);
    assert m.Live(e) ==> m.ValidEntry(e, Slot(vaddr));
    HitMeansAligned(e.vaddr, vaddr, size, m.csr.maxXlen);
    NoTagOffset(m.csr.maxXlen);
    TagOffset(vaddr / PAGE, 0);
    hide NoTag;
    AlignedInPage(vaddr, size);
  }

  lemma AlignedInPage(vaddr: nat, size: nat)
    requires IsSize(size) && vaddr % size == 0
    ensures vaddr % PAGE + size <= PAGE
  {
    var w, q := vaddr / size, vaddr / PAGE;
    assert vaddr == size * w && vaddr == PAGE * q + vaddr % PAGE;
    var k := if size == 1 then 4096 else if size == 2 then 2048 else if size == 4 then 1024
             else if size == 8 then 512 else 256;
    assert size * k == PAGE;
    MultipleBelow(size, k, w - k * q, vaddr % PAGE) by { assert size * (w - k * q) == size * w - size * k * q; }
  }

  lemma MultipleBelow(n: nat, k: nat, x: int, r: nat)
    requires n * x == r && r < n * k
    ensures r + n <= n * k
  {
    if x >= k { NonNegativeProduct(n, x - k); } else { NonNegativeProduct(n, k - 1 - x); }
  }

  lemma NonNegativeProduct(n: nat, d: nat)
    ensures n * d >= 0
  {
  }

  lemma SplitAddr(vaddr: nat)
    ensures InPage(vaddr, vaddr / PAGE, vaddr % PAGE) && InPage(PageStart(vaddr), vaddr / PAGE, 0)
  {
  }

  /** A hit in a coherent machine is at the translated address, and the walk has nothing to set. */
  lemma HitTranslates(m: Machine, access: Access, vaddr: nat, size: nat)
    requires m.Valid() && m.Coherent() && IsSize(size) && Hit(m, access, vaddr, size) &&
             (access == Code ==> vaddr % size == 0)
    ensures var e := m.Entries(access)[Slot(vaddr)];
      var t := Translate(m.ranges, m.csr, vaddr, access);
      && t.To? && Touched(m.ranges, m.csr, vaddr, access) == m.ranges
      && IsRamAt(m.ranges, t.paddr) && RangeAt(m.ranges, t.paddr) == e.range
      && t.paddr == m.ranges[e.range].addr + e.page * PAGE + vaddr % PAGE
  {
    HitEntry(m, access, vaddr, size);
    var e := m.Entries(access)[Slot(vaddr)];
    assert m.EntryAgrees(access, e);
    SplitAddr(vaddr);
    hide Translate, InPage, RangeAt;
    SamePageTranslates(m.ranges, m.csr, e.vaddr, vaddr, vaddr / PAGE, 0, vaddr % PAGE, access);
    var p := Translate(m.ranges, m.csr, e.vaddr, access).paddr;
    SamePageOffset(p, vaddr % PAGE);
    SamePageLookup(m.ranges, p, p + vaddr % PAGE);
  }

  lemma SamePageOffset(p: nat, o: nat)
    requires p % PAGE == 0 && o < PAGE
    ensures p / PAGE == (p + o) / PAGE
  {
  }

  // ----- the TLBs are invisible

  lemma HitIsPlain(m: Machine, access: Access, vaddr: nat, size: nat)
    requires m.Valid() && m.Coherent() && IsSize(size) && Hit(m, access, vaddr, size) &&
             (access == Code ==> vaddr % size == 0)
    ensures var e := m.Entries(access)[Slot(vaddr)];
      PlainLoad(m.csr, m.ranges, access, vaddr, size)
        == (Ram(LoadAt(m.ranges, e.range, e.page * PAGE + vaddr % PAGE, size)), m.ranges)
  {
    hide Translate, Touched, RangeAt, LoadAt, Slot, PageStart, TagOf;
    HitTranslates(m, access, vaddr, size);
  }

  /** A load or fetch delivers what the walk and memory give, and leaves memory as the walk leaves it. */
  lemma LoadIsPlain(m: Machine, access: Access, vaddr: nat, size: nat)
    requires m.Valid() && m.Coherent() && access != Write && IsSize(size) && vaddr % size == 0
    ensures Load(m, access, vaddr, size).0 == PlainLoad(m.csr, m.ranges, access, vaddr, size).0
    ensures Load(m, access, vaddr, size).1.ranges == PlainLoad(m.csr, m.ranges, access, vaddr, size).1
  {
    hide Translate, Touched, RangeAt, LoadAt, Slot, PageStart, TagOf, Hit, Refill, Machine.Valid, Machine.Coherent,
         PlainLoad;
    assert |m.Entries(access)| == TLB_SIZE by { EntriesLength(m, access); }
    if Hit(m, access, vaddr, size) {
      HitIsPlain(m, access, vaddr, size);
    } else {
      MissIsPlain(m, access, vaddr, size);
    }
  }

  lemma EntriesLength(m: Machine, access: Access)
    requires m.Valid()
    ensures |m.Entries(access)| == TLB_SIZE && m.ValidEntries(access)
  {
  }

  lemma MissIsPlain(m: Machine, access: Access, vaddr: nat, size: nat)
    requires size > 0 && |m.Entries(access)| == TLB_SIZE && !Hit(m, access, vaddr, size) && access != Write
    ensures Load(m, access, vaddr, size).0 == PlainLoad(m.csr, m.ranges, access, vaddr, size).0
    ensures Load(m, access, vaddr, size).1.ranges == PlainLoad(m.csr, m.ranges, access, vaddr, size).1
  {
    hide Translate, Touched, RangeAt, LoadAt, Slot, PageStart, TagOf, Hit;
  }

  /** The page of an address that a RAM range covers lies inside its buffer. */
  lemma PageOfRam(ranges: seq<Range>, p: nat)
    requires ValidRanges(ranges) && IsRamAt(ranges, p)
    ensures var r := ranges[RangeAt(ranges, p)]; var o := p - r.addr;
      o < r.orgSize && (o / PAGE + 1) * PAGE <= r.orgSize && r.size != 0 && o == o / PAGE * PAGE + p % PAGE
  {
    var r := ranges[RangeAt(ranges, p)];
    assert r.Valid();
    var k, q := r.orgSize / PAGE, r.addr / PAGE;
    assert r.orgSize == k * PAGE && r.addr == q * PAGE;
  }

  /** Memory with the same ranges in the same places, and no dirty bit lost. */
  ghost predicate Keeps(a: seq<Range>, b: seq<Range>) {
    && SamePlacement(a, b) && ValidRanges(b)
    && forall i, p: nat :: 0 <= i < |a| && a[i].Dirty(p) ==> b[i].Dirty(p)
  }

  lemma KeepsTransitive(a: seq<Range>, b: seq<Range>, c: seq<Range>)
    requires Keeps(a, b) && Keeps(b, c)
    ensures Keeps(a, c)
  {
    hide Range.Dirty, Range.Valid;
    forall i | 0 <= i < |a| ensures SamePlace(a[i], c[i]) {
      assert SamePlace(a[i], b[i]) && SamePlace(b[i], c[i]);
    }
  }

  lemma MarkKeeps(ranges: seq<Range>, r: nat, page: nat)
    requires ValidRanges(ranges) && r < |ranges| && ranges[r].isRam && (page + 1) * PAGE <= ranges[r].orgSize
    ensures Keeps(ranges, MarkAt(ranges, r, page)) && SameMemory(ranges, MarkAt(ranges, r, page))
    ensures ranges[r].tracked ==> MarkAt(ranges, r, page)[r].Dirty(page)
  {
    SetDirtyMarks(ranges[r], page);
  }

  lemma WriteAtKeeps(ranges: seq<Range>, r: nat, o: nat, bytes: seq<Byte>)
    requires ValidRanges(ranges)
    ensures Keeps(ranges, WriteAt(ranges, r, o, bytes))
  {
  }

  lemma TouchedKeeps(ranges: seq<Range>, c: Csr, v: nat, access: Access)
    requires ValidRanges(ranges)
    ensures Keeps(ranges, Touched(ranges, c, v, access))
  {
    hide CheckedLeaf, Updated, NeedsUpdate, RangeAt, Bare;
    var l := CheckedLeaf(ranges, c, v, access);
    if l.Leaf? && IsRamAt(ranges, l.addr) {
      assert ranges[RangeAt(ranges, l.addr)].Covers(l.addr);
      WriteAtKeeps(ranges, RangeAt(ranges, l.addr), l.addr - ranges[RangeAt(ranges, l.addr)].addr,
                   BytesOf(Updated(l.pte, access), c.PteSize()));
    }
  }

  lemma MarkRamKeeps(b: seq<Range>, p: nat)
    requires ValidRanges(b) && IsRamAt(b, p)
    ensures var r := RangeAt(b, p); Keeps(b, MarkAt(b, r, (p - b[r].addr) / PAGE))
  {
    PageOfRam(b, p);
    var r := RangeAt(b, p);
    hide RangeAt, MarkAt, Keeps;
    MarkKeeps(b, r, (p - b[r].addr) / PAGE);
  }

  /** What the slow path does to memory, whether it succeeds or not. */
  lemma ReachedKeeps(c: Csr, ranges: seq<Range>, access: Access, vaddr: nat)
    requires ValidRanges(ranges)
    ensures Keeps(ranges, Reached(c, ranges, access, vaddr))
  {
    TouchedKeeps(ranges, c, vaddr, access);
    var b := Touched(ranges, c, vaddr, access);
    KeepsSelf(ranges);
    KeptValid(ranges, b);
    hide Touched, Translate, RangeAt, Keeps, MarkAt, Range.Covers, ValidRanges;
    var t := Translate(ranges, c, vaddr, access);
    if t.To? && access == Write && IsRamAt(b, t.paddr) {
      MarkRamKeeps(b, t.paddr);
      KeepsTransitive(ranges, b, Reached(c, ranges, access, vaddr));
    }
  }

  lemma KeepsSelf(a: seq<Range>)
    requires ValidRanges(a)
    ensures Keeps(a, a)
  {
  }

  lemma KeptValid(a: seq<Range>, b: seq<Range>)
    requires Keeps(a, b)
    ensures ValidRanges(b) && SamePlacement(a, b)
  {
  }

  // ----- validity and tracking

  lemma KeptMachine(m: Machine, b: seq<Range>)
    requires m.Valid() && Keeps(m.ranges, b)
    ensures m.(ranges := b).Valid()
    ensures m.Tracks() ==> m.(ranges := b).Tracks()
  {
    var m' := m.(ranges := b);
    hide Range.Dirty, Range.Valid, Csr.Valid, Slot, NoTag;
    assert |m'.ranges| == |m.ranges|;
    KeptEntries(m, b, Read);
    KeptEntries(m, b, Write);
    KeptEntries(m, b, Code);
    if m.Tracks() {
      forall i | 0 <= i < |m.write| && m.Live(m.write[i]) ensures m'.WriteTracked(m.write[i]) {
        assert m.WriteTracked(m.write[i]);
        assert SamePlace(m.ranges[m.write[i].range], b[m.write[i].range]);
      }
      forall r, p | 0 <= r < |b| && b[r].tracked && p in m.stored[r] ensures b[r].Dirty(p) {
        assert SamePlace(m.ranges[r], b[r]);
        assert m.ranges[r].Dirty(p);
      }
    }
  }

  lemma KeptEntries(m: Machine, b: seq<Range>, access: Access)
    requires m.Valid() && SamePlacement(m.ranges, b)
    ensures m.(ranges := b).ValidEntries(access)
  {
    EntriesLength(m, access);
    hide Range.Valid, Csr.Valid, Slot, NoTag;
    var m' := m.(ranges := b);
    forall i | 0 <= i < TLB_SIZE && m'.Live(m'.Entries(access)[i]) ensures m'.ValidEntry(m'.Entries(access)[i], i) {
      var e := m.Entries(access)[i];
      assert m.ValidEntry(e, i);
      assert SamePlace(m.ranges[e.range], b[e.range]);
    }
  }

  lemma SetEntryValid(m: Machine, access: Access, i: nat, e: Entry)
    requires m.Valid() && i < TLB_SIZE && m.ValidEntry(e, i)
    ensures SetEntry(m, access, i, e).Valid()
    ensures m.Tracks() && (access == Write ==> m.WriteTracked(e)) ==> SetEntry(m, access, i, e).Tracks()
  {
    hide Range.Dirty, Range.Valid, Csr.Valid, Slot, NoTag;
    SetEntryIn(m, access, i, e, Read);
    SetEntryIn(m, access, i, e, Write);
    SetEntryIn(m, access, i, e, Code);
  }

  lemma SetEntryIn(m: Machine, access: Access, i: nat, e: Entry, any: Access)
    requires m.Valid() && i < TLB_SIZE && m.ValidEntry(e, i)
    ensures |SetEntry(m, access, i, e).Entries(any)| == TLB_SIZE && SetEntry(m, access, i, e).ValidEntries(any)
  {
    EntriesLength(m, any);
    hide Range.Valid, Csr.Valid, Slot, NoTag;
    var m' := SetEntry(m, access, i, e);
    assert m'.Entries(any) == if any == access then m.Entries(any)[i := e] else m.Entries(any);
    forall j | 0 <= j < TLB_SIZE && m'.Live(m'.Entries(any)[j]) ensures m'.ValidEntry(m'.Entries(any)[j], j) {
      if any != access || j != i { assert m.Live(m.Entries(any)[j]); }
    }
  }

  lemma NewEntryValid(m: Machine, vaddr: nat, paddr: nat)
    requires m.Valid() && IsRamAt(m.ranges, paddr)
    ensures m.ValidEntry(NewEntry(m.ranges, vaddr, paddr), Slot(vaddr))
  {
    PageOfRam(m.ranges, paddr);
    TagOffset(vaddr / PAGE, 0);
    DivModUnique(PageStart(vaddr), PAGE, vaddr / PAGE, 0);
  }

  /** The page of a new write entry is marked. */
  lemma ReachedMarks(c: Csr, ranges: seq<Range>, vaddr: nat)
    requires ValidRanges(ranges) && Translate(ranges, c, vaddr, Write).To?
    requires var p := Translate(ranges, c, vaddr, Write).paddr; IsRamAt(Reached(c, ranges, Write, vaddr), p)
    ensures var p := Translate(ranges, c, vaddr, Write).paddr;
      var b := Reached(c, ranges, Write, vaddr);
      var e := NewEntry(b, vaddr, p);
      b[e.range].size != 0 && (b[e.range].tracked ==> b[e.range].Dirty(e.page))
  {
    var p := Translate(ranges, c, vaddr, Write).paddr;
    var t := Touched(ranges, c, vaddr, Write);
    TouchedKeeps(ranges, c, vaddr, Write);
    KeptValid(ranges, t);
    hide Translate, Touched, Range.Dirty;
    if IsRamAt(t, p) {
      PageOfRam(t, p);
      var r := RangeAt(t, p);
      MarkKeeps(t, r, (p - t[r].addr) / PAGE);
      SameLookup(t, MarkAt(t, r, (p - t[r].addr) / PAGE), p, 0);
    }
  }

  /** The slow path keeps the machine valid and its tracking complete. */
  lemma RefillTracks(m: Machine, access: Access, vaddr: nat)
    requires m.Valid()
    ensures Refill(m, access, vaddr).Valid()
    ensures m.Tracks() ==> Refill(m, access, vaddr).Tracks()
  {
    var t := Translate(m.ranges, m.csr, vaddr, access);
    var b := Reached(m.csr, m.ranges, access, vaddr);
    ReachedKeeps(m.csr, m.ranges, access, vaddr);
    KeptMachine(m, b);
    hide Translate, Reached, RangeAt, Slot, PageStart, Machine.Valid, Machine.Tracks, NewEntry;
    EntriesLength(m, access);
    if t.To? && IsRamAt(b, t.paddr) {
      var m' := m.(ranges := b);
      NewEntryValid(m', vaddr, t.paddr);
      if access == Write { ReachedMarks(m.csr, m.ranges, vaddr); }
      SetEntryValid(m', access, Slot(vaddr), NewEntry(b, vaddr, t.paddr));
    }
  }

  // ----- coherence

  /** The access translates as before, with nothing more to set. */
  ghost predicate SameWalk(c: Csr, a: seq<Range>, b: seq<Range>, access: Access, v: nat) {
    Translate(b, c, v, access) == Translate(a, c, v, access) && (Touches(b, c, v, access) ==> Touches(a, c, v, access))
  }

  lemma KeptAgrees(m: Machine, b: seq<Range>, access: Access, e: Entry)
    requires SamePlacement(m.ranges, b) && m.EntryAgrees(access, e) && SameWalk(m.csr, m.ranges, b, access, e.vaddr)
    ensures m.(ranges := b).EntryAgrees(access, e)
  {
    hide Translate, Touches;
    var p := Translate(m.ranges, m.csr, e.vaddr, access).paddr;
    SameLookup(m.ranges, b, p, 0);
    assert SamePlace(m.ranges[RangeAt(m.ranges, p)], b[RangeAt(m.ranges, p)]);
  }

  lemma SameDisjoint(a: seq<Range>, b: seq<Range>)
    requires SamePlacement(a, b) && Disjoint(a)
    ensures Disjoint(b)
  {
    forall i, j, p: nat | 0 <= i < j < |b| && b[i].Covers(p) ensures !b[j].Covers(p) {
      assert SamePlace(a[i], b[i]) && SamePlace(a[j], b[j]);
      assert a[i].Covers(p);
    }
  }

  /** Coherence survives a memory change that keeps the walks of the live entries. */
  lemma KeptCoherent(m: Machine, b: seq<Range>)
    requires m.Coherent() && SamePlacement(m.ranges, b)
    requires forall access, i :: 0 <= i < |m.Entries(access)| && m.Live(m.Entries(access)[i]) ==>
      SameWalk(m.csr, m.ranges, b, access, m.Entries(access)[i].vaddr)
    ensures m.(ranges := b).Coherent()
  {
    SameDisjoint(m.ranges, b);
    hide SameWalk, SamePlacement, Disjoint, NoTag;
    KeptAgreesAll(m, b, Read);
    KeptAgreesAll(m, b, Write);
    KeptAgreesAll(m, b, Code);
  }

  lemma KeptAgreesAll(m: Machine, b: seq<Range>, access: Access)
    requires m.Agrees(access) && SamePlacement(m.ranges, b)
    requires forall i :: 0 <= i < |m.Entries(access)| && m.Live(m.Entries(access)[i]) ==>
      SameWalk(m.csr, m.ranges, b, access, m.Entries(access)[i].vaddr)
    ensures m.(ranges := b).Agrees(access)
  {
    hide SameWalk, SamePlacement, NoTag, Machine.EntryAgrees;
    var m' := m.(ranges := b);
    forall i | 0 <= i < |m'.Entries(access)| && m'.Live(m'.Entries(access)[i])
      ensures m'.EntryAgrees(access, m'.Entries(access)[i])
    {
      assert m.Live(m.Entries(access)[i]);
      KeptAgrees(m, b, access, m.Entries(access)[i]);
    }
  }

  lemma MarkSameWalk(c: Csr, a: seq<Range>, b: seq<Range>, access: Access, v: nat)
    requires SameMemory(a, b)
    ensures SameWalk(c, a, b, access, v)
  {
    hide Translate, Touches, SameMemory;
    SameMemoryAgrees(a, b, c, v, c.Base(), 0);
    AgreeingTranslation(a, b, c, v, access);
  }

  lemma TouchedSameWalk(c: Csr, ranges: seq<Range>, access: Access, vaddr: nat, any: Access, v: nat)
    requires ValidRanges(ranges) && c.Valid()
    ensures SameWalk(c, ranges, Touched(ranges, c, vaddr, access), any, v)
    ensures !Touches(Touched(ranges, c, vaddr, access), c, vaddr, access)
  {
    WalkUpdateIsInvisible(ranges, c, vaddr, access, v, any);
  }

  lemma SameWalkTransitive(c: Csr, a: seq<Range>, b: seq<Range>, d: seq<Range>, access: Access, v: nat)
    requires SameWalk(c, a, b, access, v) && SameWalk(c, b, d, access, v)
    ensures SameWalk(c, a, d, access, v)
  {
    hide Translate, Touches;
  }

  lemma SameWalkSelf(c: Csr, a: seq<Range>, access: Access, v: nat)
    ensures SameWalk(c, a, a, access, v)
  {
  }

  lemma SameWalkTouches(c: Csr, a: seq<Range>, b: seq<Range>, access: Access, v: nat)
    requires SameWalk(c, a, b, access, v) && !Touches(a, c, v, access)
    ensures !Touches(b, c, v, access)
  {
    hide Translate, Touches;
  }

  /** The slow path changes no translation; its own leaf needs nothing more. */
  lemma ReachedSameWalk(c: Csr, ranges: seq<Range>, access: Access, vaddr: nat, any: Access, v: nat)
    requires ValidRanges(ranges) && c.Valid()
    ensures SameWalk(c, ranges, Reached(c, ranges, access, vaddr), any, v)
    ensures Translate(ranges, c, vaddr, access).To? ==> !Touches(Reached(c, ranges, access, vaddr), c, vaddr, access)
  {
    TouchedSameWalk(c, ranges, access, vaddr, any, v);
    TouchedKeeps(ranges, c, vaddr, access);
    KeptValid(ranges, Touched(ranges, c, vaddr, access));
    SameWalkSelf(c, ranges, any, v);
    hide Translate, Touches, Touched, RangeAt, ValidRanges, MarkAt, SameMemory, SameWalk, Keeps, SamePlacement,
         Csr.Valid;
    var t, b := Translate(ranges, c, vaddr, access), Touched(ranges, c, vaddr, access);
    if t.To? && access == Write && IsRamAt(b, t.paddr) {
      MarkRamSame(b, t.paddr);
      var d := Reached(c, ranges, access, vaddr);
      MarkSameWalk(c, b, d, any, v);
      MarkSameWalk(c, b, d, access, vaddr);
      SameWalkTransitive(c, ranges, b, d, any, v);
      SameWalkTouches(c, b, d, access, vaddr);
    }
  }

  lemma MarkRamSame(b: seq<Range>, p: nat)
    requires ValidRanges(b) && IsRamAt(b, p)
    ensures var r := RangeAt(b, p); SameMemory(b, MarkAt(b, r, (p - b[r].addr) / PAGE))
  {
    PageOfRam(b, p);
    var r := RangeAt(b, p);
    hide RangeAt, MarkAt, SameMemory;
    MarkKeeps(b, r, (p - b[r].addr) / PAGE);
  }

  lemma NewEntryAgrees(m: Machine, access: Access, vaddr: nat)
    requires m.Valid() && Disjoint(m.ranges) && Translate(m.ranges, m.csr, vaddr, access).To?
    requires !Touches(m.ranges, m.csr, vaddr, access)
    requires var p := Translate(m.ranges, m.csr, vaddr, access).paddr; IsRamAt(m.ranges, p)
    ensures m.EntryAgrees(access, NewEntry(m.ranges, vaddr, Translate(m.ranges, m.csr, vaddr, access).paddr))
  {
    var p := Translate(m.ranges, m.csr, vaddr, access).paddr;
    SplitAddr(vaddr);
    PageOfRam(m.ranges, p);
    hide Translate, Touches, RangeAt, InPage;
    SamePageTranslates(m.ranges, m.csr, vaddr, PageStart(vaddr), vaddr / PAGE, vaddr % PAGE, 0, access);
    SamePageTranslates(m.ranges, m.csr, PageStart(vaddr), vaddr, vaddr / PAGE, 0, vaddr % PAGE, access);
    var p0 := Translate(m.ranges, m.csr, PageStart(vaddr), access).paddr;
    SamePageOffset(p0, vaddr % PAGE);
    SamePageLookup(m.ranges, p, p0);
  }

  lemma SetEntryCoherent(m: Machine, access: Access, i: nat, e: Entry)
    requires m.Coherent() && i < |m.Entries(access)| && m.EntryAgrees(access, e)
    ensures SetEntry(m, access, i, e).Coherent()
  {
    hide NoTag, Disjoint, Translate, Touches, RangeAt;
    SetEntryAgrees(m, access, i, e, Read);
    SetEntryAgrees(m, access, i, e, Write);
    SetEntryAgrees(m, access, i, e, Code);
  }

  lemma SetEntryAgrees(m: Machine, access: Access, i: nat, e: Entry, any: Access)
    requires m.Agrees(any) && i < |m.Entries(access)| && m.EntryAgrees(access, e)
    ensures SetEntry(m, access, i, e).Agrees(any)
  {
    hide NoTag, Disjoint, Translate, Touches, RangeAt;
    var m' := SetEntry(m, access, i, e);
    assert m'.Entries(any) == if any == access then m.Entries(any)[i := e] else m.Entries(any);
    forall j | 0 <= j < |m'.Entries(any)| && m'.Live(m'.Entries(any)[j])
      ensures m'.EntryAgrees(any, m'.Entries(any)[j])
    {
      if any != access || j != i { assert m.Live(m.Entries(any)[j]); }
    }
  }

  /** The slow path keeps the TLBs coherent. */
  lemma RefillCoherent(m: Machine, access: Access, vaddr: nat)
    requires m.Valid() && m.Coherent()
    ensures Refill(m, access, vaddr).Coherent()
  {
    var t, b := Translate(m.ranges, m.csr, vaddr, access), Reached(m.csr, m.ranges, access, vaddr);
    var m' := m.(ranges := b);
    ReachedKeeps(m.csr, m.ranges, access, vaddr);
    KeptValid(m.ranges, b);
    KeptMachine(m, b);
    EntriesLength(m, access);
    SameDisjoint(m.ranges, b);
    forall any, i | 0 <= i < |m.Entries(any)| && m.Live(m.Entries(any)[i])
      ensures SameWalk(m.csr, m.ranges, b, any, m.Entries(any)[i].vaddr) {
      ReachedSameWalk(m.csr, m.ranges, access, vaddr, any, m.Entries(any)[i].vaddr);
    }
    KeptCoherent(m, b);
    hide Machine.Valid, Machine.Coherent, Reached, RangeAt, Slot, NoTag, Translate, Touches, NewEntry;
    if t.To? && IsRamAt(b, t.paddr) {
      ReachedSameWalk(m.csr, m.ranges, access, vaddr, access, vaddr);
      NewEntryAgrees(m', access, vaddr);
      SetEntryCoherent(m', access, Slot(vaddr), NewEntry(b, vaddr, t.paddr));
    }
  }

  // ----- flushing

  /** No entry was added or changed, though some may have been invalidated. */
  ghost predicate OnlyDropped(m: Machine, m': Machine, access: Access) {
    |m'.Entries(access)| == |m.Entries(access)| &&
    forall i :: 0 <= i < |m.Entries(access)| && m'.Live(m'.Entries(access)[i]) ==>
      m'.Entries(access)[i] == m.Entries(access)[i]
  }

  ghost predicate Dropped(m: Machine, m': Machine) {
    m'.csr.maxXlen == m.csr.maxXlen && OnlyDropped(m, m', Read) && OnlyDropped(m, m', Write) && OnlyDropped(m, m', Code)
  }

  function NoEntry(m: Machine): Entry { Entry(NoTag(m.csr.maxXlen), 0, 0) }

  /** tlb_flush_all */
  function FlushAll(m: Machine): Machine {
    var none := seq(TLB_SIZE, i => NoEntry(m));
    m.(read := none, write := none, code := none)
  }

  predicate InBuffer(m: Machine, e: Entry, r: nat, lo: nat, hi: nat) {
    m.Live(e) && e.range == r && lo <= e.page * PAGE < hi
  }

  /** riscv_cpu_flush_tlb_write_range_ram, on bytes `lo`.. to `hi` of the buffer of range `r` */
  function FlushWriteRange(m: Machine, r: nat, lo: nat, hi: nat): Machine {
    m.(write := seq(|m.write|, i requires 0 <= i < |m.write| =>
        if InBuffer(m, m.write[i], r, lo, hi) then m.write[i].(vaddr := NoTag(m.csr.maxXlen)) else m.write[i]))
  }

  lemma FlushDrops(m: Machine, r: nat, lo: nat, hi: nat)
    requires m.Valid()
    ensures Dropped(m, FlushAll(m)) && Dropped(m, FlushWriteRange(m, r, lo, hi))
    ensures FlushAll(m).Valid() && FlushWriteRange(m, r, lo, hi).Valid()
    ensures Disjoint(m.ranges) ==> FlushAll(m).Coherent()
    ensures m.StoresTracked() ==> FlushAll(m).Tracks()
    ensures m.Tracks() ==> FlushWriteRange(m, r, lo, hi).Tracks()
  {
    hide NoTag, Range.Valid, Csr.Valid, Range.Dirty, Disjoint, Machine.EntryAgrees, Slot;
    var f, w := FlushAll(m), FlushWriteRange(m, r, lo, hi);
    DroppedValid(m, f);
    DroppedValid(m, w);
    if m.Tracks() {
      forall i | 0 <= i < |w.write| && w.Live(w.write[i]) ensures w.WriteTracked(w.write[i]) {
        assert m.WriteTracked(m.write[i]);
      }
    }
  }

  lemma DroppedValid(m: Machine, m': Machine)
    requires m.Valid() && Dropped(m, m') && m'.csr == m.csr && m'.ranges == m.ranges && m'.stored == m.stored
    ensures m'.Valid()
  {
    hide NoTag, Range.Valid, Csr.Valid, Slot, Machine.ValidEntry;
    DroppedEntries(m, m', Read);
    DroppedEntries(m, m', Write);
    DroppedEntries(m, m', Code);
  }

  lemma DroppedEntries(m: Machine, m': Machine, access: Access)
    requires |m.Entries(access)| == TLB_SIZE && m.ValidEntries(access) && OnlyDropped(m, m', access) &&
             m'.csr == m.csr && m'.ranges == m.ranges
    ensures |m'.Entries(access)| == TLB_SIZE && m'.ValidEntries(access)
  {
    hide NoTag, Range.Valid, Csr.Valid, Slot;
    forall i | 0 <= i < TLB_SIZE && m'.Live(m'.Entries(access)[i]) ensures m'.ValidEntry(m'.Entries(access)[i], i) {
      assert m.Live(m.Entries(access)[i]);
    }
  }

  lemma DroppedCoherent(m: Machine, m': Machine)
    requires m.Coherent() && Dropped(m, m') && m'.csr == m.csr && m'.ranges == m.ranges
    ensures m'.Coherent()
  {
    hide NoTag, Translate, Touches, RangeAt, Disjoint;
    DroppedAgrees(m, m', Read);
    DroppedAgrees(m, m', Write);
    DroppedAgrees(m, m', Code);
  }

  lemma DroppedAgrees(m: Machine, m': Machine, access: Access)
    requires m.Agrees(access) && OnlyDropped(m, m', access) && m'.csr == m.csr && m'.ranges == m.ranges
    ensures m'.Agrees(access)
  {
    hide NoTag, Translate, Touches, RangeAt;
    forall i | 0 <= i < |m'.Entries(access)| && m'.Live(m'.Entries(access)[i])
      ensures m'.EntryAgrees(access, m'.Entries(access)[i])
    {
      assert m.Live(m.Entries(access)[i]);
    }
  }
}
