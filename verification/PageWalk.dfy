/** Address translation (riscv_cpu.c: get_phys_addr), after sections 4.3.2, 4.4 and 4.5 of the RISC-V privileged
    architecture 1.10, as a function of the control registers and of physical memory. */
module PageWalk {
  import opened Powers
  import opened PhysMemory

  datatype Access = Read | Write | Code

  const PRV_U: nat := 0
  const PRV_S: nat := 1
  const PRV_M: nat := 3

  /** The control state that translation reads, and the fields that traps move it through.
      `mode` and `root` are the fields of satp. */
  datatype Csr = Csr(maxXlen: nat, xlen: nat, priv: nat, mprv: bool, mpp: nat, spp: nat, sum: bool, mxr: bool,
                     uxl: nat, sxl: nat, mxl: nat, mode: nat, root: nat) {
    predicate Valid() {
      && xlen >= 12 && priv < 4 && mpp < 4 && spp < 2
      && ((maxXlen == 32 && mode <= 1) || ((maxXlen == 64 || maxXlen == 128) && (mode == 0 || mode == 8 || mode == 9)))
    }

    /** The privilege an access is checked at. */
    function Priv(access: Access): nat {
      if mprv && access != Code then mpp else priv
    }

    function Levels(): nat {
      if maxXlen == 32 then 2 else if mode == 9 then 4 else 3
    }

    function PteSize(): nat { if maxXlen == 32 then 4 else 8 }

    function IndexBits(): nat { if maxXlen == 32 then 10 else 9 }

    /** The position of the index of level `i` in a virtual address. */
    function Shift(i: nat): nat
      requires i < Levels()
    {
      12 + IndexBits() * (Levels() - 1 - i)
    }

    function Base(): nat { root * PAGE % Pow2(maxXlen) }
  }

  // ----- page table entries

  predicate IsValidPte(pte: nat) { pte % 2 == 1 }

  function Xwr(pte: nat): nat { pte / 2 % 8 }

  predicate UserPte(pte: nat) { pte / 16 % 2 == 1 }

  predicate AccessedPte(pte: nat) { pte / 64 % 2 == 1 }

  predicate DirtyPte(pte: nat) { pte / 128 % 2 == 1 }

  function PteTarget(c: Csr, pte: nat): nat { pte / 1024 * PAGE % Pow2(c.maxXlen) }

  /** The privilege and protection checks on a leaf entry. */
  predicate Permits(c: Csr, pte: nat, access: Access) {
    var xwr := Xwr(pte);
    && xwr != 2 && xwr != 6
    && (if c.Priv(access) == PRV_S then !UserPte(pte) || c.sum else UserPte(pte))
    && match access {
      case Read => xwr % 2 == 1 || (c.mxr && xwr >= 4)
      case Write => xwr / 2 % 2 == 1
      case Code => xwr >= 4
    }
  }

  predicate NeedsUpdate(pte: nat, access: Access) {
    !AccessedPte(pte) || (access == Write && !DirtyPte(pte))
  }

  /** The entry with the accessed bit set, and the dirty bit for a write. */
  function Updated(pte: nat, access: Access): nat {
    var a := if AccessedPte(pte) then pte else pte + 64;
    if access == Write && !DirtyPte(a) then a + 128 else a
  }

  /** phys_read_u32 / phys_read_u64 of an aligned entry. */
  function ReadPte(ranges: seq<Range>, a: nat, n: nat): nat {
    if IsRamAt(ranges, a) && a - ranges[RangeAt(ranges, a)].addr + n <= |ranges[RangeAt(ranges, a)].mem|
    then Word(ranges[RangeAt(ranges, a)].mem, a - ranges[RangeAt(ranges, a)].addr, n) else 0
  }

  /** phys_write_u32 / phys_write_u64 of an aligned entry. */
  function WritePte(ranges: seq<Range>, a: nat, n: nat, v: nat): seq<Range> {
    if IsRamAt(ranges, a) && a - ranges[RangeAt(ranges, a)].addr + n <= |ranges[RangeAt(ranges, a)].mem|
    then WriteRam(ranges, RangeAt(ranges, a), a - ranges[RangeAt(ranges, a)].addr, BytesOf(v, n)) else ranges
  }

  function WriteRam(ranges: seq<Range>, r: nat, o: nat, bytes: seq<Byte>): seq<Range>
    requires r < |ranges| && o + |bytes| <= |ranges[r].mem|
  {
    ranges[r := ranges[r].(mem := Stored(ranges[r].mem, o, bytes))]
  }

  // ----- the walk

  datatype Leaf = NoLeaf | Leaf(addr: nat, pte: nat, level: nat)

  function EntryAddr(c: Csr, vaddr: nat, base: nat, i: nat): nat
    requires i < c.Levels()
  {
    base + Low(Shr(vaddr, c.Shift(i)), c.IndexBits()) * c.PteSize()
  }

  /** The leaf entry for `vaddr` below the table at `base` of level `i`. */
  function FindLeaf(ranges: seq<Range>, c: Csr, vaddr: nat, base: nat, i: nat): Leaf
    decreases c.Levels() - i
  {
    if i >= c.Levels() then NoLeaf
    else
      var a := EntryAddr(c, vaddr, base, i);
      var pte := ReadPte(ranges, a, c.PteSize());
      if !IsValidPte(pte) then NoLeaf
      else if Xwr(pte) != 0 then Leaf(a, pte, i)
      else FindLeaf(ranges, c, vaddr, PteTarget(c, pte), i + 1)
  }

  /** sv39 and sv48 addresses must be sign-extended. */
  predicate Canonical(c: Csr, vaddr: nat) {
    c.maxXlen == 32 ||
    var w := 12 + 9 * c.Levels();
    var low := Low(vaddr, w);
    vaddr == if low >= Pow2(w - 1) then low + Pow2(c.maxXlen) - Pow2(w) else low
  }

  /** Whether the address is used without a page table. */
  predicate Bare(c: Csr, access: Access) {
    c.Priv(access) == PRV_M || c.mode == 0
  }

  function BareAddr(c: Csr, vaddr: nat, access: Access): nat {
    if c.Priv(access) == PRV_M && c.xlen < c.maxXlen then Low(vaddr, c.xlen) else vaddr
  }

  /** The leaf of a translated access: NoLeaf when the walk or a check fails. */
  function CheckedLeaf(ranges: seq<Range>, c: Csr, vaddr: nat, access: Access): Leaf {
    if !Canonical(c, vaddr) then NoLeaf
    else
      var l := FindLeaf(ranges, c, vaddr, c.Base(), 0);
      if l.Leaf? && Permits(c, l.pte, access) then l else NoLeaf
  }

  /** The address within the page or superpage of a leaf at level `i`. */
  function LeafTarget(c: Csr, vaddr: nat, pte: nat, i: nat): nat
    requires i < c.Levels()
  {
    Low(vaddr, c.Shift(i)) + Shl(Shr(PteTarget(c, pte), c.Shift(i)), c.Shift(i))
  }

  lemma {:induction false} LeafLevel(ranges: seq<Range>, c: Csr, vaddr: nat, base: nat, i: nat)
    ensures var l := FindLeaf(ranges, c, vaddr, base, i); l.Leaf? ==>
              l.level < c.Levels() && IsValidPte(l.pte) && Xwr(l.pte) != 0
    decreases c.Levels() - i
  {
    if i < c.Levels() {
      var pte := ReadPte(ranges, EntryAddr(c, vaddr, base, i), c.PteSize());
      LeafLevel(ranges, c, vaddr, PteTarget(c, pte), i + 1);
    }
  }

  datatype Translation = PageFault | To(paddr: nat)

  /** Where an access goes. */
  function Translate(ranges: seq<Range>, c: Csr, vaddr: nat, access: Access): Translation {
    if Bare(c, access) then To(BareAddr(c, vaddr, access))
    else
      var l := CheckedLeaf(ranges, c, vaddr, access);
      LeafLevel(ranges, c, vaddr, c.Base(), 0);
      if l.NoLeaf? then PageFault else To(LeafTarget(c, vaddr, l.pte, l.level))
  }

  /** Memory after the accessed and dirty bits are set for an access. */
  function Touched(ranges: seq<Range>, c: Csr, vaddr: nat, access: Access): seq<Range> {
    if Bare(c, access) then ranges
    else
      var l := CheckedLeaf(ranges, c, vaddr, access);
      if l.Leaf? && NeedsUpdate(l.pte, access) then WritePte(ranges, l.addr, c.PteSize(), Updated(l.pte, access))
      else ranges
  }

  /** Whether the access would set a bit in its leaf entry. */
  predicate Touches(ranges: seq<Range>, c: Csr, vaddr: nat, access: Access) {
    !Bare(c, access) &&
    var l := CheckedLeaf(ranges, c, vaddr, access);
    l.Leaf? && NeedsUpdate(l.pte, access)
  }

  // ----- a translation serves the whole page

  lemma DivPow(q: nat, r: nat, k: nat)
    requires r < PAGE
    ensures Shr(q * PAGE + r, 12 + k) == Shr(q, k)
    ensures Low(q * PAGE + r, 12 + k) == Low(q, k) * PAGE + r
  {
    Pow2Add(12, k);
    assert Pow2(12) == PAGE;
    var p, d, m := Pow2(k), q / Pow2(k), q % Pow2(k);
    PageDigits(q, r, p, d, m);
    DivModUnique(q * PAGE + r, Pow2(12 + k), d, m * PAGE + r);
  }

  lemma PageDigits(q: nat, r: nat, p: nat, d: nat, m: nat)
    requires p > 0 && q == p * d + m && m < p && r < PAGE
    ensures q * PAGE + r == d * (PAGE * p) + (m * PAGE + r)
    ensures m * PAGE + r < PAGE * p
  {
    assert (p * d + m) * PAGE == d * (PAGE * p) + m * PAGE;
    assert m * PAGE + PAGE <= p * PAGE;
  }

  lemma ShiftForm(c: Csr, i: nat) returns (k: nat)
    requires i < c.Levels()
    ensures c.Shift(i) == 12 + k
  {
    k := c.IndexBits() * (c.Levels() - 1 - i);
  }

  /** Two addresses of one page, split into page and offset. */
  ghost predicate InPage(v: nat, q: nat, r: nat) {
    v == q * PAGE + r && r < PAGE
  }

  lemma {:induction false} SamePageLeaf(ranges: seq<Range>, c: Csr, v: nat, v': nat, q: nat, r: nat, r': nat, base: nat,
                                        i: nat)
    requires InPage(v, q, r) && InPage(v', q, r')
    ensures FindLeaf(ranges, c, v, base, i) == FindLeaf(ranges, c, v', base, i)
    decreases c.Levels() - i
  {
    hide Pow2, Low, Shr, IsValidPte, Xwr, ReadPte, PteTarget;
    if i < c.Levels() {
      var k := ShiftForm(c, i);
      DivPow(q, r, k);
      DivPow(q, r', k);
      var pte := ReadPte(ranges, EntryAddr(c, v, base, i), c.PteSize());
      SamePageLeaf(ranges, c, v, v', q, r, r', PteTarget(c, pte), i + 1);
    }
  }

  lemma SamePageCanonical(c: Csr, v: nat, v': nat, q: nat, r: nat, r': nat)
    requires InPage(v, q, r) && InPage(v', q, r')
    ensures Canonical(c, v) == Canonical(c, v')
  {
    if c.maxXlen != 32 {
      var k := 9 * c.Levels();
      DivPow(q, r, k);
      DivPow(q, r', k);
      Pow2Add(12, k - 1);
      assert Pow2(12) == PAGE;
      hide Pow2;
      TopHalf(Low(q, k), r, Pow2(k - 1));
      TopHalf(Low(q, k), r', Pow2(k - 1));
    }
  }

  lemma TopHalf(m: nat, r: nat, h: nat)
    requires r < PAGE
    ensures m * PAGE + r >= PAGE * h <==> m >= h
  {
    if m < h { assert m * PAGE + PAGE <= h * PAGE; }
  }

  lemma SamePageTarget(c: Csr, v: nat, v': nat, q: nat, r: nat, r': nat, pte: nat, i: nat)
    requires InPage(v, q, r) && InPage(v', q, r') && i < c.Levels()
    ensures LeafTarget(c, v', pte, i) - r' == LeafTarget(c, v, pte, i) - r
    ensures LeafTarget(c, v, pte, i) % PAGE == r
  {
    var k := ShiftForm(c, i);
    DivPow(q, r, k);
    DivPow(q, r', k);
    hide Pow2, Low, Shr, Shl, Csr.Shift;
    PageMultiple(Low(q, k), r, Shr(PteTarget(c, pte), 12 + k), k);
  }

  lemma PageMultiple(m: nat, r: nat, t: nat, k: nat)
    requires r < PAGE
    ensures (m * PAGE + r + Shl(t, 12 + k)) % PAGE == r
  {
    ShlTwice(t, k, 12);
    assert Pow2(12) == PAGE;
    DivModUnique(m * PAGE + r + Shl(t, 12 + k), PAGE, m + Shl(t, k), r);
  }

  lemma SamePageBare(c: Csr, v: nat, v': nat, q: nat, r: nat, r': nat, access: Access)
    requires InPage(v, q, r) && InPage(v', q, r') && c.xlen >= 12
    ensures BareAddr(c, v', access) - r' == BareAddr(c, v, access) - r
    ensures BareAddr(c, v, access) % PAGE == r
  {
    DivPow(q, r, c.xlen - 12);
    DivPow(q, r', c.xlen - 12);
    hide Low, Shr;
    DivModUnique(Low(q, c.xlen - 12) * PAGE + r, PAGE, Low(q, c.xlen - 12), r);
    DivModUnique(v, PAGE, q, r);
  }

  /** One translation serves the whole page: offsets carry over unchanged. */
  lemma SamePageTranslates(ranges: seq<Range>, c: Csr, v: nat, v': nat, q: nat, r: nat, r': nat, access: Access)
    requires c.xlen >= 12 && InPage(v, q, r) && InPage(v', q, r')
    ensures Translate(ranges, c, v, access).To? ==>
      && Translate(ranges, c, v', access).To?
      && Translate(ranges, c, v', access).paddr - r' == Translate(ranges, c, v, access).paddr - r
      && Translate(ranges, c, v, access).paddr % PAGE == r
    ensures Translate(ranges, c, v, access).PageFault? ==> Translate(ranges, c, v', access).PageFault?
    ensures Touches(ranges, c, v, access) == Touches(ranges, c, v', access)
  {
    SamePageBare(c, v, v', q, r, r', access);
    hide Pow2, Low, Shr, Shl, InPage, Canonical, BareAddr, FindLeaf, Permits, LeafTarget, NeedsUpdate, IsValidPte, Xwr;
    SamePageCanonical(c, v, v', q, r, r');
    SamePageLeaf(ranges, c, v, v', q, r, r', c.Base(), 0);
    LeafLevel(ranges, c, v, c.Base(), 0);
    var l := CheckedLeaf(ranges, c, v, access);
    if l.Leaf? { SamePageTarget(c, v, v', q, r, r', l.pte, l.level); }
  }

  // ----- setting accessed and dirty bits changes no translation

  /** The two entries differ in their accessed and dirty bits at most, and those of `p` stay set in `p'`. */
  ghost predicate Approximates(p: nat, p': nat) {
    p == p' ||
    (IsValidPte(p) && Xwr(p) != 0 && p' % 64 == p % 64 && p' / 256 == p / 256
      && (AccessedPte(p) ==> AccessedPte(p')) && (DirtyPte(p) ==> DirtyPte(p')))
  }

  lemma LowFields(p: nat, p': nat)
    requires p' % 64 == p % 64
    ensures IsValidPte(p') == IsValidPte(p) && Xwr(p') == Xwr(p) && UserPte(p') == UserPte(p)
  {
    FieldsOfLow(p, p / 64, p % 64);
    FieldsOfLow(p', p' / 64, p' % 64);
  }

  lemma FieldsOfLow(p: nat, h: nat, low: nat)
    requires p == 64 * h + low && low < 64
    ensures p % 2 == low % 2 && p / 2 % 8 == low / 2 % 8 && p / 16 % 2 == low / 16 % 2
  {
    DivModUnique(p, 2, 32 * h + low / 2, low % 2);
    DivModUnique(32 * h + low / 2, 8, 4 * h + low / 2 / 8, low / 2 % 8);
    DivModUnique(p, 16, 4 * h + low / 16, low % 16);
    DivModUnique(4 * h + low / 16, 2, 2 * h + low / 16 / 2, low / 16 % 2);
  }

  lemma FieldsOfHigh(p: nat, h: nat, d: nat, a: nat, low: nat)
    requires p == 256 * h + 128 * d + 64 * a + low && low < 64 && a < 2 && d < 2
    ensures p % 64 == low && p / 64 % 2 == a && p / 128 % 2 == d && p / 256 == h
  {
    DivModUnique(p, 64, 4 * h + 2 * d + a, low);
    DivModUnique(4 * h + 2 * d + a, 2, 2 * h + d, a);
    DivModUnique(p, 128, 2 * h + d, 64 * a + low);
    DivModUnique(2 * h + d, 2, h, d);
    DivModUnique(p, 256, h, 128 * d + 64 * a + low);
  }

  lemma SplitPte(p: nat) returns (h: nat, d: nat, a: nat, low: nat)
    ensures p == 256 * h + 128 * d + 64 * a + low && low < 64 && a < 2 && d < 2
    ensures p % 64 == low && p / 64 % 2 == a && p / 128 % 2 == d && p / 256 == h
  {
    low := p % 64;
    var t := p / 64;
    a := t % 2;
    d := t / 2 % 2;
    h := t / 2 / 2;
    assert p == 64 * t + low && t == 2 * (t / 2) + a && t / 2 == 2 * h + d;
    FieldsOfHigh(p, h, d, a, low);
  }

  lemma UpdatedApproximates(p: nat, access: Access)
    requires IsValidPte(p) && Xwr(p) != 0
    ensures Approximates(p, Updated(p, access)) && !NeedsUpdate(Updated(p, access), access)
  {
    var h, d, a, low := SplitPte(p);
    FieldsOfHigh(256 * h + 128 * d + 64 + low, h, d, 1, low);
    FieldsOfHigh(256 * h + 128 + 64 + low, h, 1, 1, low);
    hide IsValidPte, Xwr;
  }

  lemma ApproximateFields(p: nat, p': nat)
    requires Approximates(p, p')
    ensures IsValidPte(p') == IsValidPte(p) && Xwr(p') == Xwr(p) && UserPte(p') == UserPte(p) && p' / 1024 == p / 1024
    ensures forall access :: NeedsUpdate(p', access) ==> NeedsUpdate(p, access)
  {
    if p != p' {
      LowFields(p, p');
      HighQuarter(p);
      HighQuarter(p');
    }
    hide IsValidPte, Xwr, UserPte;
  }

  lemma HighQuarter(p: nat)
    ensures p / 1024 == p / 256 / 4
  {
    var h := p / 256;
    DivModUnique(p, 1024, h / 4, 256 * (h % 4) + p % 256);
  }

  ghost predicate SimilarLeaf(l: Leaf, l': Leaf) {
    if l.NoLeaf? then l'.NoLeaf?
    else l'.Leaf? && l'.addr == l.addr && l'.level == l.level && Approximates(l.pte, l'.pte)
  }

  /** Every entry that the walk of `vaddr` reads in `a` approximates the one in `b`. */
  ghost predicate PathAgrees(a: seq<Range>, b: seq<Range>, c: Csr, vaddr: nat, base: nat, i: nat)
    decreases c.Levels() - i
  {
    i < c.Levels() ==>
      var e := EntryAddr(c, vaddr, base, i);
      var pte := ReadPte(a, e, c.PteSize());
      Approximates(pte, ReadPte(b, e, c.PteSize())) &&
      (IsValidPte(pte) && Xwr(pte) == 0 ==> PathAgrees(a, b, c, vaddr, PteTarget(c, pte), i + 1))
  }

  lemma {:induction false} AgreeingPath(a: seq<Range>, b: seq<Range>, c: Csr, vaddr: nat, base: nat, i: nat)
    requires PathAgrees(a, b, c, vaddr, base, i)
    ensures SimilarLeaf(FindLeaf(a, c, vaddr, base, i), FindLeaf(b, c, vaddr, base, i))
    decreases c.Levels() - i
  {
    if i < c.Levels() {
      var e := EntryAddr(c, vaddr, base, i);
      var p, p' := ReadPte(a, e, c.PteSize()), ReadPte(b, e, c.PteSize());
      ApproximateFields(p, p');
      hide IsValidPte, Xwr, Approximates, EntryAddr, ReadPte;
      if IsValidPte(p) && Xwr(p) == 0 { AgreeingPath(a, b, c, vaddr, PteTarget(c, p), i + 1); }
    }
  }

  /** Translation after the walk's entries changed in accessed and dirty bits at most. */
  lemma AgreeingTranslation(a: seq<Range>, b: seq<Range>, c: Csr, vaddr: nat, access: Access)
    requires PathAgrees(a, b, c, vaddr, c.Base(), 0)
    ensures Translate(b, c, vaddr, access) == Translate(a, c, vaddr, access)
    ensures Touches(b, c, vaddr, access) ==> Touches(a, c, vaddr, access)
  {
    hide Canonical, FindLeaf, PathAgrees, BareAddr, Csr.Base;
    AgreeingPath(a, b, c, vaddr, c.Base(), 0);
    var l, l' := FindLeaf(a, c, vaddr, c.Base(), 0), FindLeaf(b, c, vaddr, c.Base(), 0);
    LeafLevel(a, c, vaddr, c.Base(), 0);
    if l.Leaf? { AgreeingChecks(c, l.pte, l'.pte, vaddr, access, l.level); }
  }

  lemma AgreeingChecks(c: Csr, p: nat, p': nat, vaddr: nat, access: Access, i: nat)
    requires Approximates(p, p') && i < c.Levels()
    ensures Permits(c, p', access) == Permits(c, p, access)
    ensures NeedsUpdate(p', access) ==> NeedsUpdate(p, access)
    ensures LeafTarget(c, vaddr, p', i) == LeafTarget(c, vaddr, p, i)
  {
    ApproximateFields(p, p');
    hide Xwr, UserPte, NeedsUpdate, Approximates;
  }

  // ----- which memory changes agree with a walk

  lemma Aligned(c: Csr, vaddr: nat, base: nat, i: nat, pte: nat)
    requires c.Valid() && i < c.Levels() && base % PAGE == 0
    ensures EntryAddr(c, vaddr, base, i) % c.PteSize() == 0
    ensures PteTarget(c, pte) % PAGE == 0 && c.Base() % PAGE == 0
  {
    WholePages(pte / 1024, c.maxXlen);
    WholePages(c.root, c.maxXlen);
    hide Pow2, Low, Shr;
    EntryMultiple(base, Low(Shr(vaddr, c.Shift(i)), c.IndexBits()), c.PteSize());
  }

  lemma EntryMultiple(base: nat, x: nat, n: nat)
    requires base % PAGE == 0 && (n == 4 || n == 8)
    ensures (base + x * n) % n == 0
  {
    var q := base / PAGE;
    assert base == PAGE * q;
    if n == 4 {
      DivModUnique(base + x * 4, 4, 1024 * q + x, 0);
    } else {
      DivModUnique(base + x * 8, 8, 512 * q + x, 0);
    }
  }

  lemma WholePages(q: nat, x: nat)
    requires x >= 12
    ensures q * PAGE % Pow2(x) % PAGE == 0
  {
    DivPow(q, 0, x - 12);
    DivModUnique(Low(q, x - 12) * PAGE, PAGE, Low(q, x - 12), 0);
  }

  /** The word that a table entry at `e` occupies in its range. */
  ghost predicate InWord(ranges: seq<Range>, e: nat, n: nat, r: nat, o: nat) {
    IsRamAt(ranges, e) && RangeAt(ranges, e) == r && ranges[r].addr + o == e && o + n <= |ranges[r].mem|
  }

  lemma ReadUnchanged(a: seq<Range>, b: seq<Range>, e: nat, n: nat)
    requires SamePlacement(a, b) && ValidRanges(a) && ValidRanges(b)
    requires forall r: nat, o: nat :: InWord(a, e, n, r, o) ==> a[r].mem[o..o + n] == b[r].mem[o..o + n]
    ensures ReadPte(b, e, n) == ReadPte(a, e, n)
  {
    SameLookup(a, b, e, 0);
    if IsRamAt(a, e) {
      var r := RangeAt(a, e);
      assert SamePlace(a[r], b[r]);
      var o := e - a[r].addr;
      if o + n <= |a[r].mem| {
        assert InWord(a, e, n, r, o);
        forall k | o <= k < o + n ensures a[r].mem[k] == b[r].mem[k] {
          assert a[r].mem[k] == a[r].mem[o..o + n][k - o] && b[r].mem[k] == b[r].mem[o..o + n][k - o];
        }
        WordElsewhere(a[r].mem, b[r].mem, o, n);
      }
    }
  }

  /** A write to bytes `o`.. of range `r` misses every entry on the path of `vaddr`. */
  ghost predicate AvoidsPath(ranges: seq<Range>, c: Csr, vaddr: nat, base: nat, i: nat, r: nat, o: nat, len: nat)
    decreases c.Levels() - i
  {
    i < c.Levels() ==>
      var e := EntryAddr(c, vaddr, base, i);
      var pte := ReadPte(ranges, e, c.PteSize());
      (forall p: nat :: InWord(ranges, e, c.PteSize(), r, p) ==> p + c.PteSize() <= o || o + len <= p) &&
      (IsValidPte(pte) && Xwr(pte) == 0 ==> AvoidsPath(ranges, c, vaddr, PteTarget(c, pte), i + 1, r, o, len))
  }

  lemma WriteRamPlaces(ranges: seq<Range>, r: nat, o: nat, bytes: seq<Byte>)
    requires r < |ranges| && o + |bytes| <= |ranges[r].mem| && ValidRanges(ranges)
    ensures SamePlacement(ranges, WriteRam(ranges, r, o, bytes)) && ValidRanges(WriteRam(ranges, r, o, bytes))
  {
  }

  lemma WriteMisses(ranges: seq<Range>, r: nat, o: nat, bytes: seq<Byte>, e: nat, n: nat)
    requires r < |ranges| && o + |bytes| <= |ranges[r].mem| && ValidRanges(ranges)
    requires forall p: nat :: InWord(ranges, e, n, r, p) ==> p + n <= o || o + |bytes| <= p
    ensures ReadPte(WriteRam(ranges, r, o, bytes), e, n) == ReadPte(ranges, e, n)
  {
    WriteRamPlaces(ranges, r, o, bytes);
    ReadUnchanged(ranges, WriteRam(ranges, r, o, bytes), e, n);
  }

  lemma {:induction false} AvoidingAgrees(ranges: seq<Range>, c: Csr, vaddr: nat, base: nat, i: nat, r: nat, o: nat,
                                          bytes: seq<Byte>)
    requires r < |ranges| && o + |bytes| <= |ranges[r].mem| && ValidRanges(ranges)
    requires AvoidsPath(ranges, c, vaddr, base, i, r, o, |bytes|)
    ensures PathAgrees(ranges, WriteRam(ranges, r, o, bytes), c, vaddr, base, i)
    decreases c.Levels() - i
  {
    if i < c.Levels() {
      var e := EntryAddr(c, vaddr, base, i);
      WriteMisses(ranges, r, o, bytes, e, c.PteSize());
      var pte := ReadPte(ranges, e, c.PteSize());
      hide IsValidPte, Xwr, ReadPte, WriteRam, EntryAddr;
      if IsValidPte(pte) && Xwr(pte) == 0 {
        AvoidingAgrees(ranges, c, vaddr, PteTarget(c, pte), i + 1, r, o, bytes);
      }
    }
  }

  /** Changes outside the RAM contents do not matter. */
  ghost predicate SameMemory(a: seq<Range>, b: seq<Range>) {
    SamePlacement(a, b) && ValidRanges(a) && ValidRanges(b) && forall i :: 0 <= i < |a| ==> a[i].mem == b[i].mem
  }

  lemma {:induction false} SameMemoryAgrees(a: seq<Range>, b: seq<Range>, c: Csr, vaddr: nat, base: nat, i: nat)
    requires SameMemory(a, b)
    ensures PathAgrees(a, b, c, vaddr, base, i)
    decreases c.Levels() - i
  {
    if i < c.Levels() {
      var e := EntryAddr(c, vaddr, base, i);
      ReadUnchanged(a, b, e, c.PteSize());
      var pte := ReadPte(a, e, c.PteSize());
      SameMemoryAgrees(a, b, c, vaddr, PteTarget(c, pte), i + 1);
    }
  }

  lemma SmallUpdate(p: nat, access: Access, n: nat)
    requires IsValidPte(p) && Xwr(p) != 0 && n > 0 && p < Pow2(8 * n)
    ensures Updated(p, access) < Pow2(8 * n)
  {
    UpdatedApproximates(p, access);
    Pow256(n - 1);
    hide Pow2, IsValidPte, Xwr, Updated;
    SameHighBytes(p, Updated(p, access), Pow2(8 * (n - 1)));
  }

  lemma SameHighBytes(p: nat, p': nat, top: nat)
    requires p' / 256 == p / 256 && p < 256 * top
    ensures p' < 256 * top
  {
  }

  /** What the walk reads after the leaf at `a` was written back with its bits set. */
  lemma ReadAfterUpdate(ranges: seq<Range>, a: nat, n: nat, access: Access, e: nat)
    requires ValidRanges(ranges) && (n == 4 || n == 8) && a % n == 0 && e % n == 0
    requires var p := ReadPte(ranges, a, n); IsValidPte(p) && Xwr(p) != 0
    ensures var p := ReadPte(ranges, a, n);
      var b := WritePte(ranges, a, n, Updated(p, access));
      ReadPte(b, e, n) == if e == a then Updated(p, access) else ReadPte(ranges, e, n)
  {
    var p := ReadPte(ranges, a, n);
    assert IsRamAt(ranges, a);
    var r := RangeAt(ranges, a);
    var o := a - ranges[r].addr;
    BytesOfWord(ranges[r].mem, o, n);
    SmallUpdate(p, access, n);
    hide IsValidPte, Xwr, Pow2, RangeAt;
    if e == a {
      ReadBack(ranges, a, n, Updated(p, access));
    } else {
      AlignedApart(ranges[r].addr, a, e, n);
      WriteMisses(ranges, r, o, BytesOf(Updated(p, access), n), e, n);
    }
  }

  lemma ReadBack(ranges: seq<Range>, a: nat, n: nat, v: nat)
    requires ValidRanges(ranges) && v < Pow2(8 * n)
    requires IsRamAt(ranges, a) && a - ranges[RangeAt(ranges, a)].addr + n <= |ranges[RangeAt(ranges, a)].mem|
    ensures ReadPte(WritePte(ranges, a, n, v), a, n) == v
  {
    var r := RangeAt(ranges, a);
    var o := a - ranges[r].addr;
    var b := WriteRam(ranges, r, o, BytesOf(v, n));
    hide Pow2;
    WriteRamPlaces(ranges, r, o, BytesOf(v, n));
    SameLookup(ranges, b, a, 0);
    WordOfBytes(b[r].mem, o, n, v);
  }

  lemma AlignedApart(addr: nat, a: nat, e: nat, n: nat)
    requires n > 0 && a % n == 0 && e % n == 0 && a != e
    ensures e + n <= a || a + n <= e
  {
    var x, y := a / n, e / n;
    assert a == n * x && e == n * y;
    if x < y { assert n * (y - x) == e - a; MulAtLeast(y - x, n); }
    if y < x { assert n * (x - y) == a - e; MulAtLeast(x - y, n); }
  }

  lemma {:induction false} UpdateAgrees(ranges: seq<Range>, c: Csr, a: nat, access: Access, vaddr: nat, base: nat,
                                        i: nat)
    requires ValidRanges(ranges) && c.Valid() && a % c.PteSize() == 0 && base % PAGE == 0
    requires var p := ReadPte(ranges, a, c.PteSize()); IsValidPte(p) && Xwr(p) != 0
    ensures PathAgrees(ranges, WritePte(ranges, a, c.PteSize(), Updated(ReadPte(ranges, a, c.PteSize()), access)), c,
                       vaddr, base, i)
    decreases c.Levels() - i
  {
    if i < c.Levels() {
      var n, p := c.PteSize(), ReadPte(ranges, a, c.PteSize());
      var e := EntryAddr(c, vaddr, base, i);
      var pte := ReadPte(ranges, e, n);
      Aligned(c, vaddr, base, i, pte);
      ReadAfterUpdate(ranges, a, n, access, e);
      UpdatedApproximates(p, access);
      hide IsValidPte, Xwr, ReadPte, WritePte, EntryAddr, Updated, PteTarget;
      if IsValidPte(pte) && Xwr(pte) == 0 {
        UpdateAgrees(ranges, c, a, access, vaddr, PteTarget(c, pte), i + 1);
      }
    }
  }

  lemma {:induction false} LeafEntry(ranges: seq<Range>, c: Csr, vaddr: nat, base: nat, i: nat)
    requires c.Valid() && base % PAGE == 0
    ensures var l := FindLeaf(ranges, c, vaddr, base, i);
      l.Leaf? ==> l.addr % c.PteSize() == 0 && l.pte == ReadPte(ranges, l.addr, c.PteSize())
    decreases c.Levels() - i
  {
    if i < c.Levels() {
      var pte := ReadPte(ranges, EntryAddr(c, vaddr, base, i), c.PteSize());
      Aligned(c, vaddr, base, i, pte);
      hide IsValidPte, Xwr, ReadPte, EntryAddr, PteTarget;
      LeafEntry(ranges, c, vaddr, PteTarget(c, pte), i + 1);
    }
  }

  lemma TouchedPlaces(ranges: seq<Range>, c: Csr, v: nat, access: Access)
    requires ValidRanges(ranges)
    ensures SamePlacement(ranges, Touched(ranges, c, v, access)) && ValidRanges(Touched(ranges, c, v, access))
  {
  }

  /** The walk's own update leaves the translation of every address, this one included, as it was, and is not
      needed a second time. */
  lemma WalkUpdateIsInvisible(ranges: seq<Range>, c: Csr, v: nat, access: Access, vaddr: nat, any: Access)
    requires ValidRanges(ranges) && c.Valid()
    ensures var b := Touched(ranges, c, v, access);
      && Translate(b, c, vaddr, any) == Translate(ranges, c, vaddr, any)
      && (Touches(b, c, vaddr, any) ==> Touches(ranges, c, vaddr, any))
      && !Touches(b, c, v, access)
  {
    var b := Touched(ranges, c, v, access);
    TouchedPlaces(ranges, c, v, access);
    Aligned(c, v, 0, 0, 0);
    LeafLevel(ranges, c, v, c.Base(), 0);
    LeafEntry(ranges, c, v, c.Base(), 0);
    var l := CheckedLeaf(ranges, c, v, access);
    hide IsValidPte, Xwr, ReadPte, EntryAddr, PteTarget, Canonical, Permits, NeedsUpdate, Updated, FindLeaf,
         Translate, Csr.Base;
    if Touches(ranges, c, v, access) {
      UpdateAgrees(ranges, c, l.addr, access, vaddr, c.Base(), 0);
      UpdateAgrees(ranges, c, l.addr, access, v, c.Base(), 0);
      UpdateDone(ranges, c, v, access, l);
    } else {
      SameMemoryAgrees(ranges, b, c, vaddr, c.Base(), 0);
    }
    AgreeingTranslation(ranges, b, c, vaddr, any);
  }

  lemma UpdateDone(ranges: seq<Range>, c: Csr, v: nat, access: Access, l: Leaf)
    requires ValidRanges(ranges) && c.Valid() && Canonical(c, v) && l.Leaf?
    requires l == FindLeaf(ranges, c, v, c.Base(), 0) && l.addr % c.PteSize() == 0 &&
             l.pte == ReadPte(ranges, l.addr, c.PteSize())
    requires IsValidPte(l.pte) && Xwr(l.pte) != 0 && Permits(c, l.pte, access)
    requires PathAgrees(ranges, WritePte(ranges, l.addr, c.PteSize(), Updated(l.pte, access)), c, v, c.Base(), 0)
    ensures !Touches(WritePte(ranges, l.addr, c.PteSize(), Updated(l.pte, access)), c, v, access)
  {
    var b := WritePte(ranges, l.addr, c.PteSize(), Updated(l.pte, access));
    ReadAfterUpdate(ranges, l.addr, c.PteSize(), access, l.addr);
    UpdatedApproximates(l.pte, access);
    Aligned(c, v, 0, 0, 0);
    LeafEntry(b, c, v, c.Base(), 0);
    hide IsValidPte, Xwr, ReadPte, EntryAddr, PteTarget, Canonical, Permits, NeedsUpdate, Updated, FindLeaf,
         Approximates, Csr.Base;
    AgreeingPath(ranges, b, c, v, c.Base(), 0);
  }
}
