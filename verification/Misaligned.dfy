/** Misaligned accesses: the bytes that target_read_u* joins and target_write_u* stores (riscv_cpu.c). */
module Misaligned {
  import opened Powers
  import opened PhysMemory
  import opened PageWalk
  import opened Tlb
  import opened MachineRuns
  import opened Cpu

  /** The byte at a virtual address: translated by the tables in `was`, with the contents that memory has in `now`. */
  ghost predicate IsByte(c: Csr, was: seq<Range>, now: seq<Range>, vaddr: nat, x: Byte) {
    var t := Translate(was, c, vaddr, Read);
    && t.To? && IsRamAt(now, t.paddr)
    && HoldsByte(now[RangeAt(now, t.paddr)], t.paddr, x)
  }

  ghost predicate HoldsByte(r: Range, paddr: nat, x: Byte) {
    r.addr <= paddr < r.addr + |r.mem| && r.mem[paddr - r.addr] == x
  }

  /** An aligned load that finds RAM delivers the bytes from its address on. */
  lemma LoadByte(m: Machine, vaddr: nat, size: nat, j: nat)
    requires m.Valid() && m.Coherent() && IsSize(size) && vaddr % size == 0 && j < size
    requires Load(m, Read, vaddr, size).0.Ram?
    ensures var (x, m1) := Load(m, Read, vaddr, size);
            IsByte(m.csr, m.ranges, m1.ranges, vaddr + j, BytesOf(x.value, size)[j])
  {
    hide *;
    EntriesLength(m, Read);
    var (x, m1) := Load(m, Read, vaddr, size);
    var p, r, o := LoadPlace(m, vaddr, size);
    NextByte(m, vaddr, size, j, p, m1.ranges);
    var mem := m1.ranges[r].mem;
    BytesOfWord(mem, o, size);
    assert mem[o..o + size][j] == mem[o + j];
    ByteIs(m.csr, m.ranges, m1.ranges, vaddr + j, r, o + j);
  }

  lemma ByteIs(c: Csr, was: seq<Range>, now: seq<Range>, vaddr: nat, r: nat, o: nat)
    requires r < |now| && o < |now[r].mem| && Translate(was, c, vaddr, Read) == To(now[r].addr + o)
    requires IsRamAt(now, now[r].addr + o) && RangeAt(now, now[r].addr + o) == r
    ensures IsByte(c, was, now, vaddr, now[r].mem[o])
  {
    hide Translate, RangeAt;
  }

  /** Where an aligned load finds its bytes. */
  lemma LoadPlace(m: Machine, vaddr: nat, size: nat) returns (p: nat, r: nat, o: nat)
    requires m.Valid() && m.Coherent() && IsSize(size) && vaddr % size == 0 && Load(m, Read, vaddr, size).0.Ram?
    ensures var (x, m1) := Load(m, Read, vaddr, size);
            && Translate(m.ranges, m.csr, vaddr, Read) == To(p) && IsRamAt(m1.ranges, p) && RangeAt(m1.ranges, p) == r
            && r < |m1.ranges| && p == m1.ranges[r].addr + o && o + size <= |m1.ranges[r].mem|
            && x == Ram(Word(m1.ranges[r].mem, o, size)) && ValidRanges(m1.ranges) && Disjoint(m1.ranges)
  {
    hide Disjoint, ValidRanges, Range.Valid, Machine.ValidEntries, Machine.Agrees, FindRange;
    var (x, m1) := Load(m, Read, vaddr, size);
    LoadIsPlain(m, Read, vaddr, size);
    LoadKeeps(m, Read, vaddr, size);
    MachineParts(m);
    MachineParts(m1);
    p := Translate(m.ranges, m.csr, vaddr, Read).paddr;
    AlignedInPage(vaddr, size);
    SamePageTranslates(m.ranges, m.csr, vaddr, vaddr, vaddr / PAGE, vaddr % PAGE, vaddr % PAGE, Read) by {
      hide Translate, Touches;
    }
    PageOfRam(m1.ranges, p);
    r := RangeAt(m1.ranges, p);
    RamRange(m1.ranges, r);
    hide Translate, Touched, RangeAt, Machine.Valid, Machine.Coherent, Load, Range.Valid;
    o := p - m1.ranges[r].addr;
  }

  lemma MachineParts(m: Machine)
    requires m.Valid()
    ensures m.csr.Valid() && ValidRanges(m.ranges) && |m.read| == |m.write| == TLB_SIZE
    ensures m.Coherent() ==> Disjoint(m.ranges)
  {
    hide Machine.Agrees, Machine.ValidEntries, Disjoint, ValidRanges;
  }

  lemma RamRange(ranges: seq<Range>, r: nat)
    requires ValidRanges(ranges) && r < |ranges| && ranges[r].isRam
    ensures |ranges[r].mem| == ranges[r].orgSize
  {
  }

  /** The next bytes of the page are in the next places. */
  lemma NextByte(m: Machine, vaddr: nat, size: nat, j: nat, p: nat, now: seq<Range>)
    requires m.Valid() && IsSize(size) && vaddr % size == 0 && j < size &&
             Translate(m.ranges, m.csr, vaddr, Read) == To(p)
    requires ValidRanges(now) && Disjoint(now) && IsRamAt(now, p)
    ensures Translate(m.ranges, m.csr, vaddr + j, Read) == To(p + j)
    ensures IsRamAt(now, p + j) && RangeAt(now, p + j) == RangeAt(now, p)
  {
    hide Translate, Touches, RangeAt, Disjoint, ValidRanges, Machine.ValidEntries;
    AlignedInPage(vaddr, size);
    var q, r := vaddr / PAGE, vaddr % PAGE;
    SamePageTranslates(m.ranges, m.csr, vaddr, vaddr + j, q, r, r + j, Read);
    SamePageLookup(now, p, p + j);
  }

  /** The two aligned addresses that a misaligned load reads, the first of `width` bytes. */
  function Width(size: nat): (w: nat)
    requires IsSize(size)
    ensures IsSize(w)
  {
    if size == 2 then 1 else size
  }

  function FirstAddr(vaddr: nat, size: nat): (a: nat)
    requires IsSize(size)
    ensures a <= vaddr
  {
    if size == 2 then vaddr else vaddr - vaddr % size
  }

  function SecondAddr(m: Machine, vaddr: nat, size: nat): nat
    requires IsSize(size)
  {
    (FirstAddr(vaddr, size) + Width(size)) % Pow2(m.csr.maxXlen)
  }

  /** A misaligned load that finds RAM delivers the bytes from its address on, the least significant first; those on the
      other side of the alignment boundary are translated and read after the first ones. */
  lemma MisalignedLoad(m: Machine, vaddr: nat, size: nat, k: nat)
    requires m.Valid() && m.Coherent() && IsSize(size) && vaddr % size != 0 && LoadAny(m, vaddr, size).0.Ram? &&
             k < size
    ensures var v := LoadAny(m, vaddr, size).0.value;
            var m1 := Load(m, Read, FirstAddr(vaddr, size), Width(size)).1;
            var m2 := LoadAny(m, vaddr, size).1;
            var below := size - vaddr % size;
            if k < below then IsByte(m.csr, m.ranges, m1.ranges, vaddr + k, BytesOf(v, size)[k])
            else IsByte(m.csr, m1.ranges, m2.ranges, SecondAddr(m, vaddr, size) + (k - below), BytesOf(v, size)[k])
  {
    hide Machine.Coherent, Machine.Valid, Load, IsByte, Pow2, BytesOf, Joined;
    var first, second, width := FirstAddr(vaddr, size), SecondAddr(m, vaddr, size), Width(size);
    CsrWide(m);
    AlignedParts(vaddr, size, m.csr.maxXlen);
    EntriesLength(m, Read);
    LoadKeeps(m, Read, first, width);
    SameCsr(m, Read, first, width);
    var (x, m1) := Load(m, Read, first, width);
    EntriesLength(m1, Read);
    var (y, m2) := Load(m1, Read, second, width);
    var al := vaddr % size;
    LoadFits(m, first, width);
    LoadFits(m1, second, width);
    BytesOfParts(x.value, y.value, size, al, k);
    if k < size - al {
      LoadByte(m, first, width, if size == 2 then 0 else al + k);
    } else {
      LoadByte(m1, second, width, if size == 2 then 0 else k - (size - al));
    }
  }

  lemma CsrWide(m: Machine)
    requires m.Valid()
    ensures m.csr.maxXlen >= 4
  {
    hide Machine.ValidEntries, ValidRanges;
  }

  lemma SameCsr(m: Machine, access: Access, vaddr: nat, size: nat)
    requires size > 0 && |m.Entries(access)| == TLB_SIZE
    ensures Load(m, access, vaddr, size).1.csr == m.csr
  {
    hide Translate, Reached, RangeAt, Hit, NewEntry, Slot;
  }

  lemma LoadFits(m: Machine, vaddr: nat, size: nat)
    requires m.Valid() && m.Coherent() && IsSize(size) && vaddr % size == 0 && Load(m, Read, vaddr, size).0.Ram?
    ensures Load(m, Read, vaddr, size).0.value < Pow2(8 * size)
  {
    assert size > 0;
    hide *;
    EntriesLength(m, Read);
    var p, r, o := LoadPlace(m, vaddr, size);
    BytesOfWord(Load(m, Read, vaddr, size).1.ranges[r].mem, o, size);
  }

  /** What a misaligned load makes of its two parts. */
  function JoinedParts(x: nat, y: nat, size: nat, al: nat): nat
    requires IsSize(size) && 0 < al < size
  {
    if size == 2 then x + 256 * y else Joined(x, y, size, al)
  }

  lemma BytesOfParts(x: nat, y: nat, size: nat, al: nat, k: nat)
    requires IsSize(size) && 0 < al < size && k < size && x < Pow2(8 * Width(size)) && y < Pow2(8 * Width(size))
    ensures BytesOf(JoinedParts(x, y, size, al), size)[k] ==
            if k < size - al then BytesOf(x, Width(size))[if size == 2 then 0 else al + k]
            else BytesOf(y, Width(size))[if size == 2 then 0 else k - (size - al)]
  {
    hide Pow2, Joined, BytesOf;
    if size == 2 {
      Pow2Of8();
      TwoBytes(x, y);
    } else {
      JoinedBytes(x, y, size, al);
    }
  }

  lemma Pow2Of8()
    ensures Pow2(8) == 256
  {
    assert Pow2(4) == 16;
  }

  lemma TwoBytes(x: nat, y: nat)
    requires x < 256 && y < 256
    ensures BytesOf(x + 256 * y, 2) == [x, y] && BytesOf(x, 1) == [x] && BytesOf(y, 1) == [y]
  {
    assert (x + 256 * y) % 256 == x && (x + 256 * y) / 256 == y;
    assert BytesOf(y, 1) == [y];
  }

  lemma JoinedBytes(x: nat, y: nat, size: nat, al: nat)
    requires 0 < al < size && x < Pow2(8 * size) && y < Pow2(8 * size)
    ensures BytesOf(Joined(x, y, size, al), size) == BytesOf(x, size)[al..size] + BytesOf(y, size)[0..al]
  {
    hide *;
    var a, b := BytesOf(x, size), BytesOf(y, size);
    WordOfBytes(a, 0, size, x);
    WordOfBytes(b, 0, size, y);
    JoinedWord(a, 0, b, 0, size, al);
    BytesOfWhole(a[al..size] + b[0..al]);
  }

  lemma BytesOfWhole(s: seq<Byte>)
    ensures BytesOf(Word(s, 0, |s|), |s|) == s
  {
    BytesOfWord(s, 0, |s|);
    assert s[0..|s|] == s;
  }

  // ----- stores

  /** Bytes stored one after the other on a machine without TLBs. */
  function PlainStoreBytes(c: Csr, ranges: seq<Range>, vaddr: nat, bytes: seq<Byte>): (bool, seq<Range>)
    decreases |bytes|
  {
    if bytes == [] then (true, ranges)
    else
      var (x, b) := PlainStore(c, ranges, vaddr, bytes[..1]);
      if x.AccessFault? then (false, b) else PlainStoreBytes(c, b, (vaddr + 1) % Pow2(c.maxXlen), bytes[1..])
  }

  /** None of the bytes goes to a table entry that a live TLB entry was translated with. */
  ghost predicate AllSpareTables(m: Machine, vaddr: nat, bytes: seq<Byte>)
    requires m.Valid()
    decreases |bytes|
  {
    bytes == [] ||
    (EntriesLength(m, Write);
     StoreKeeps(m, vaddr, bytes[..1]);
     && SparesTables(m, vaddr, 1)
     && AllSpareTables(Store(m, vaddr, bytes[..1]).1, (vaddr + 1) % Pow2(m.csr.maxXlen), bytes[1..]))
  }

  /** A misaligned store puts each byte where the walk says at that time, up to the first one that faults. */
  lemma {:induction false} MisalignedStore(m: Machine, vaddr: nat, bytes: seq<Byte>)
    requires m.Valid() && m.Coherent() && m.Tracks() && AllSpareTables(m, vaddr, bytes)
    ensures var (ok, m1) := StoreBytes(m, vaddr, bytes);
            (ok, m1.ranges) == PlainStoreBytes(m.csr, m.ranges, vaddr, bytes)
    decreases |bytes|
  {
    hide Machine.Valid, Machine.Coherent, Machine.Tracks, Store, PlainStore, SparesTables;
    if bytes != [] {
      EntriesLength(m, Write);
      StoreKeeps(m, vaddr, bytes[..1]);
      StoreIsPlain(m, vaddr, bytes[..1]);
      StoreSameCsr(m, vaddr, bytes[..1]);
      var (x, m1) := Store(m, vaddr, bytes[..1]);
      if !x.AccessFault? {
        MisalignedStore(m1, (vaddr + 1) % Pow2(m.csr.maxXlen), bytes[1..]);
      }
    }
  }

  lemma StoreSameCsr(m: Machine, vaddr: nat, bytes: seq<Byte>)
    requires |bytes| > 0 && |m.write| == TLB_SIZE
    ensures Store(m, vaddr, bytes).1.csr == m.csr
  {
    hide Translate, Reached, RangeAt, Hit, NewEntry, Slot, WriteAt, StoredPage;
  }
}
