/** The bytes of an instruction in memory (riscv_cpu.c: target_read_insn_u16; riscv_cpu_template.h). */
module CodeBytes {
  import opened Powers
  import opened PhysMemory
  import opened PageWalk
  import opened Tlb
  import opened SvWalk

  /** The number of bytes of an instruction, by its two lowest bits. */
  function Length(bits: nat): nat { if bits % 4 == 3 then 4 else 2 }

  /** `x` is the byte that fetching at address `v` finds, with memory as in `now`. */
  ghost predicate IsByteAt(c: Csr, ranges: seq<Range>, now: seq<Range>, v: nat, x: nat) {
    var t := Translate(ranges, c, v, Code);
    t.To? && IsRamAt(now, t.paddr) && SvWalk.Entry(now, t.paddr, 1) == x
  }

  /** The bits are the number in memory at the translated addresses of the instruction's bytes, the least significant
      first; memory is as the fetch of each half leaves it. */
  ghost predicate IsCodeAt(c: Csr, ranges: seq<Range>, pc: nat, bits: nat) {
    var top := Pow2(c.maxXlen);
    var first := Touched(ranges, c, pc, Code);
    var second := Touched(first, c, (pc + 2) % top, Code);
    && bits < (if Length(bits) == 4 then 0x1_0000_0000 else 0x1_0000)
    && IsByteAt(c, ranges, first, pc, bits % 256) && IsByteAt(c, ranges, first, (pc + 1) % top, bits / 256 % 256)
    && (bits % 4 == 3 ==>
          && IsByteAt(c, ranges, second, (pc + 2) % top, bits / 0x1_0000 % 256)
          && IsByteAt(c, ranges, second, (pc + 3) % top, bits / 0x100_0000 % 256))
  }

  /** The byte in memory at an address. */
  lemma ByteThere(ranges: seq<Range>, p: nat)
    requires IsRamAt(ranges, p) && ranges[RangeAt(ranges, p)].Valid()
    ensures var r := RangeAt(ranges, p); var o := p - ranges[r].addr;
            o < |ranges[r].mem| && SvWalk.Entry(ranges, p, 1) == ranges[r].mem[o]
  {
    var r := RangeAt(ranges, p);
    EntryIs(ranges, p, 1);
    assert ranges[r].Covers(p);
    OneByte(ranges[r].mem, p - ranges[r].addr);
    hide SvWalk.Entry, Word, FindRange;
  }

  /** Where the bytes of a half are. */
  lemma HalfPlace(c: Csr, ranges: seq<Range>, v: nat)
    requires c.Valid() && v % 2 == 0 && Translate(ranges, c, v, Code).To?
    ensures var p := Translate(ranges, c, v, Code).paddr;
            Translate(ranges, c, v + 1, Code) == To(p + 1) && p / PAGE == (p + 1) / PAGE
  {
    NextInPage(v);
    SamePageTranslates(ranges, c, v, v + 1, v / PAGE, v % PAGE, v % PAGE + 1, Code);
    hide Translate, Touches, InPage;
    SamePlace1(Translate(ranges, c, v, Code).paddr, v % PAGE);
  }

  lemma SamePlace1(p: nat, r: nat)
    requires p % PAGE == r && r + 1 < PAGE
    ensures p / PAGE == (p + 1) / PAGE
  {
  }

  /** Two bytes in one page of RAM. */
  lemma PairThere(b: seq<Range>, p: nat)
    requires ValidRanges(b) && Disjoint(b) && IsRamAt(b, p) && p / PAGE == (p + 1) / PAGE
    ensures var r := RangeAt(b, p); var o := p - b[r].addr;
      && IsRamAt(b, p + 1) && r < |b| && o + 2 <= |b[r].mem|
      && SvWalk.Entry(b, p, 1) == b[r].mem[o] && SvWalk.Entry(b, p + 1, 1) == b[r].mem[o + 1]
  {
    hide Disjoint, SvWalk.Entry, FindRange, Range.Valid;
    var r := RangeAt(b, p);
    SamePageLookup(b, p, p + 1);
    ByteThere(b, p);
    ByteThere(b, p + 1);
  }

  /** A fetch of two bytes that finds RAM. */
  lemma HalfBytes(c: Csr, ranges: seq<Range>, v: nat, x: nat, b: seq<Range>)
    requires c.Valid() && ValidRanges(ranges) && Disjoint(ranges) && v % 2 == 0
    requires PlainLoad(c, ranges, Code, v, 2) == (Ram(x), b)
    ensures b == Touched(ranges, c, v, Code) && x < 65536
    ensures IsByteAt(c, ranges, b, v, x % 256) && IsByteAt(c, ranges, b, v + 1, x / 256)
  {
    TouchedPlaces(ranges, c, v, Code);
    hide Translate, Touched, Disjoint, SamePlacement, ValidRanges, SvWalk.Entry, RangeAt, Word, Csr.Valid;
    DisjointStays(ranges, Touched(ranges, c, v, Code));
    HalfPlace(c, ranges, v);
    var p := Translate(ranges, c, v, Code).paddr;
    PairThere(b, p);
    TwoBytes(b[RangeAt(b, p)].mem, p - b[RangeAt(b, p)].addr);
  }

  lemma NextInPage(v: nat)
    requires v % 2 == 0
    ensures v % PAGE + 1 < PAGE && InPage(v, v / PAGE, v % PAGE) && InPage(v + 1, v / PAGE, v % PAGE + 1)
  {
  }

  lemma TwoBytes(m: seq<Byte>, o: nat)
    requires o + 2 <= |m|
    ensures Word(m, o, 2) % 256 == m[o] && Word(m, o, 2) / 256 == m[o + 1] && Word(m, o, 2) < 65536
  {
    assert Word(m, o + 2, 0) == 0;
    assert Word(m, o + 1, 1) == m[o + 1];
  }

  lemma DisjointStays(a: seq<Range>, b: seq<Range>)
    requires Disjoint(a) && SamePlacement(a, b)
    ensures Disjoint(b)
  {
    forall i, j, p: nat | 0 <= i < j < |b| && b[i].Covers(p) ensures !b[j].Covers(p) {
      assert SamePlace(a[i], b[i]) && SamePlace(a[j], b[j]);
      assert a[i].Covers(p);
    }
  }
}
