/** What an aligned store leaves in memory (riscv_cpu.c: riscv_cpu_write_memory), byte by byte. */
module StoreMeaning {
  import opened PhysMemory
  import opened PageWalk
  import opened Tlb
  import opened SvWalk
  import CodeBytes

  /** An address is in RAM. */
  predicate InRam(ranges: seq<Range>, p: nat) {
    exists r :: 0 <= r < |ranges| && ranges[r].isRam && ranges[r].addr <= p < ranges[r].addr + ranges[r].size
  }

  function ByteAt(ranges: seq<Range>, p: nat): nat { SvWalk.Entry(ranges, p, 1) }

  lemma RamIs(ranges: seq<Range>, p: nat)
    requires Disjoint(ranges)
    ensures IsRamAt(ranges, p) <==> InRam(ranges, p)
  {
    forall r | 0 <= r < |ranges| && ranges[r].Covers(p) ensures RangeAt(ranges, p) == r {
    }
  }

  lemma PlacedAlike(a: seq<Range>, b: seq<Range>, p: nat)
    requires SamePlacement(a, b) && Disjoint(a)
    ensures Disjoint(b) && RangeAt(a, p) == RangeAt(b, p) && (IsRamAt(a, p) <==> IsRamAt(b, p))
    ensures InRam(a, p) <==> InRam(b, p)
  {
    SameLookup(a, b, p, 0);
    CodeBytes.DisjointStays(a, b);
    RamIs(a, p);
    RamIs(b, p);
    hide InRam, Disjoint, FindRange;
    if RangeAt(a, p) < |a| {
      assert SamePlace(a[RangeAt(a, p)], b[RangeAt(a, p)]);
    }
  }

  lemma ByteThere(ranges: seq<Range>, p: nat)
    requires IsRamAt(ranges, p) && ValidRanges(ranges)
    ensures var r := RangeAt(ranges, p);
            && r < |ranges| && ranges[r].addr <= p < ranges[r].addr + |ranges[r].mem|
            && ByteAt(ranges, p) == ranges[r].mem[p - ranges[r].addr]
  {
    hide SvWalk.Entry, FindRange;
    CodeBytes.ByteThere(ranges, p);
    assert ranges[RangeAt(ranges, p)].Covers(p);
  }

  /** Marking a page dirty changes no byte. */
  lemma ReachedBytes(c: Csr, ranges: seq<Range>, v: nat)
    requires ValidRanges(ranges)
    ensures var w, r := Touched(ranges, c, v, Write), Reached(c, ranges, Write, v);
      && SamePlacement(ranges, w) && ValidRanges(w) && SamePlacement(ranges, r) && ValidRanges(r) && |w| == |r|
      && (Translate(ranges, c, v, Write).To? ==> forall i :: 0 <= i < |w| ==> w[i].mem == r[i].mem)
      && (Translate(ranges, c, v, Write).To? && !IsRamAt(w, Translate(ranges, c, v, Write).paddr) ==> r == w)
  {
    TouchedKeeps(ranges, c, v, Write);
    ReachedKeeps(c, ranges, Write, v);
    hide Translate, Touched, FindRange, SetDirty, ValidRanges;
    SetDirtyMem(Touched(ranges, c, v, Write));
  }

  lemma SetDirtyMem(b: seq<Range>)
    ensures forall r, page: nat {:trigger MarkAt(b, r, page)} :: 0 <= r < |b| ==>
              |MarkAt(b, r, page)| == |b| && forall i :: 0 <= i < |b| ==> MarkAt(b, r, page)[i].mem == b[i].mem
  {
  }

  /** The bytes of an aligned access are in the buffer of one range. */
  lemma StoreFits(c: Csr, ranges: seq<Range>, v: nat, n: nat, now: seq<Range>)
    requires c.Valid() && IsSize(n) && v % n == 0 && ValidRanges(now)
    requires var t := Translate(ranges, c, v, Write); t.To? && IsRamAt(now, t.paddr)
    ensures var p := Translate(ranges, c, v, Write).paddr; var r := RangeAt(now, p);
            now[r].addr <= p && p - now[r].addr + n <= |now[r].mem| == now[r].size
  {
    SplitAddr(v);
    SamePageTranslates(ranges, c, v, v, v / PAGE, v % PAGE, v % PAGE, Write);
    AlignedInPage(v, n);
    var p := Translate(ranges, c, v, Write).paddr;
    PageOfRam(now, p);
    assert now[RangeAt(now, p)].Valid();
    hide Translate, FindRange;
  }

  lemma StoredByte(a: seq<Range>, b: seq<Range>, r: nat, o: nat, bytes: seq<Byte>, q: nat)
    requires ValidRanges(a) && Disjoint(a) && IsRamAt(a, q)
    requires r < |a| && o + |bytes| <= |a[r].mem| == a[r].size && b == WriteAt(a, r, o, bytes)
    ensures SamePlacement(a, b) && ValidRanges(b)
    ensures var p := a[r].addr + o; ByteAt(b, q) == if p <= q < p + |bytes| then bytes[q - p] else ByteAt(a, q)
  {
    hide *;
    WriteAtKeeps(a, r, o, bytes);
    KeptPlaces(a, b);
    PlacedAlike(a, b, q);
    ByteThere(a, q);
    ByteThere(b, q);
    Written(a, r, o, bytes);
    var s := RangeAt(a, q);
    if a[r].addr + o <= q < a[r].addr + o + |bytes| {
      OnlyRange(a, r, q);
    }
    StoredOne(a, r, o, bytes, s, q);
  }

  lemma KeptPlaces(a: seq<Range>, b: seq<Range>)
    requires Keeps(a, b)
    ensures SamePlacement(a, b) && ValidRanges(b)
  {
  }

  lemma StoredOne(a: seq<Range>, r: nat, o: nat, bytes: seq<Byte>, s: nat, q: nat)
    requires r < |a| && s < |a| && o + |bytes| <= |a[r].mem| && a[s].addr <= q < a[s].addr + |a[s].mem|
    requires a[r].addr + o <= q < a[r].addr + o + |bytes| ==> s == r
    ensures var b := a[r := a[r].(mem := Stored(a[r].mem, o, bytes))]; var p := a[r].addr + o;
            b[s].mem[q - a[s].addr] == if p <= q < p + |bytes| then bytes[q - p] else a[s].mem[q - a[s].addr]
  {
    hide *;
    Pointwise(a[r].mem, o, bytes);
  }

  lemma Pointwise(m: seq<Byte>, o: nat, bytes: seq<Byte>)
    requires o + |bytes| <= |m|
    ensures forall k :: 0 <= k < |m| ==> Stored(m, o, bytes)[k] == if o <= k < o + |bytes| then bytes[k - o] else m[k]
  {
  }

  lemma Written(a: seq<Range>, r: nat, o: nat, bytes: seq<Byte>)
    requires r < |a| && o + |bytes| <= |a[r].mem|
    ensures WriteAt(a, r, o, bytes) == a[r := a[r].(mem := Stored(a[r].mem, o, bytes))]
  {
  }

  lemma OnlyRange(a: seq<Range>, r: nat, q: nat)
    requires Disjoint(a) && r < |a| && a[r].addr <= q < a[r].addr + a[r].size
    ensures RangeAt(a, q) == r
  {
    assert a[r].Covers(q);
  }

  /** The bytes of a store are at the translated address and after it, and all other bytes of memory are as the walk
      left them. */
  lemma StoreIs(c: Csr, ranges: seq<Range>, v: nat, bytes: seq<Byte>)
    requires c.Valid() && ValidRanges(ranges) && Disjoint(ranges) && IsSize(|bytes|) && v % |bytes| == 0
    ensures var t, walked := Translate(ranges, c, v, Write), Touched(ranges, c, v, Write);
            var (x, b) := PlainStore(c, ranges, v, bytes);
      && (x.AccessFault? <==> t.PageFault?)
      && (x.Ram? <==> t.To? && InRam(walked, t.paddr))
      && SamePlacement(ranges, b)
      && if x.Ram? then
           forall a: nat :: InRam(ranges, a) ==>
             ByteAt(b, a) == if t.paddr <= a < t.paddr + |bytes| then bytes[a - t.paddr] else ByteAt(walked, a)
         else b == (if x.AccessFault? then ranges else walked)
  {
    var t, walked := Translate(ranges, c, v, Write), Touched(ranges, c, v, Write);
    var reached := Reached(c, ranges, Write, v);
    var (x, b) := PlainStore(c, ranges, v, bytes);
    hide Translate, Touched, Reached, Disjoint, InRam, ByteAt, RangeAt, Csr.Valid, WriteAt, Range.Valid;
    ReachedBytes(c, ranges, v);
    SelfPlaced(ranges);
    if t.PageFault? {
      return;
    }
    PlacedAlike(ranges, walked, t.paddr);
    PlacedAlike(ranges, reached, t.paddr);
    RamIs(walked, t.paddr);
    if x.Ram? {
      StoreFits(c, ranges, v, |bytes|, reached);
      var r := RangeAt(reached, t.paddr);
      var o := t.paddr - reached[r].addr;
      StoredByte(reached, b, r, o, bytes, t.paddr);
      forall a: nat | InRam(ranges, a)
        ensures ByteAt(b, a) == if t.paddr <= a < t.paddr + |bytes| then bytes[a - t.paddr] else ByteAt(walked, a)
      {
        PlacedAlike(ranges, reached, a);
        PlacedAlike(ranges, walked, a);
        RamIs(ranges, a);
        StoredByte(reached, b, r, o, bytes, a);
        ByteThere(reached, a);
        ByteThere(walked, a);
      }
    }
  }

  lemma SelfPlaced(a: seq<Range>)
    ensures SamePlacement(a, a)
  {
  }
}
