/** Physical memory ranges and their dirty bitmaps (iomem.c, iomem.h). */
module PhysMemory {
  import opened Powers

  type Byte = n: nat | n < 256

  // ----- little-endian words in a byte buffer

  function Word(m: seq<Byte>, o: nat, n: nat): nat
    requires o + n <= |m|
    decreases n
  {
    if n == 0 then 0 else m[o] + 256 * Word(m, o + 1, n - 1)
  }

  function BytesOf(v: nat, n: nat): (r: seq<Byte>)
    ensures |r| == n
    decreases n
  {
    if n == 0 then [] else [v % 256] + BytesOf(v / 256, n - 1)
  }

  function Stored(m: seq<Byte>, o: nat, bytes: seq<Byte>): (r: seq<Byte>)
    requires o + |bytes| <= |m|
    ensures |r| == |m|
    ensures forall k :: 0 <= k < |m| ==> r[k] == if o <= k < o + |bytes| then bytes[k - o] else m[k]
  {
    m[..o] + bytes + m[o + |bytes|..]
  }

  lemma {:induction false} WordElsewhere(m: seq<Byte>, m': seq<Byte>, o: nat, n: nat)
    requires o + n <= |m| == |m'|
    requires forall k :: o <= k < o + n ==> m[k] == m'[k]
    ensures Word(m, o, n) == Word(m', o, n)
    decreases n
  {
    if n > 0 { WordElsewhere(m, m', o + 1, n - 1); }
  }

  /** Reading back what was stored. */
  lemma {:induction false} WordOfBytes(m: seq<Byte>, o: nat, n: nat, v: nat)
    requires o + n <= |m| && v < Pow2(8 * n)
    requires forall k :: o <= k < o + n ==> m[k] == BytesOf(v, n)[k - o]
    ensures Word(m, o, n) == v
    decreases n
  {
    if n > 0 {
      Pow256(n - 1);
      forall k | o + 1 <= k < o + n ensures m[k] == BytesOf(v / 256, n - 1)[k - (o + 1)] {
        assert BytesOf(v, n)[k - o] == BytesOf(v / 256, n - 1)[k - o - 1];
      }
      WordOfBytes(m, o + 1, n - 1, v / 256);
      assert m[o] == BytesOf(v, n)[0];
    }
  }

  lemma Pow256(n: nat)
    ensures Pow2(8 * (n + 1)) == 256 * Pow2(8 * n)
  {
    Pow2Add(8 * n, 8);
    assert Pow2(8) == 256;
    assert 8 * (n + 1) == 8 * n + 8;
  }

  /** The bytes of the word that is there. */
  lemma {:induction false} BytesOfWord(m: seq<Byte>, o: nat, n: nat)
    requires o + n <= |m|
    ensures BytesOf(Word(m, o, n), n) == m[o..o + n]
    ensures Word(m, o, n) < Pow2(8 * n)
    decreases n
  {
    if n > 0 {
      BytesOfWord(m, o + 1, n - 1);
      Pow256(n - 1);
      assert m[o..o + n] == [m[o]] + m[o + 1..o + 1 + (n - 1)];
    }
  }

  lemma {:induction false} WordSplit(m: seq<Byte>, o: nat, n: nat, k: nat)
    requires k <= n && o + n <= |m|
    ensures Word(m, o, n) == Word(m, o, k) + Shl(Word(m, o + k, n - k), 8 * k)
    ensures Word(m, o, k) < Pow2(8 * k)
    decreases k
  {
    if k > 0 {
      WordSplit(m, o + 1, n - 1, k - 1);
      Pow256(k - 1);
      var w := Word(m, o + k, n - k);
      assert o + 1 + (k - 1) == o + k && n - 1 - (k - 1) == n - k;
      ShlTwice(w, 8 * (k - 1), 8);
      assert Shl(Shl(w, 8 * (k - 1)), 8) == 256 * Shl(w, 8 * (k - 1)) by { assert Pow2(8) == 256; }
      BytesOfWord(m, o, k);
    } else {
      ShlZero(Word(m, o, n));
    }
  }

  /** How a misaligned read joins two aligned words: the high bytes of the first, then the low bytes of the second. */
  function Joined(wa: nat, wb: nat, n: nat, al: nat): nat
    requires al < n
  {
    Shr(wa, 8 * al) + Low(Shl(wb, 8 * (n - al)), 8 * n)
  }

  lemma JoinedWord(a: seq<Byte>, p: nat, b: seq<Byte>, q: nat, n: nat, al: nat)
    requires p + n <= |a| && q + n <= |b| && 0 < al < n
    ensures Joined(Word(a, p, n), Word(b, q, n), n, al) == Word(a[p + al..p + n] + b[q..q + al], 0, n)
  {
    WordSplit(a, p, n, al);
    WordSplit(b, q, n, al);
    JoinDigits(Word(a, p, n), Word(a, p + al, n - al), Word(a, p, al), Word(b, q, n), Word(b, q + al, n - al),
               Word(b, q, al), 8 * al, 8 * (n - al));
    assert 8 * al + 8 * (n - al) == 8 * n;
    ConcatSlices(a, p + al, n - al, b, q, al);
    assert p + al + (n - al) == p + n && n - al + al == n;
  }

  lemma ConcatSlices(a: seq<Byte>, i: nat, k: nat, b: seq<Byte>, j: nat, l: nat)
    requires i + k <= |a| && j + l <= |b|
    ensures Word(a[i..i + k] + b[j..j + l], 0, k + l) == Word(a, i, k) + Shl(Word(b, j, l), 8 * k)
  {
    var x, y := a[i..i + k], b[j..j + l];
    var s := x + y;
    WordSplit(s, 0, k + l, k);
    assert s[0..0 + k] == x && s[k..k + l] == y;
    hide Shl, Pow2;
    WordAcross(s, 0, a, i, k);
    WordAcross(s, k, b, j, l);
  }

  lemma JoinDigits(wa: nat, hiA: nat, loA: nat, wb: nat, hiB: nat, loB: nat, x: nat, y: nat)
    requires wa == loA + Shl(hiA, x) && loA < Pow2(x) && wb == loB + Shl(hiB, x) && loB < Pow2(x)
    ensures Shr(wa, x) == hiA && Low(Shl(wb, y), x + y) == Shl(loB, y)
  {
    ShrLowUnique(wa, x, hiA, loA);
    LowOfShifted(loB, hiB, x, y);
  }

  lemma LowOfShifted(lo: nat, hi: nat, x: nat, y: nat)
    requires lo < Pow2(x)
    ensures Low(Shl(lo + Shl(hi, x), y), x + y) == Shl(lo, y)
  {
    ShlSum(lo, Shl(hi, x), y);
    ShlTwice(hi, x, y);
    ShlPow(x, y);
    ShlMono(lo, Pow2(x), y);
    ShrLowUnique(Shl(lo + Shl(hi, x), y), x + y, hi, Shl(lo, y));
  }

  lemma {:induction false} WordAcross(s: seq<Byte>, i: nat, m: seq<Byte>, o: nat, n: nat)
    requires i + n <= |s| && o + n <= |m| && s[i..i + n] == m[o..o + n]
    ensures Word(s, i, n) == Word(m, o, n)
    decreases n
  {
    if n > 0 {
      assert s[i] == s[i..i + n][0] && m[o] == m[o..o + n][0];
      assert s[i + 1..i + n] == s[i..i + n][1..] && m[o + 1..o + n] == m[o..o + n][1..];
      WordAcross(s, i + 1, m, o + 1, n - 1);
    }
  }

  // ----- dirty bitmaps: 32 pages a word

  function BitAt(w: nat, k: nat): bool {
    if k == 0 then w % 2 == 1 else BitAt(w / 2, k - 1)
  }

  function SetBit(w: nat, k: nat): nat {
    if k == 0 then w - w % 2 + 1 else w % 2 + 2 * SetBit(w / 2, k - 1)
  }

  function ClearBit(w: nat, k: nat): nat {
    if k == 0 then w - w % 2 else w % 2 + 2 * ClearBit(w / 2, k - 1)
  }

  lemma {:induction false} SetBitAt(w: nat, k: nat, j: nat)
    ensures BitAt(SetBit(w, k), j) <==> j == k || BitAt(w, j)
  {
    if k > 0 && j > 0 { SetBitAt(w / 2, k - 1, j - 1); }
  }

  lemma {:induction false} ClearBitAt(w: nat, k: nat, j: nat)
    ensures BitAt(ClearBit(w, k), j) <==> j != k && BitAt(w, j)
  {
    if k > 0 && j > 0 { ClearBitAt(w / 2, k - 1, j - 1); }
  }

  lemma {:induction false} BitsBelow(w: nat, k: nat, n: nat)
    requires k < n && w < Pow2(n)
    ensures SetBit(w, k) < Pow2(n) && ClearBit(w, k) < Pow2(n)
  {
    if k > 0 { BitsBelow(w / 2, k - 1, n - 1); }
  }

  /** A word is zero exactly when it has no bit. */
  lemma {:induction false} SomeBit(w: nat, n: nat) returns (k: nat)
    requires 0 < w < Pow2(n)
    ensures k < n && BitAt(w, k)
    decreases n
  {
    if w % 2 == 1 { k := 0; } else { k := SomeBit(w / 2, n - 1); k := k + 1; }
  }

  lemma {:induction false} NoBit(k: nat)
    ensures !BitAt(0, k)
  {
    if k > 0 { NoBit(k - 1); }
  }

  function PageBit(bits: seq<nat>, page: nat): bool {
    page / 32 < |bits| && BitAt(bits[page / 32], page % 32)
  }

  // ----- ranges

  const PAGE: nat := 4096

  /** PhysMemoryRange. `bits` are the two bitmaps of which `index` is the one in use; both are empty
      when the range keeps no dirty bits. */
  datatype Range = Range(addr: nat, orgSize: nat, size: nat, isRam: bool, mem: seq<Byte>, tracked: bool,
                         bits: seq<seq<nat>>, index: nat) {
    ghost predicate Valid() {
      && (size == 0 || size == orgSize)
      && (isRam ==> |mem| == orgSize && orgSize % PAGE == 0 && addr % PAGE == 0)
      && (tracked ==> isRam && |bits| == 2 && index < 2 && forall b :: 0 <= b < 2 ==> IsBitmap(bits[b], orgSize / PAGE))
    }

    /** Whether the range covers the address. */
    predicate Covers(paddr: nat) { addr <= paddr < addr + size }

    /** phys_mem_is_dirty_bit at a page of the range. */
    predicate Dirty(page: nat) {
      tracked && index < |bits| && PageBit(bits[index], page)
    }
  }

  /** The words of a bitmap for `pages` pages; no bit is set past the last page. */
  ghost predicate IsBitmap(b: seq<nat>, pages: nat) {
    && |b| == (pages + 31) / 32
    && (forall i :: 0 <= i < |b| ==> b[i] < Pow2(32))
    && (forall p: nat :: PageBit(b, p) ==> p < pages)
  }

  function SetPageBit(b: seq<nat>, page: nat): seq<nat>
    requires page / 32 < |b|
  {
    b[page / 32 := SetBit(b[page / 32], page % 32)]
  }

  function ClearPageBit(b: seq<nat>, page: nat): seq<nat>
    requires page / 32 < |b|
  {
    b[page / 32 := ClearBit(b[page / 32], page % 32)]
  }

  lemma SetPageBitAt(b: seq<nat>, page: nat, p: nat)
    requires page / 32 < |b|
    ensures PageBit(SetPageBit(b, page), p) <==> p == page || PageBit(b, p)
  {
    if p / 32 == page / 32 { SetBitAt(b[page / 32], page % 32, p % 32); }
  }

  lemma ClearPageBitAt(b: seq<nat>, page: nat, p: nat)
    requires page / 32 < |b|
    ensures PageBit(ClearPageBit(b, page), p) <==> p != page && PageBit(b, p)
  {
    if p / 32 == page / 32 { ClearBitAt(b[page / 32], page % 32, p % 32); }
  }

  lemma SetPageBitValid(b: seq<nat>, page: nat, pages: nat)
    requires IsBitmap(b, pages) && page < pages
    ensures page / 32 < |b| && IsBitmap(SetPageBit(b, page), pages)
  {
    BitsBelow(b[page / 32], page % 32, 32);
    forall p: nat ensures PageBit(SetPageBit(b, page), p) ==> p < pages { SetPageBitAt(b, page, p); }
  }

  lemma ClearPageBitValid(b: seq<nat>, page: nat, pages: nat)
    requires IsBitmap(b, pages) && page < pages
    ensures page / 32 < |b| && IsBitmap(ClearPageBit(b, page), pages)
  {
    BitsBelow(b[page / 32], page % 32, 32);
    forall p: nat ensures PageBit(ClearPageBit(b, page), p) ==> p < pages { ClearPageBitAt(b, page, p); }
  }

  function ZeroBitmap(n: nat): seq<nat> {
    seq(n, i => 0)
  }

  lemma ZeroNoPage(n: nat, p: nat)
    ensures !PageBit(ZeroBitmap(n), p)
  {
    NoBit(p % 32);
  }

  lemma ZeroBitmapValid(pages: nat)
    ensures IsBitmap(ZeroBitmap((pages + 31) / 32), pages)
  {
    var z := ZeroBitmap((pages + 31) / 32);
    forall p: nat ensures PageBit(z, p) ==> p < pages { ZeroNoPage((pages + 31) / 32, p); }
  }

  /** The range that get_phys_mem_range finds for an address, from entry `i` on: the first that covers it. */
  function FindRange(ranges: seq<Range>, paddr: nat, i: nat): (r: nat)
    requires i <= |ranges|
    ensures i <= r <= |ranges|
    ensures r < |ranges| ==> ranges[r].Covers(paddr)
    ensures forall k :: i <= k < r ==> !ranges[k].Covers(paddr)
    decreases |ranges| - i
  {
    if i == |ranges| || ranges[i].Covers(paddr) then i else FindRange(ranges, paddr, i + 1)
  }

  /** |ranges| when no range covers the address. */
  function RangeAt(ranges: seq<Range>, paddr: nat): (r: nat)
    ensures r <= |ranges| && (r < |ranges| ==> ranges[r].Covers(paddr))
  {
    FindRange(ranges, paddr, 0)
  }

  predicate IsRamAt(ranges: seq<Range>, paddr: nat) {
    RangeAt(ranges, paddr) < |ranges| && ranges[RangeAt(ranges, paddr)].isRam
  }

  /** The lookup depends on the placement of the ranges only. */
  ghost predicate SamePlacement(a: seq<Range>, b: seq<Range>) {
    |a| == |b| && forall i :: 0 <= i < |a| ==> SamePlace(a[i], b[i])
  }

  ghost predicate SamePlace(a: Range, b: Range) {
    a.addr == b.addr && a.size == b.size && a.orgSize == b.orgSize && a.isRam == b.isRam && a.tracked == b.tracked
  }

  lemma {:induction false} SameLookup(a: seq<Range>, b: seq<Range>, paddr: nat, i: nat)
    requires SamePlacement(a, b) && i <= |a|
    ensures FindRange(a, paddr, i) == FindRange(b, paddr, i)
    decreases |a| - i
  {
    if i < |a| {
      assert SamePlace(a[i], b[i]);
      SameLookup(a, b, paddr, i + 1);
    }
  }

  /** No address is covered twice. */
  ghost predicate Disjoint(ranges: seq<Range>) {
    forall i, j, p: nat :: 0 <= i < j < |ranges| && ranges[i].Covers(p) ==> !ranges[j].Covers(p)
  }

  ghost predicate ValidRanges(ranges: seq<Range>) {
    forall i :: 0 <= i < |ranges| ==> ranges[i].Valid()
  }

  lemma PageCover(r: Range, p: nat, q: nat)
    requires r.Valid() && r.isRam && r.Covers(p) && p / PAGE == q / PAGE
    ensures r.Covers(q)
  {
  }

  /** Addresses of one page fall into the same RAM range. */
  lemma SamePageLookup(ranges: seq<Range>, p: nat, q: nat)
    requires ValidRanges(ranges) && Disjoint(ranges) && IsRamAt(ranges, p) && p / PAGE == q / PAGE
    ensures RangeAt(ranges, q) == RangeAt(ranges, p)
  {
    var r, s := RangeAt(ranges, p), RangeAt(ranges, q);
    PageCover(ranges[r], p, q);
  }
}
