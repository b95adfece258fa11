/** The frame buffer refresh (simplefb.c: simplefb_refresh): dirty pages are merged into bands of rows to redraw. */
module SimpleFb {
  import opened Powers
  import opened PhysMemory

  const MAX_MERGE_DISTANCE: int := 3

  datatype Fb = Fb(stride: nat, height: nat)

  /** A call of the redraw function: rows `y` to `y` + `h`. */
  datatype Band = Band(y: int, h: int) {
    predicate Covers(row: nat) { y <= row < y + h }
  }

  /** The bands redrawn so far and the region y0 .. y1 still being gathered. */
  datatype Scan = Scan(out: seq<Band>, y0: int, y1: int)

  predicate ValidFb(f: Fb) { f.stride > 0 }

  function FirstRow(f: Fb, page: nat): nat
    requires ValidFb(f)
  {
    page * PAGE / f.stride
  }

  function EndRow(f: Fb, page: nat): nat
    requires ValidFb(f)
  {
    (page * PAGE + PAGE - 1) / f.stride + 1
  }

  /** Row `row` has bytes in the page. */
  predicate RowInPage(f: Fb, row: nat, page: nat) {
    row * f.stride < page * PAGE + PAGE && page * PAGE < row * f.stride + f.stride
  }

  function Min(a: int, b: int): int { if a < b then a else b }

  function AddPage(f: Fb, s: Scan, page: nat): Scan
    requires ValidFb(f)
  {
    var a, b := FirstRow(f, page), Min(EndRow(f, page), f.height);
    if s.y0 == s.y1 then Scan(s.out, a, b)
    else if a <= s.y1 + MAX_MERGE_DISTANCE then s.(y1 := b)
    else Scan(s.out + [Band(s.y0, s.y1 - s.y0)], a, b)
  }

  /** The dirty pages below `n` gathered in order. */
  function Gathered(f: Fb, dirty: seq<nat>, n: nat): Scan
    requires ValidFb(f)
  {
    if n == 0 then Scan([], 0, 0)
    else
      var s := Gathered(f, dirty, n - 1);
      if PageBit(dirty, n - 1) then AddPage(f, s, n - 1) else s
  }

  /** All redraw calls of a refresh. */
  function Redraws(f: Fb, dirty: seq<nat>, n: nat): seq<Band>
    requires ValidFb(f)
  {
    var s := Gathered(f, dirty, n);
    if s.y0 != s.y1 then s.out + [Band(s.y0, s.y1 - s.y0)] else s.out
  }

  lemma RowBounds(f: Fb, row: nat, page: nat)
    requires ValidFb(f)
    ensures RowInPage(f, row, page) <==> FirstRow(f, page) <= row < EndRow(f, page)
  {
    var s, x, y := f.stride, page * PAGE, page * PAGE + PAGE - 1;
    DivBounds(x, s, row);
    DivBounds(y, s, row);
    assert row * s + s == (row + 1) * s;
  }

  /** row < x / s and row == x / s in terms of products. */
  lemma DivBounds(x: nat, s: nat, row: nat)
    requires s > 0
    ensures x / s <= row <==> x < (row + 1) * s
    ensures row <= x / s <==> row * s <= x
  {
    var q := x / s;
    assert x == q * s + x % s;
    if q <= row { MulMonoNat(q, row, s); assert (row + 1) * s == row * s + s; } else { MulMonoNat(row + 1, q, s); }
    if row <= q { MulMonoNat(row, q, s); } else { MulMonoNat(q + 1, row, s); assert (q + 1) * s == q * s + s; }
  }

  lemma MulMonoNat(a: nat, b: nat, s: nat)
    requires a <= b
    ensures a * s <= b * s
  {
    assert b * s - a * s == (b - a) * s;
  }

  /** Later pages begin and end no earlier. */
  lemma RowsGrow(f: Fb, p: nat, q: nat)
    requires ValidFb(f) && p <= q
    ensures FirstRow(f, p) <= FirstRow(f, q) && EndRow(f, p) <= EndRow(f, q)
  {
    DivMono(p * PAGE, q * PAGE, f.stride);
    DivMono(p * PAGE + PAGE - 1, q * PAGE + PAGE - 1, f.stride);
  }

  lemma DivMono(a: nat, b: nat, s: nat)
    requires s > 0 && a <= b
    ensures a / s <= b / s
  {
    DivBounds(a, s, a / s);
    DivBounds(b, s, a / s);
  }

  ghost predicate Covered(bands: seq<Band>, row: nat) {
    exists i :: 0 <= i < |bands| && bands[i].Covers(row)
  }

  ghost predicate InScan(s: Scan, row: nat) {
    s.y0 <= row < s.y1 || Covered(s.out, row)
  }

  /** The region starts no later and ends no later than any page still to come. */
  ghost predicate Behind(f: Fb, s: Scan, n: nat)
    requires ValidFb(f)
  {
    s.y0 <= FirstRow(f, n) && s.y1 <= Min(EndRow(f, n), f.height)
  }

  lemma {:induction false} GatheredBehind(f: Fb, dirty: seq<nat>, n: nat)
    requires ValidFb(f)
    ensures Behind(f, Gathered(f, dirty, n), n)
  {
    if n > 0 {
      GatheredBehind(f, dirty, n - 1);
      RowsGrow(f, n - 1, n);
    }
  }

  lemma AddPageKeeps(f: Fb, s: Scan, page: nat, row: nat)
    requires ValidFb(f) && Behind(f, s, page) && row < f.height
    requires InScan(s, row) || FirstRow(f, page) <= row < EndRow(f, page)
    ensures InScan(AddPage(f, s, page), row)
  {
    hide FirstRow, EndRow;
    var s' := AddPage(f, s, page);
    if Covered(s.out, row) {
      var i :| 0 <= i < |s.out| && s.out[i].Covers(row);
      assert s'.out[i].Covers(row);
    } else if s'.out != s.out {
      assert s'.out[|s.out|] == Band(s.y0, s.y1 - s.y0);
      if s.y0 <= row < s.y1 { assert s'.out[|s.out|].Covers(row); }
    }
  }

  /** Every visible row of every dirty page is redrawn. */
  lemma {:induction false} GatheredCovers(f: Fb, dirty: seq<nat>, n: nat, page: nat, row: nat)
    requires ValidFb(f) && page < n && PageBit(dirty, page) && RowInPage(f, row, page) && row < f.height
    ensures InScan(Gathered(f, dirty, n), row)
  {
    RowBounds(f, row, page);
    GatheredBehind(f, dirty, n - 1);
    hide FirstRow, EndRow, RowInPage, PageBit, Behind, InScan;
    if page < n - 1 { GatheredCovers(f, dirty, n - 1, page, row); }
    if PageBit(dirty, n - 1) { AddPageKeeps(f, Gathered(f, dirty, n - 1), n - 1, row); }
  }

  lemma DirtyRowsAreRedrawn(f: Fb, dirty: seq<nat>, n: nat, page: nat, row: nat)
    requires ValidFb(f) && page < n && PageBit(dirty, page) && RowInPage(f, row, page) && row < f.height
    ensures Covered(Redraws(f, dirty, n), row)
  {
    GatheredCovers(f, dirty, n, page, row);
    hide FirstRow, EndRow, RowInPage, PageBit, Gathered;
    var s, bands := Gathered(f, dirty, n), Redraws(f, dirty, n);
    if Covered(s.out, row) {
      var i :| 0 <= i < |s.out| && s.out[i].Covers(row);
      assert bands[i].Covers(row);
    } else {
      assert bands[|s.out|].Covers(row);
    }
  }

  // ----- the shape of the bands

  predicate Proper(f: Fb, b: Band) {
    0 <= b.y && 0 < b.h && b.y + b.h <= f.height
  }

  ghost predicate AllProper(f: Fb, bands: seq<Band>) {
    forall i :: 0 <= i < |bands| ==> Proper(f, bands[i])
  }

  lemma FirstBeforeEnd(f: Fb, page: nat)
    requires ValidFb(f)
    ensures FirstRow(f, page) < EndRow(f, page)
  {
    DivMono(page * PAGE, page * PAGE + PAGE - 1, f.stride);
  }

  lemma {:induction false} GatheredProper(f: Fb, dirty: seq<nat>, n: nat)
    requires ValidFb(f) && (n > 0 ==> FirstRow(f, n - 1) <= f.height)
    ensures var s := Gathered(f, dirty, n); AllProper(f, s.out) && 0 <= s.y0 <= s.y1 <= f.height
  {
    if n > 0 {
      if n > 1 { RowsGrow(f, n - 2, n - 1); }
      GatheredProper(f, dirty, n - 1);
      GatheredBehind(f, dirty, n - 1);
      FirstBeforeEnd(f, n - 1);
      hide FirstRow, EndRow, PageBit;
    }
  }

  /** The bitmap with a single dirty page. */
  function OnePage(words: nat, page: nat): seq<nat>
    requires page / 32 < words
  {
    SetPageBit(ZeroBitmap(words), page)
  }

  lemma OnePageBit(words: nat, page: nat, p: nat)
    requires page / 32 < words
    ensures PageBit(OnePage(words, page), p) <==> p == page
  {
    SetPageBitAt(ZeroBitmap(words), page, p);
    ZeroNoPage(words, p);
  }

  lemma {:induction false} OnePageGathered(f: Fb, words: nat, page: nat, n: nat)
    requires ValidFb(f) && page / 32 < words
    ensures Gathered(f, OnePage(words, page), n) ==
            if n <= page then Scan([], 0, 0) else Scan([], FirstRow(f, page), Min(EndRow(f, page), f.height))
  {
    if n > 0 {
      OnePageGathered(f, words, page, n - 1);
      OnePageBit(words, page, n - 1);
      hide PageBit, OnePage, FirstRow, EndRow;
    }
  }

  /** The redraw calls are nonempty and on the screen for every bitmap exactly when no page of the buffer starts below
      the end of the screen. The buffer is rounded up to 64 KiB, so its last pages may well do: a store there makes a
      call with a negative height. */
  lemma BandsProperIff(f: Fb, words: nat, n: nat)
    requires ValidFb(f) && n <= 32 * words
    ensures (forall dirty: seq<nat> :: |dirty| == words ==> AllProper(f, Redraws(f, dirty, n)))
            <==> (n == 0 || FirstRow(f, n - 1) <= f.height)
  {
    if n == 0 || FirstRow(f, n - 1) <= f.height {
      forall dirty: seq<nat> | |dirty| == words ensures AllProper(f, Redraws(f, dirty, n)) {
        GatheredProper(f, dirty, n);
      }
    } else {
      var page := n - 1;
      OnePageGathered(f, words, page, n);
      FirstBeforeEnd(f, page);
      var dirty := OnePage(words, page);
      assert |dirty| == words;
      assert !Proper(f, Redraws(f, dirty, n)[0]);
    }
  }

  // ----- no more than that

  /** The row, or one of the three below it, has bytes in a dirty page. */
  ghost predicate NearDirty(f: Fb, dirty: seq<nat>, n: nat, row: nat) {
    exists page, k :: 0 <= page < n && PageBit(dirty, page) && row <= k <= row + 3 && RowInPage(f, k, page)
  }

  /** More than three rows lie between a band and the next. */
  ghost predicate Apart(bands: seq<Band>) {
    forall i :: 0 <= i < |bands| - 1 ==> bands[i].y + bands[i].h + 3 < bands[i + 1].y
  }

  lemma NearFirst(f: Fb, dirty: seq<nat>, n: nat, page: nat, row: nat)
    requires ValidFb(f) && page < n && PageBit(dirty, page) && FirstRow(f, page) <= row + 3 && row < EndRow(f, page)
    ensures NearDirty(f, dirty, n, row)
  {
    var k := if row < FirstRow(f, page) then FirstRow(f, page) else row;
    FirstBeforeEnd(f, page);
    RowBounds(f, k, page);
    hide FirstRow, EndRow, RowInPage, PageBit;
  }

  lemma NearMore(f: Fb, dirty: seq<nat>, n: nat, row: nat)
    requires NearDirty(f, dirty, n, row)
    ensures NearDirty(f, dirty, n + 1, row)
  {
    hide RowInPage, PageBit;
  }

  lemma AddPageAdds(f: Fb, s: Scan, page: nat, row: nat)
    requires ValidFb(f) && InScan(AddPage(f, s, page), row)
    ensures InScan(s, row) || (FirstRow(f, page) <= row + 3 && row < EndRow(f, page))
  {
    hide FirstRow, EndRow;
    var s' := AddPage(f, s, page);
    if Covered(s'.out, row) {
      var i :| 0 <= i < |s'.out| && s'.out[i].Covers(row);
      if i < |s.out| { assert s.out[i].Covers(row); }
    }
  }

  lemma {:induction false} GatheredNear(f: Fb, dirty: seq<nat>, n: nat, row: nat)
    requires ValidFb(f) && InScan(Gathered(f, dirty, n), row)
    ensures NearDirty(f, dirty, n, row)
  {
    hide FirstRow, EndRow, PageBit, NearDirty, InScan, AddPage;
    if n == 0 {
      NothingInScan(row);
    } else {
      var s := Gathered(f, dirty, n - 1);
      if PageBit(dirty, n - 1) { AddPageAdds(f, s, n - 1, row); }
      if InScan(s, row) {
        GatheredNear(f, dirty, n - 1, row);
        NearMore(f, dirty, n - 1, row);
      } else {
        NearFirst(f, dirty, n, n - 1, row);
      }
    }
  }

  lemma NothingInScan(row: nat)
    ensures !InScan(Scan([], 0, 0), row)
  {
  }

  ghost predicate ApartScan(s: Scan) {
    Apart(s.out) && (s.out != [] ==> s.out[|s.out| - 1].y + s.out[|s.out| - 1].h + 3 < s.y0)
  }

  lemma {:induction false} GatheredApart(f: Fb, dirty: seq<nat>, n: nat)
    requires ValidFb(f)
    ensures ApartScan(Gathered(f, dirty, n))
  {
    if n > 0 {
      GatheredApart(f, dirty, n - 1);
      GatheredBehind(f, dirty, n - 1);
      hide FirstRow, EndRow, PageBit;
    }
  }

  /** The rows redrawn are those of dirty pages and at most three in front of one; further apart, bands stay apart. */
  lemma BandsAreTight(f: Fb, dirty: seq<nat>, n: nat)
    requires ValidFb(f)
    ensures Apart(Redraws(f, dirty, n))
    ensures forall row: nat :: Covered(Redraws(f, dirty, n), row) ==> NearDirty(f, dirty, n, row)
  {
    GatheredApart(f, dirty, n);
    var s, bands := Gathered(f, dirty, n), Redraws(f, dirty, n);
    hide Gathered, NearDirty;
    forall row: nat | Covered(bands, row) ensures NearDirty(f, dirty, n, row) {
      var i :| 0 <= i < |bands| && bands[i].Covers(row);
      if i < |s.out| { assert s.out[i].Covers(row); }
      GatheredNear(f, dirty, n, row);
    }
  }

  // ----- the loops

  /** What is left of a word once the bits below `b` are cleared. */
  ghost predicate Rest(left: nat, word: nat, b: nat) {
    forall j: nat :: BitAt(left, j) <==> b <= j && BitAt(word, j)
  }

  ghost predicate NoneBetween(left: nat, a: nat, b: nat) {
    forall j: nat :: a <= j < b ==> !BitAt(left, j)
  }

  lemma NoBitsLeft(left: nat, word: nat, b: nat, j: nat)
    requires Rest(left, word, b) && left == 0 && b <= j
    ensures !BitAt(word, j)
  {
    NoBit(j);
  }

  /** Pages whose bits are clear change nothing. */
  lemma {:induction false} SkipClear(f: Fb, dirty: seq<nat>, m: nat, n: nat)
    requires ValidFb(f) && m <= n && forall p: nat :: m <= p < n ==> !PageBit(dirty, p)
    ensures Gathered(f, dirty, n) == Gathered(f, dirty, m)
    decreases n
  {
    if m < n { SkipClear(f, dirty, m, n - 1); }
  }

  lemma WordPage(dirty: seq<nat>, w: nat, j: nat)
    requires w < |dirty| && j < 32
    ensures PageBit(dirty, 32 * w + j) <==> BitAt(dirty[w], j)
  {
    assert (32 * w + j) / 32 == w && (32 * w + j) % 32 == j;
  }

  /** The innermost loop of simplefb_refresh: the lowest bit set. */
  method NextBit(dirtyVal: nat, ghost word: nat, ghost next: nat, start: nat) returns (bitPos: nat)
    requires 0 < dirtyVal < Pow2(32) && Rest(dirtyVal, word, next) && start <= next <= start + 1
    ensures next <= bitPos < 32 && BitAt(dirtyVal, bitPos) && NoneBetween(dirtyVal, next, bitPos)
  {
    ghost var top := SomeBit(dirtyVal, 32);
    hide Pow2, BitAt;
    bitPos := start;
    while !BitAt(dirtyVal, bitPos)
      invariant bitPos <= top && forall j: nat :: next <= j < bitPos ==> !BitAt(dirtyVal, j)
      decreases 32 - bitPos
    {
      bitPos := bitPos + 1;
    }
  }

  /** The bits of word `w`, lowest first: the inner loops of simplefb_refresh. */
  method RefreshWord(f: Fb, dirty: seq<nat>, w: nat, s0: Scan) returns (s: Scan)
    requires ValidFb(f) && w < |dirty| && dirty[w] < Pow2(32)
    requires s0 == Gathered(f, dirty, 32 * w)
    ensures s == Gathered(f, dirty, 32 * w + 32)
  {
    hide *;
    s := s0;
    ghost var word := dirty[w];
    var dirtyVal: nat := dirty[w];
    var bitPos := 0;
    ghost var next := 0;
    RestAll(word);
    while dirtyVal != 0
      invariant next <= 32 && bitPos <= next <= bitPos + 1
      invariant dirtyVal < Pow2(32) && Rest(dirtyVal, word, next)
      invariant s == Gathered(f, dirty, 32 * w + next)
      decreases dirtyVal
    {
      bitPos := NextBit(dirtyVal, word, next, bitPos);
      FoundPage(f, dirty, w, next, bitPos, dirtyVal, word);
      ClearedRest(dirtyVal, word, next, bitPos);
      BitsBelow(dirtyVal, bitPos, 32);
      dirtyVal := ClearBit(dirtyVal, bitPos);
      s := AddPage(f, s, 32 * w + bitPos);
      next := bitPos + 1;
    }
    NoMorePages(f, dirty, w, next, word);
  }

  lemma RestAll(word: nat)
    ensures Rest(word, word, 0)
  {
  }

  lemma NoMorePages(f: Fb, dirty: seq<nat>, w: nat, next: nat, word: nat)
    requires ValidFb(f) && w < |dirty| && word == dirty[w] && next <= 32 && Rest(0, word, next)
    ensures Gathered(f, dirty, 32 * w + 32) == Gathered(f, dirty, 32 * w + next)
  {
    forall p: nat | 32 * w + next <= p < 32 * w + 32 ensures !PageBit(dirty, p) {
      NoBitsLeft(0, word, next, p - 32 * w);
      WordPage(dirty, w, p - 32 * w);
    }
    SkipClear(f, dirty, 32 * w + next, 32 * w + 32);
  }

  lemma FoundPage(f: Fb, dirty: seq<nat>, w: nat, next: nat, bitPos: nat, left: nat, word: nat)
    requires ValidFb(f) && w < |dirty| && word == dirty[w]
    requires next <= bitPos < 32 && Rest(left, word, next) && BitAt(left, bitPos) && NoneBetween(left, next, bitPos)
    ensures AddPage(f, Gathered(f, dirty, 32 * w + next), 32 * w + bitPos) == Gathered(f, dirty, 32 * w + (bitPos + 1))
  {
    forall p: nat | 32 * w + next <= p < 32 * w + bitPos ensures !PageBit(dirty, p) {
      WordPage(dirty, w, p - 32 * w);
      assert !BitAt(left, p - 32 * w);
    }
    SkipClear(f, dirty, 32 * w + next, 32 * w + bitPos);
    WordPage(dirty, w, bitPos);
    hide PageBit, FirstRow, EndRow, AddPage;
  }

  lemma ClearedRest(left: nat, word: nat, next: nat, bitPos: nat)
    requires Rest(left, word, next) && next <= bitPos && BitAt(left, bitPos)
    requires NoneBetween(left, next, bitPos)
    ensures Rest(ClearBit(left, bitPos), word, bitPos + 1)
    ensures ClearBit(left, bitPos) < left
  {
    ClearLess(left, bitPos);
    forall j: nat ensures BitAt(ClearBit(left, bitPos), j) <==> bitPos + 1 <= j && BitAt(word, j) {
      ClearBitAt(left, bitPos, j);
    }
  }

  lemma {:induction false} ClearLess(w: nat, k: nat)
    requires BitAt(w, k)
    ensures ClearBit(w, k) < w
  {
    if k > 0 { ClearLess(w / 2, k - 1); }
  }

  /** simplefb_refresh, on the bitmap collected: the redraw calls in order. */
  method Refresh(f: Fb, dirty: seq<nat>, pages: nat) returns (redraws: seq<Band>)
    requires ValidFb(f) && IsBitmap(dirty, pages)
    ensures redraws == Redraws(f, dirty, pages)
    ensures forall page: nat, row: nat ::
      page < pages && PageBit(dirty, page) && row < f.height && RowInPage(f, row, page) ==>
      Covered(redraws, row)
  {
    hide Pow2, PageBit, AddPage, FirstRow, EndRow, RowInPage, Covered;
    var pageIndex := 0;
    var s := Scan([], 0, 0);
    while pageIndex < pages
      invariant pageIndex % 32 == 0 && pageIndex < pages + 32
      invariant s == Gathered(f, dirty, pageIndex)
    {
      s := RefreshWord(f, dirty, pageIndex / 32, s);
      pageIndex := pageIndex + 32;
    }
    SkipClear(f, dirty, pages, pageIndex);
    redraws := if s.y0 != s.y1 then s.out + [Band(s.y0, s.y1 - s.y0)] else s.out;
    forall page: nat, row: nat | page < pages && PageBit(dirty, page) && row < f.height && RowInPage(f, row, page)
      ensures Covered(redraws, row)
    {
      DirtyRowsAreRedrawn(f, dirty, pages, page, row);
    }
  }
}
