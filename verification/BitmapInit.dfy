/** bitmap_init: which pages the firmware's memory layout leaves free. */
module BitmapInit {
  import opened Bitmap

  const PAGE_SIZE: int := 4096
  const FREE_MEM_START: int := 0x601000
  const TWO32: int := 0x1_0000_0000

  /** One entry of the firmware's table; type 1 is usable memory. */
  datatype Layout = Layout(start: int, size: int, kind: int)

  /** The do-while scan stops before the first entry, after the first, that starts at zero. */
  ghost predicate Scanned(layout: seq<Layout>, stop: nat) {
    && 1 <= stop < |layout| && layout[stop].start == 0
    && forall i :: 1 <= i < stop ==> layout[i].start != 0
  }

  /** Usable, and not wholly below the memory the kernel occupies. */
  predicate Counts(r: Layout) {
    r.kind == 1 && r.start + r.size > FREE_MEM_START
  }

  function FirstPage(r: Layout): int {
    if r.start < FREE_MEM_START then (FREE_MEM_START + (PAGE_SIZE - 1)) / PAGE_SIZE
    else (r.start + (PAGE_SIZE - 1)) / PAGE_SIZE
  }

  function EndPage(r: Layout): int {
    (r.start + r.size) / PAGE_SIZE
  }

  function Up8(p: int): int { (p + 7) / 8 * 8 }
  function Down8(p: int): int { p / 8 * 8 }

  /** The pages the two partial-byte fills and the middle byte fill clear for one region. */
  predicate Clears(r: Layout, p: int) {
    && Counts(r)
    && (FirstPage(r) <= p < Up8(FirstPage(r)) || Down8(EndPage(r)) <= p < EndPage(r)
        || Up8(FirstPage(r)) <= p < Down8(EndPage(r)))
  }

  /** Each of the three fills is empty or keeps to the bytes of the map. */
  predicate FitsMap(r: Layout) {
    && (FirstPage(r) % 8 == 0 || FirstPage(r) <= PAGES)
    && (EndPage(r) % 8 == 0 || EndPage(r) <= PAGES)
    && (Down8(EndPage(r)) <= Up8(FirstPage(r)) || Down8(EndPage(r)) <= PAGES)
  }

  ghost predicate ClearedBy(layout: seq<Layout>, n: nat, p: int)
    requires n <= |layout|
  {
    exists i :: 0 <= i < n && Clears(layout[i], p)
  }

  /** The byte total, in the 32 bits it is kept in. */
  function TotalSize(layout: seq<Layout>): int {
    if layout == [] then 0 else (TotalSize(layout[..|layout| - 1]) + layout[|layout| - 1].size) % TWO32
  }

  /** How many bits the map has: the total in pages, rounded up in 32-bit arithmetic. */
  function BitCount(nsize: int): int {
    if nsize % PAGE_SIZE == 0 then nsize / PAGE_SIZE else (nsize + PAGE_SIZE - 1) % TWO32 / PAGE_SIZE
  }

  lemma BitCountFits(nsize: int)
    requires 0 <= nsize < TWO32
    ensures 0 <= BitCount(nsize) < PAGES
  {
  }

  /** The sum of all sizes scanned, in full. */
  function SumOfSizes(layout: seq<Layout>, n: nat): int
    requires n <= |layout|
  {
    if n == 0 then 0 else SumOfSizes(layout, n - 1) + layout[n - 1].size
  }

  lemma {:induction false} TotalIsSum(layout: seq<Layout>, n: nat)
    requires n <= |layout|
    ensures TotalSize(layout[..n]) == SumOfSizes(layout, n) % 0x1_0000_0000
  {
    if n > 0 {
      TotalIsSum(layout, n - 1);
      TotalNext(layout, n - 1);
      SumWraps(SumOfSizes(layout, n - 1), layout[n - 1].size);
    }
  }

  lemma SumWraps(a: int, b: int)
    ensures (a % 0x1_0000_0000 + b) % 0x1_0000_0000 == (a + b) % 0x1_0000_0000
  {
  }

  /** The map's length covers a total of `n` bytes, and not a page more, if and only if the total with
      one byte less than a page fits 32 bits; otherwise it is zero. */
  predicate CoversTotal(nbits: int, n: int) {
    && ((nbits - 1) * 4096 < n <= nbits * 4096 <==> n + 4095 < 0x1_0000_0000)
    && (n + 4095 >= 0x1_0000_0000 ==> nbits == 0)
  }

  lemma CountCovers(n: int)
    requires 0 <= n < 0x1_0000_0000
    ensures CoversTotal(BitCount(n), n)
  {
  }

  lemma ByteUp(first: nat)
    requires first % 8 != 0 && first <= PAGES
    ensures first + (8 - first % 8) == Up8(first) <= PAGES
  {
  }

  lemma ClearedNone(layout: seq<Layout>)
    ensures TotalSize(layout[..0]) == 0 && forall p :: !ClearedBy(layout, 0, p)
  {
  }

  lemma NotCounted(r: Layout)
    ensures !Counts(r) ==> forall p :: !Clears(r, p)
  {
  }

  lemma ClearedNext(layout: seq<Layout>, n: nat)
    requires n < |layout|
    ensures forall p :: ClearedBy(layout, n + 1, p) <==> ClearedBy(layout, n, p) || Clears(layout[n], p)
  {
    hide Clears;
  }

  lemma TotalNext(layout: seq<Layout>, n: nat)
    requires n < |layout|
    ensures TotalSize(layout[..n + 1]) == (TotalSize(layout[..n]) + layout[n].size) % TWO32
  {
    assert layout[..n + 1][..n] == layout[..n];
  }

  /** The upward fill from `first` to the next byte boundary. */
  method ClearUp(bm: BitMap, first: nat)
    requires bm.base.Length == MAP_BYTES && (first % 8 == 0 || first <= PAGES)
    modifies bm.base
    ensures forall p: nat :: p < PAGES ==> (p in bm.Used() <==> p in old(bm.Used()) && !(first <= p < Up8(first)))
  {
    if first % 8 != 0 {
      ByteUp(first);
      bm.SetBits(first, false, 8 - first % 8, true);
    }
  }

  /** The downward fill from `end` to the byte boundary below it. */
  method ClearDown(bm: BitMap, end: nat)
    requires bm.base.Length == MAP_BYTES && (end % 8 == 0 || end <= PAGES)
    modifies bm.base
    ensures forall p: nat :: p < PAGES ==> (p in bm.Used() <==> p in old(bm.Used()) && !(Down8(end) <= p < end))
  {
    if end % 8 != 0 {
      bm.SetBits(end, false, end % 8, false);
    }
  }

  /** The fills for one region. */
  method ClearRegion(bm: BitMap, r: Layout)
    requires bm.base.Length == MAP_BYTES && Counts(r) && FitsMap(r)
    modifies bm.base
    ensures forall p: nat :: p < PAGES ==> (p in bm.Used() <==> p in old(bm.Used()) && !Clears(r, p))
  {
    var start := FirstPage(r);
    ClearUp(bm, start);
    start := if start % 8 != 0 then (start + 7) / 8 else start / 8;

    var end := EndPage(r);
    ClearDown(bm, end);
    end := end / 8;

    var nbytes := end - start;
    bm.SetBytes(start, nbytes, false);
  }

  method Init(bm: BitMap, layout: seq<Layout>, ghost stop: nat)
    requires bm.base.Length == MAP_BYTES && Scanned(layout, stop)
    requires forall i :: 0 <= i < stop && Counts(layout[i]) ==> FitsMap(layout[i])
    modifies bm, bm.base
    ensures bm.Valid() && bm.nbits == BitCount(TotalSize(layout[..stop]))
    ensures CoversTotal(bm.nbits, SumOfSizes(layout, stop) % 0x1_0000_0000)
    ensures forall p: nat :: p < PAGES ==> (p in bm.Used() <==> !ClearedBy(layout, stop, p))
  {
    hide Clears, ClearedBy, TotalSize, FitsMap;
    ClearedNone(layout);
    var nsize := 0;
    bm.SetBytes(0, MAP_BYTES, true);
    var i := 0;
    while true
      invariant 0 <= i < stop
      invariant nsize == TotalSize(layout[..i])
      invariant forall p: nat :: p < PAGES ==> (p in bm.Used() <==> !ClearedBy(layout, i, p))
      decreases stop - i
    {
      var r := layout[i];
      nsize := (nsize + r.size) % TWO32;
      TotalNext(layout, i);
      ClearedNext(layout, i);
      NotCounted(r);
      // reserved memory, and memory below the free area, stays marked used
      if r.kind == 1 && !(r.start + r.size <= FREE_MEM_START) {
        ClearRegion(bm, r);
      }
      i := i + 1;
      if layout[i].start == 0 {
        break;
      }
    }
    BitCountFits(nsize);
    TotalIsSum(layout, stop);
    CountCovers(nsize);
    bm.nbits := if nsize % PAGE_SIZE == 0 then nsize / PAGE_SIZE else (nsize + PAGE_SIZE - 1) % TWO32 / PAGE_SIZE;
  }

  // ---------------------------------------------------------------- what it means

  /** The page lies wholly in the region, and in the memory the kernel leaves free. */
  predicate WhollyUsable(r: Layout, p: int) {
    r.kind == 1 && r.start <= p * PAGE_SIZE && FREE_MEM_START <= p * PAGE_SIZE
        && (p + 1) * PAGE_SIZE <= r.start + r.size
  }

  /** The region reaches a byte boundary of the map between its first and its last page. */
  predicate SpansByte(r: Layout) {
    Up8(FirstPage(r)) <= Down8(EndPage(r))
  }

  lemma UsableRange(r: Layout, p: int)
    requires Counts(r)
    ensures WhollyUsable(r, p) <==> FirstPage(r) <= p < EndPage(r)
  {
  }

  /** A region fits the map exactly when the fills clear no page past 4 GiB, and every region
      that ends within 4 GiB does. */
  lemma FitsMapIff(r: Layout)
    requires Counts(r)
    ensures FitsMap(r) <==> forall p :: Clears(r, p) ==> p < PAGES
    ensures r.size >= 0 && r.start + r.size <= TWO32 ==> FitsMap(r)
  {
    if FirstPage(r) % 8 != 0 && FirstPage(r) > PAGES {
      assert Clears(r, FirstPage(r));
    } else if EndPage(r) % 8 != 0 && EndPage(r) > PAGES {
      assert Clears(r, EndPage(r) - 1);
    } else if Down8(EndPage(r)) > Up8(FirstPage(r)) {
      assert Clears(r, Down8(EndPage(r)) - 1);
    }
  }

  /** Memory above 4 GiB: the fills clear pages that the map has no byte for. */
  lemma HighRegionLeavesMap()
    ensures var r := Layout(0x1_0000_0000, 0x1000_0000, 1);
      Counts(r) && !FitsMap(r) && forall p :: PAGES <= p < PAGES + 0x1_0000 ==> Clears(r, p)
  {
  }

  /** A region is cleared exactly when, and only when, it reaches a byte boundary. */
  lemma RegionExactIff(r: Layout)
    requires Counts(r) && r.size >= 0
    ensures (forall p :: Clears(r, p) <==> WhollyUsable(r, p)) <==> SpansByte(r)
  {
    forall p ensures WhollyUsable(r, p) <==> FirstPage(r) <= p < EndPage(r) {
      UsableRange(r, p);
    }
    if !SpansByte(r) {
      // the page before the byte boundary above the region, or the one below it
      var p := Up8(FirstPage(r)) - 1;
      var q := Down8(EndPage(r));
      assert Clears(r, p) != WhollyUsable(r, p) || Clears(r, q) != WhollyUsable(r, q);
    }
  }

  ghost predicate UsableIn(layout: seq<Layout>, n: nat, p: int)
    requires n <= |layout|
  {
    exists i :: 0 <= i < n && WhollyUsable(layout[i], p)
  }

  /** Whatever the table, no wholly usable page is left marked used. */
  lemma UsableNeverLost(layout: seq<Layout>, n: nat, p: int)
    requires n <= |layout| && UsableIn(layout, n, p)
    ensures ClearedBy(layout, n, p)
  {
    var i :| 0 <= i < n && WhollyUsable(layout[i], p);
    assert Counts(layout[i]);
    UsableRange(layout[i], p);
    assert Clears(layout[i], p);
  }

  /** The fills clear page `p` although it does not lie wholly in the region; only a region that
      misses a byte boundary does so. */
  predicate Overreaches(r: Layout, p: int) {
    Clears(r, p) && !(FirstPage(r) <= p < EndPage(r))
  }

  lemma OverreachIsNarrow(r: Layout, p: int)
    ensures Overreaches(r, p) ==> Counts(r) && !SpansByte(r)
  {
  }

  /** For every table the map is exact if and only if each page a region overreaches to is wholly
      usable in some scanned region. */
  lemma InitExactIff(layout: seq<Layout>, stop: nat)
    requires Scanned(layout, stop)
    ensures (forall p :: ClearedBy(layout, stop, p) <==> UsableIn(layout, stop, p))
      <==> forall j, p {:trigger Overreaches(layout[j], p)} :: 0 <= j < stop && Overreaches(layout[j], p) ==>
          UsableIn(layout, stop, p)
  {
    if forall p :: ClearedBy(layout, stop, p) <==> UsableIn(layout, stop, p) {
      forall j, p | 0 <= j < stop && Overreaches(layout[j], p) ensures UsableIn(layout, stop, p) {
        assert Clears(layout[j], p) && ClearedBy(layout, stop, p);
      }
    }
    if forall j, p {:trigger Overreaches(layout[j], p)} :: 0 <= j < stop && Overreaches(layout[j], p) ==>
        UsableIn(layout, stop, p) {
      forall p ensures ClearedBy(layout, stop, p) <==> UsableIn(layout, stop, p) {
        if UsableIn(layout, stop, p) { UsableNeverLost(layout, stop, p); }
        if ClearedBy(layout, stop, p) {
          var i :| 0 <= i < stop && Clears(layout[i], p);
          UsableRange(layout[i], p);
          if !Overreaches(layout[i], p) { assert WhollyUsable(layout[i], p); }
        }
      }
    }
  }

  /** So it is for every table whose counted regions reach a byte boundary: a page is free if and
      only if it lies wholly in some usable region above the kernel. */
  lemma InitExact(layout: seq<Layout>, stop: nat)
    requires Scanned(layout, stop)
    requires forall i :: 0 <= i < stop && Counts(layout[i]) ==> SpansByte(layout[i])
    ensures forall p :: ClearedBy(layout, stop, p) <==> UsableIn(layout, stop, p)
  {
    InitExactIff(layout, stop);
    forall j, p | 0 <= j < stop ensures !Overreaches(layout[j], p) {
      OverreachIsNarrow(layout[j], p);
    }
  }

  /** Two usable pages in the middle of one byte of the map free that whole byte's pages,
      among them page 0x600, the last one the kernel occupies. */
  lemma NarrowRegionSpills()
    ensures var r := Layout(0x602000, 0x2000, 1);
      && Counts(r) && FitsMap(r) && !SpansByte(r)
      && (forall p :: WhollyUsable(r, p) <==> p == 0x602 || p == 0x603)
      && (forall p :: Clears(r, p) <==> 0x600 <= p < 0x608)
  {
    var r := Layout(0x602000, 0x2000, 1);
    assert FirstPage(r) == 0x602 && EndPage(r) == 0x604;
    forall p ensures WhollyUsable(r, p) <==> p == 0x602 || p == 0x603 { UsableRange(r, p); }
  }

  /** No page below the byte of the map that FREE_MEM_START is in is ever freed: not page zero,
      and not the kernel's page directory. */
  lemma KernelReserved(layout: seq<Layout>, n: nat, p: nat)
    requires n <= |layout| && p < 0x600
    ensures !ClearedBy(layout, n, p)
  {
    forall i | 0 <= i < n ensures !Clears(layout[i], p) {}
  }

  // ---------------------------------------------------------------- what can be handed out

  /** The page numbers that the map's length covers. It is the total of all sizes in the table,
      reserved ones included, and no address enters into it. */
  function Reach(layout: seq<Layout>, stop: nat): int
    requires stop <= |layout|
  {
    BitCount(TotalSize(layout[..stop]))
  }

  /** Every wholly usable page lies below the map's length if and only if each scanned region that
      has a whole page ends there. */
  lemma AllReachedIff(layout: seq<Layout>, stop: nat)
    requires stop <= |layout|
    ensures (forall p :: UsableIn(layout, stop, p) ==> p < Reach(layout, stop)) <==>
            forall i :: 0 <= i < stop && Counts(layout[i]) && FirstPage(layout[i]) < EndPage(layout[i]) ==>
              EndPage(layout[i]) <= Reach(layout, stop)
  {
    hide Reach;
    if forall p :: UsableIn(layout, stop, p) ==> p < Reach(layout, stop) {
      forall i | 0 <= i < stop && Counts(layout[i]) && FirstPage(layout[i]) < EndPage(layout[i])
        ensures EndPage(layout[i]) <= Reach(layout, stop)
      {
        UsableRange(layout[i], EndPage(layout[i]) - 1);
        assert UsableIn(layout, stop, EndPage(layout[i]) - 1);
      }
    }
    if forall i :: 0 <= i < stop && Counts(layout[i]) && FirstPage(layout[i]) < EndPage(layout[i]) ==>
        EndPage(layout[i]) <= Reach(layout, stop) {
      forall p | UsableIn(layout, stop, p) ensures p < Reach(layout, stop) {
        var i :| 0 <= i < stop && WhollyUsable(layout[i], p);
        assert Counts(layout[i]);
        UsableRange(layout[i], p);
      }
    }
  }

  /** A machine of 128 MiB with a hole below 1 MiB that the table does not list: the hole counts for
      nothing, and the last 80 usable pages are never handed out. */
  lemma HoleCutsTheTop()
    ensures var l := [Layout(0, 0x9_F000, 1), Layout(0x9_F000, 0x1000, 2), Layout(0xF_0000, 0x1_0000, 2),
                      Layout(0x10_0000, 0x7F0_0000, 1), Layout(0, 0, 0)];
      && Scanned(l, 4) && Reach(l, 4) == 0x7FB0 && forall p :: 0x7FB0 <= p < 0x8000 ==> UsableIn(l, 4, p)
  {
    var l := [Layout(0, 0x9_F000, 1), Layout(0x9_F000, 0x1000, 2), Layout(0xF_0000, 0x1_0000, 2),
              Layout(0x10_0000, 0x7F0_0000, 1), Layout(0, 0, 0)];
    assert l[..4][..3] == l[..3] && l[..3][..2] == l[..2] && l[..2][..1] == l[..1] && l[..1][..0] == [];
    assert TotalSize(l[..1]) == 0x9_F000;
    assert TotalSize(l[..2]) == 0xA_0000;
    assert TotalSize(l[..3]) == 0xB_0000;
    assert TotalSize(l[..4]) == 0x7FB_0000;
    forall p | 0x7FB0 <= p < 0x8000 ensures UsableIn(l, 4, p) { assert WhollyUsable(l[3], p); }
  }

  /** A machine of 128 MiB whose memory below 1 MiB does not end at a page: the last part of a page
      counts as one, and the pages from 0x7FA0 up are never handed out. */
  lemma PartOfAPageCounts()
    ensures var l := [Layout(0, 0x9_FC00, 1), Layout(0x10_0000, 0x7F0_0000, 1), Layout(0, 0, 0)];
      && Scanned(l, 2) && TotalSize(l[..2]) == 0x7F9_FC00 && Reach(l, 2) == 0x7FA0
      && UsableIn(l, 2, 0x601) && forall p :: 0x7FA0 <= p < 0x8000 ==> UsableIn(l, 2, p)
  {
    var l := [Layout(0, 0x9_FC00, 1), Layout(0x10_0000, 0x7F0_0000, 1), Layout(0, 0, 0)];
    assert l[..2][..1] == l[..1] && l[..1][..0] == [];
    assert TotalSize(l[..1]) == 0x9_FC00;
    assert TotalSize(l[..2]) == 0x7F9_FC00;
    assert WhollyUsable(l[1], 0x601);
    forall p | 0x7FA0 <= p < 0x8000 ensures UsableIn(l, 2, p) { assert WhollyUsable(l[1], p); }
  }

  /** A total of exactly 4 GiB wraps to zero, and so does one that rounds up to it: no page is ever
      handed out. */
  lemma FourGigabytesAreNone()
    ensures var l := [Layout(0, 0x1_0000_0000, 1), Layout(0, 0, 0)];
      Scanned(l, 1) && Reach(l, 1) == 0 && UsableIn(l, 1, 0x601)
    ensures var l := [Layout(0, 0xFFFF_F001, 1), Layout(0, 0, 0)];
      Scanned(l, 1) && Reach(l, 1) == 0 && UsableIn(l, 1, 0x601)
  {
    var l, k := [Layout(0, 0x1_0000_0000, 1), Layout(0, 0, 0)], [Layout(0, 0xFFFF_F001, 1), Layout(0, 0, 0)];
    assert l[..1][..0] == [] && k[..1][..0] == [];
    assert WhollyUsable(l[0], 0x601) && WhollyUsable(k[0], 0x601);
  }
}
