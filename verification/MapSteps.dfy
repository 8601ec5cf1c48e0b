/** alloc_vpages as a function of memory, bitmap and address space, and what it does to them. */
module MapSteps {
  import opened PhysMem
  import opened Bitmap
  import opened Paging
  import opened Spaces
  import opened Recycled
  import opened Growth
  import opened Frames

  const ENOMEM: int := 9

  function PageCount(size: int): int {
    (size + PAGE_SIZE - 1) / PAGE_SIZE
  }

  /** The target of a mapping request lies in one table of the user half. */
  predicate InOneTable(addr: int, size: int) {
    USER_MEMORY_BEGIN <= addr < RAM_SIZE && 1 <= size && PteIndex(addr) + PageCount(size) <= 1024
  }

  /** The frame of the table of slot `i`: the next free one when the slot is empty. */
  function TargetTable(s: Snap, sp: Space, i: nat, nbits: int): int {
    if i in sp.tables then sp.tables[i] else NextFrame(s.used, nbits)
  }

  /** The entry of page `v` is present (bit 0) and not dirty (bit 6) in memory, be it in a table the space has or in
      the frame that its new table gets: a request that starts there enters nothing. */
  ghost predicate Refused(s: Snap, sp: Space, v: nat, nbits: int) {
    var t := TargetTable(s, sp, v / 1024, nbits);
    0 <= t < PAGES && |s.m| == RAM_SIZE
    && var w := Entry(s.m, t, v % 1024); w % 2 == 1 && w / 64 % 2 == 0
  }

  /** `sp'` has the table of page `v` and the pages `v`, ..., `v + n - 1` on top of what `sp` has,
      and nothing else. */
  ghost predicate GainedPages(sp: Space, sp': Space, v: int, n: int) {
    && (forall i {:trigger i in sp'.tables} :: i in sp'.tables <==> i in sp.tables || i == v / 1024)
    && forall u {:trigger u in sp'.pages} :: u in sp'.pages <==> u in sp.pages || v <= u < v + n
  }

  /** The frames a mapping request takes: one for each page, and one for the table if it has none. */
  function FramesNeeded(sp: Space, addr: int, size: int): int {
    PageCount(size) + if PdeIndex(addr) in sp.tables then 0 else 1
  }

  // ---------------------------------------------------------------- the steps

  /** Memory, bitmap and space after a call, and what it returned. */
  datatype Mapping = Mapping(s: Snap, sp: Space, err: int)

  predicate Writable(s: Snap, t: nat, f: int) {
    |s.m| == RAM_SIZE && t < PAGES && 1 <= f < PAGES
  }

  /** The table of slot `i`: the next free frame when the slot is empty. */
  function TableStep(s: Snap, sp: Space, i: nat, nbits: int): Mapping
    requires i < 1024
  {
    var f := NextFrame(s.used, nbits);
    if i in sp.tables then Mapping(s, sp, 0)
    else if Writable(s, sp.dir, f) then
      Mapping(Snap(SetEntry(s.m, sp.dir, i, EntryFor(f)), s.used + {f}), AddTable(sp, i, f), 0)
    else Mapping(s, sp, -ENOMEM)
  }

  /** The next free frame for page `v`, whatever its entry held. */
  function PageStep(s: Snap, sp: Space, v: nat, nbits: int): Mapping {
    var f := NextFrame(s.used, nbits);
    if v / 1024 in sp.tables && Writable(s, sp.tables[v / 1024], f) then
      Mapping(Snap(SetEntry(s.m, sp.tables[v / 1024], v % 1024, EntryFor(f)), s.used + {f}), AddPage(sp, v, f), 0)
    else Mapping(s, sp, -ENOMEM)
  }

  function PagesStep(s: Snap, sp: Space, v: nat, n: nat, nbits: int): Mapping
    decreases n
  {
    if n == 0 then Mapping(s, sp, 0)
    else
      var r := PageStep(s, sp, v, nbits);
      if r.err != 0 then r else PagesStep(r.s, r.sp, v + 1, n - 1, nbits)
  }

  ghost function AllocStep(s: Snap, sp: Space, addr: nat, size: nat, nbits: int): Mapping
    requires InOneTable(addr, size)
  {
    var r := TableStep(s, sp, addr / 4096 / 1024, nbits);
    if r.err != 0 || Refused(s, sp, addr / 4096, nbits) then r
    else PagesStep(r.s, r.sp, addr / 4096, PageCount(size), nbits)
  }

  // ---------------------------------------------------------------- what they do

  function Min(a: int, b: int): int {
    if a < b then a else b
  }

  /** How many entries a call writes, given how many frames are free. */
  ghost function Written(s: Snap, sp: Space, addr: nat, size: nat, nbits: int): nat {
    var free := |FreeFrames(s.used, nbits)| - if addr / 4096 / 1024 in sp.tables then 0 else 1;
    if Refused(s, sp, addr / 4096, nbits) || free < 0 || PageCount(size) < 0 then 0 else Min(PageCount(size), free)
  }

  lemma Gains(c: Space, c': Space, sp: Space, v: nat, k: nat, f: nat)
    requires GainedPages(c, sp, v, k) && c' == Dropped(c, v + k)
    ensures GainedPages(c', AddPage(sp, v + k, f), v, k + 1) && (v + k in sp.pages ==> v + k in c.pages)
  {
  }

  /** The frames a page step works with. */
  lemma NextIsWritable(s: Snap, sp: Space, u: nat, nbits: int)
    requires InPlace(s, sp) && 0 in s.used && nbits <= PAGES && u / 1024 in sp.tables
    ensures var f := NextFrame(s.used, nbits);
      && (f == -1 <==> |FreeFrames(s.used, nbits)| == 0) && (f == -1 || (1 <= f < nbits && f !in s.used))
      && (f != -1 <==> Writable(s, sp.tables[u / 1024], f))
    ensures |s.m| == RAM_SIZE && sp.tables[u / 1024] < PAGES
  {
    InPlaceParts(s, sp);
    hide InPlace;
    NextFrameIsFree(s.used, nbits);
    NextFrameExists(s.used, nbits);
    assert sp.tables[u / 1024] == sp.tables[u / 1024];
  }

  lemma PageStepIs(s: Snap, sp: Space, v: nat, nbits: int)
    ensures var f := NextFrame(s.used, nbits);
      PageStep(s, sp, v, nbits) ==
        if v / 1024 in sp.tables && Writable(s, sp.tables[v / 1024], f) then
          Mapping(Snap(SetEntry(s.m, sp.tables[v / 1024], v % 1024, EntryFor(f)), s.used + {f}), AddPage(sp, v, f), 0)
        else Mapping(s, sp, -ENOMEM)
  {
  }

  lemma PagesStepIs(s: Snap, sp: Space, v: nat, n: nat, nbits: int)
    ensures PagesStep(s, sp, v, 0, nbits) == Mapping(s, sp, 0)
    ensures n > 0 ==>
      var r := PageStep(s, sp, v, nbits);
      PagesStep(s, sp, v, n, nbits) == if r.err != 0 then r else PagesStep(r.s, r.sp, v + 1, n - 1, nbits)
  {
  }

  lemma {:induction false} PagesKeepTables(s: Snap, sp: Space, v: nat, n: nat, nbits: int)
    ensures PagesStep(s, sp, v, n, nbits).sp.tables == sp.tables
    decreases n
  {
    if n > 0 {
      var r := PageStep(s, sp, v, nbits);
      if r.err == 0 { PagesKeepTables(r.s, r.sp, v + 1, n - 1, nbits); }
    }
  }

  lemma SameTable(v: nat, n: nat, k: nat)
    requires v % 1024 + n <= 1024 && k < n
    ensures (v + k) / 1024 == v / 1024
  {
  }

  lemma HasTable(sp: Space, u: nat, f: nat)
    ensures AddPage(sp, u, f).tables == sp.tables && ENOMEM == 9
  {
  }

  /** From a space that has gained `k` pages to one that has gained as many of the `n` as there
      are frames. */
  lemma {:induction false} PagesGrown(s0: Snap, sp0: Space, s: Snap, sp: Space, v: nat, k: nat, n: nat, nbits: int)
    requires Grown(s0, Cleared(sp0, v, k), s, sp) && GainedPages(Cleared(sp0, v, k), sp, v, k) && Separate(sp0)
    requires 0 in s.used && KERNEL_DIR in s.used && nbits <= PAGES && k <= n && v % 1024 + n <= 1024
    requires v / 1024 in sp.tables
    ensures var r, j := PagesStep(s, sp, v + k, n - k, nbits), k + Min(n - k, |FreeFrames(s.used, nbits)|);
      && Grown(s0, Cleared(sp0, v, j), r.s, r.sp) && GainedPages(Cleared(sp0, v, j), r.sp, v, j)
      && (r.err == 0 <==> n - k <= |FreeFrames(s.used, nbits)|) && (r.err == 0 || r.err == -ENOMEM)
    decreases n - k
  {
    hide *;
    MinIs(n - k, |FreeFrames(s.used, nbits)|);
    PagesStepIs(s, sp, v + k, n - k, nbits);
    if k < n {
      GrownParts(s0, Cleared(sp0, v, k), s, sp);
      SameTable(v, n, k);
      NextIsWritable(s, sp, v + k, nbits);
      PageStepIs(s, sp, v + k, nbits);
      var f := NextFrame(s.used, nbits);
      HasTable(sp, v + k, if f < 0 then 0 else f);
      if f != -1 {
        ClearedOwned(sp0, v, k);
        ClearedStep(sp0, v, k);
        Gains(Cleared(sp0, v, k), Cleared(sp0, v, k + 1), sp, v, k, f);
        GrowPage(s0, Cleared(sp0, v, k), s, sp, v + k, f);
        TakeOne(s.used, nbits, f);
        MinIs(n - k - 1, |FreeFrames(s.used + {f}, nbits)|);
        PagesGrown(s0, sp0, PageStep(s, sp, v + k, nbits).s, PageStep(s, sp, v + k, nbits).sp, v, k + 1, n, nbits);
      }
    }
  }

  lemma MinIs(a: int, b: int)
    ensures Min(a, b) == if a < b then a else b
  {
  }

  lemma TableStepIs(s: Snap, sp: Space, i: nat, nbits: int)
    requires i < 1024
    ensures var f := NextFrame(s.used, nbits);
      TableStep(s, sp, i, nbits) ==
        if i in sp.tables then Mapping(s, sp, 0)
        else if Writable(s, sp.dir, f) then
          Mapping(Snap(SetEntry(s.m, sp.dir, i, EntryFor(f)), s.used + {f}), AddTable(sp, i, f), 0)
        else Mapping(s, sp, -ENOMEM)
    ensures ENOMEM == 9
  {
  }

  lemma ReadyFrame(s: Snap, sp: Space, i: nat, nbits: int)
    requires InPlace(s, sp) && 0 in s.used && nbits <= PAGES && i !in sp.tables
    ensures var f := NextFrame(s.used, nbits);
      && (f == -1 <==> |FreeFrames(s.used, nbits)| == 0) && (f != -1 <==> Writable(s, sp.dir, f))
      && (f != -1 ==> 1 <= f < nbits && f < PAGES && f !in s.used)
    ensures |s.m| == RAM_SIZE && sp.dir < PAGES
  {
    InPlaceParts(s, sp);
    hide InPlace;
    NextFrameIsFree(s.used, nbits);
    NextFrameExists(s.used, nbits);
  }

  lemma GainsTable(sp: Space, sp': Space, v: nat)
    requires (sp' == sp && v / 1024 in sp.tables) || (exists t {:trigger AddTable(sp, v / 1024, t)} ::
        sp' == AddTable(sp, v / 1024, t))
    ensures GainedPages(sp, sp', v, 0) && v / 1024 in sp'.tables
  {
  }

  /** The table of page `v`, if there is a frame for it. */
  lemma TableGrown(s: Snap, sp: Space, v: nat, nbits: int)
    requires InPlace(s, sp) && 0 in s.used && KERNEL_DIR in s.used && nbits <= PAGES
    requires USER_FIRST <= v / 1024 < 1024
    ensures var r := TableStep(s, sp, v / 1024, nbits); var need := if v / 1024 in sp.tables then 0 else 1;
      && (r.err == 0 <==> need <= |FreeFrames(s.used, nbits)|)
      && (r.err != 0 ==> r == Mapping(s, sp, -ENOMEM))
      && (r.err == 0 ==>
            (Grown(s, sp, r.s, r.sp) && GainedPages(sp, r.sp, v, 0) && v / 1024 in r.sp.tables
             && |FreeFrames(r.s.used, nbits)| == |FreeFrames(s.used, nbits)| - need && s.used <= r.s.used))
  {
    hide *;
    TableStepIs(s, sp, v / 1024, nbits);
    GrownNone(s, sp);
    if v / 1024 in sp.tables {
      GainsTable(sp, sp, v);
    } else {
      ReadyFrame(s, sp, v / 1024, nbits);
      var f := NextFrame(s.used, nbits);
      if f != -1 {
        GrowTable(s, sp, v / 1024, f);
        TakeOne(s.used, nbits, f);
        GainsTable(sp, AddTable(sp, v / 1024, f), v);
      }
    }
  }

  /** What a call comes to. `k` of the pages asked for are entered, each with a frame that was
      free; a page that was mapped there before gives up its frame. It succeeds exactly when it
      is refused or there is a frame for each page and for the table. */
  ghost predicate AllocMeans(s: Snap, sp: Space, addr: nat, size: nat, nbits: int, r: Mapping) {
    var v, k := addr / 4096, Written(s, sp, addr, size, nbits);
    && Grown(s, Cleared(sp, v, k), r.s, r.sp)
    && (r.err == 0 || r.err == -ENOMEM)
    && (r.err == 0 <==> Refused(s, sp, v, nbits) || FramesNeeded(sp, addr, size) <= |FreeFrames(s.used, nbits)|)
    && if v / 1024 !in sp.tables && |FreeFrames(s.used, nbits)| == 0 then
         r.s == s && r.sp == sp
       else
         GainedPages(Cleared(sp, v, k), r.sp, v, k)
  }

  lemma AllocStepIs(s: Snap, sp: Space, addr: nat, size: nat, nbits: int)
    requires InOneTable(addr, size)
    ensures addr / 4096 / 1024 < 1024 && 0 <= PageCount(size)
    ensures AllocStep(s, sp, addr, size, nbits) ==
        var r := TableStep(s, sp, addr / 4096 / 1024, nbits);
        if r.err != 0 || Refused(s, sp, addr / 4096, nbits) then r
        else PagesStep(r.s, r.sp, addr / 4096, PageCount(size), nbits)
  {
    Indices(addr);
  }

  lemma RequestPages(addr: nat, size: nat)
    requires InOneTable(addr, size)
    ensures var v := addr / 4096;
      USER_FIRST <= v / 1024 < 1024 && v % 1024 + PageCount(size) <= 1024 && 0 < PageCount(size)
          && PdeIndex(addr) == v / 1024
  {
    Indices(addr);
  }

  lemma AllocMeaning(s: Snap, sp: Space, addr: nat, size: nat, nbits: int)
    requires InPlace(s, sp) && 0 in s.used && KERNEL_DIR in s.used && nbits <= PAGES && InOneTable(addr, size)
    ensures AllocMeans(s, sp, addr, size, nbits, AllocStep(s, sp, addr, size, nbits))
  {
    hide InPlace, Grown, Cleared, Written, Refused, FramesNeeded, FreeFrames, GainedPages, AllocStep, TableStep,
         PagesStep, InOneTable, PageCount, Min, Separate;
    var v, n := addr / 4096, PageCount(size);
    AllocStepIs(s, sp, addr, size, nbits);
    RequestPages(addr, size);
    ClearedStep(sp, v, 0);
    InPlaceParts(s, sp);
    WrittenIs(s, sp, addr, size, nbits);
    RefusedHasFrame(s, sp, v, nbits);
    TableGrown(s, sp, v, nbits);
    var t := TableStep(s, sp, v / 1024, nbits);
    if t.err != 0 {
      GrownNone(s, sp);
    } else if !Refused(s, sp, v, nbits) {
      PagesGrown(s, sp, t.s, t.sp, v, 0, n, nbits);
    }
  }

  /** A request is refused only when its table is there or there is a frame for it. */
  lemma RefusedHasFrame(s: Snap, sp: Space, v: nat, nbits: int)
    requires 0 in s.used
    ensures Refused(s, sp, v, nbits) ==> v / 1024 in sp.tables || |FreeFrames(s.used, nbits)| > 0
  {
    NextFrameExists(s.used, nbits);
  }

  lemma WrittenIs(s: Snap, sp: Space, addr: nat, size: nat, nbits: int)
    requires InOneTable(addr, size)
    ensures var free := |FreeFrames(s.used, nbits)| - if addr / 4096 / 1024 in sp.tables then 0 else 1;
      Written(s, sp, addr, size, nbits)
        == if Refused(s, sp, addr / 4096, nbits) || free < 0 then 0 else Min(PageCount(size), free)
    ensures PdeIndex(addr) == addr / 4096 / 1024
    ensures FramesNeeded(sp, addr, size) == PageCount(size) + if addr / 4096 / 1024 in sp.tables then 0 else 1
  {
    Indices(addr);
  }

  /** The frames of the pages that a call overwrites. */
  ghost function LostBy(s: Snap, sp: Space, addr: nat, size: nat, nbits: int): set<nat> {
    Lost(sp, addr / 4096, Written(s, sp, addr, size, nbits))
  }

  /** Overwriting a present entry leaks its frame: it stays marked used, and the space that had it
      has it no more. Nothing else the space had is given up. */
  lemma OverwriteLeaks(s: Snap, sp: Space, addr: nat, size: nat, nbits: int)
    requires InPlace(s, sp) && 0 in s.used && KERNEL_DIR in s.used && nbits <= PAGES && InOneTable(addr, size)
    ensures var r, lost := AllocStep(s, sp, addr, size, nbits), LostBy(s, sp, addr, size, nbits);
      && lost <= Owned(sp) && lost <= r.s.used && lost !! Owned(r.sp)
      && r.s.used == s.used + Owned(r.sp) && Owned(r.sp) * s.used == Owned(sp) - lost
  {
    hide InPlace, Grown, Cleared, Written, Refused, FramesNeeded, FreeFrames, GainedPages, AllocStep, Lost,
         InOneTable, PageCount, Separate, Owned;
    AllocMeaning(s, sp, addr, size, nbits);
    InPlaceParts(s, sp);
    var v, k, r := addr / 4096, Written(s, sp, addr, size, nbits), AllocStep(s, sp, addr, size, nbits);
    ClearedOwned(sp, v, k);
    GrownParts(s, Cleared(sp, v, k), r.s, r.sp);
  }

  /** A call only adds to a space exactly when no page it enters was mapped, or it is refused. */
  lemma OnlyAddsIff(s: Snap, sp: Space, addr: nat, size: nat, nbits: int)
    requires InPlace(s, sp) && 0 in s.used && KERNEL_DIR in s.used && nbits <= PAGES && InOneTable(addr, size)
    ensures var r, v := AllocStep(s, sp, addr, size, nbits), addr / 4096;
      && (Grown(s, sp, r.s, r.sp) <==> Absent(sp, v, Written(s, sp, addr, size, nbits)))
      && (r.err == 0 ==>
            (Grown(s, sp, r.s, r.sp) <==> Refused(s, sp, v, nbits) || Absent(sp, v, PageCount(size))))
  {
    hide InPlace, Cleared, Refused, FreeFrames, AllocStep, Lost, PageCount, Separate, Owned, Grown, Absent;
    AllocMeaning(s, sp, addr, size, nbits);
    OverwriteLeaks(s, sp, addr, size, nbits);
    var v, k, r := addr / 4096, Written(s, sp, addr, size, nbits), AllocStep(s, sp, addr, size, nbits);
    LostNone(sp, v, k);
    if Grown(s, sp, r.s, r.sp) { GrownParts(s, sp, r.s, r.sp); }
    AbsentNothing(sp, v);
    WrittenIs(s, sp, addr, size, nbits);
    RequestPages(addr, size);
    assert Refused(s, sp, v, nbits) ==> k == 0;
    assert r.err == 0 && !Refused(s, sp, v, nbits) ==> k == PageCount(size);
  }

  lemma AbsentNothing(sp: Space, v: nat)
    ensures Absent(sp, v, 0)
  {
  }

  /** The pages `v`, ..., `v + n - 1` are in the space. */
  ghost predicate AllIn(sp: Space, v: int, n: int) {
    forall u {:trigger u in sp.pages} :: v <= u < v + n ==> u in sp.pages
  }

  /** A refused request reports success and enters nothing. After a call that reports success all
      pages asked for are in the space if and only if it was not refused or they all were in it
      before. */
  lemma SuccessMapsIff(s: Snap, sp: Space, addr: nat, size: nat, nbits: int)
    requires InPlace(s, sp) && 0 in s.used && KERNEL_DIR in s.used && nbits <= PAGES && InOneTable(addr, size)
    ensures var r, v, n := AllocStep(s, sp, addr, size, nbits), addr / 4096, PageCount(size);
      r.err == 0 ==> (AllIn(r.sp, v, n) <==> !Refused(s, sp, v, nbits) || AllIn(sp, v, n))
  {
    hide InPlace, Refused, FreeFrames, AllocStep, PageCount, Grown, Cleared;
    AllocMeaning(s, sp, addr, size, nbits);
    WrittenIs(s, sp, addr, size, nbits);
    RequestPages(addr, size);
    ClearedStep(sp, addr / 4096, 0);
    RefusedHasFrame(s, sp, addr / 4096, nbits);
    var r, v, k := AllocStep(s, sp, addr, size, nbits), addr / 4096, Written(s, sp, addr, size, nbits);
    if r.err == 0 {
      assert GainedPages(Cleared(sp, v, k), r.sp, v, k);
      assert !Refused(s, sp, v, nbits) ==> k == PageCount(size);
      assert Refused(s, sp, v, nbits) ==> k == 0 && forall u :: u in r.sp.pages <==> u in sp.pages;
    }
  }

  // ---------------------------------------------------------------- recycled table frames

  /** The frame that the call makes a table of holds words below `bound` at the entries that the
      call does not write. */
  ghost predicate TableBelow(s: Snap, sp: Space, addr: nat, size: nat, nbits: int, bound: int) {
    var v, t := addr / 4096, NextFrame(s.used, nbits);
    v / 1024 !in sp.tables && 0 <= t < PAGES && |s.m| == RAM_SIZE ==>
      forall k: nat {:trigger Entry(s.m, t, k)} ::
        k < 1024 && !(v % 1024 <= k < v % 1024 + Written(s, sp, addr, size, nbits)) ==> Entry(s.m, t, k) < bound
  }

  // ---------------------------------------------------------------- the writes themselves

  /** How often the loop of alloc_vpages runs if there are frames: the page count in 32 bits, and
      through all 32-bit integers when that is zero, for the test comes after the decrement. */
  function Rounds(size: nat): (n: nat)
    ensures n >= 1
  {
    var c := (size + (PAGE_SIZE - 1)) % RAM_SIZE / PAGE_SIZE;
    if c == 0 then RAM_SIZE else c
  }

  /** Memory, bitmap and result of the loop: one entry after the other from `pte` up, wherever that
      leads. */
  function RawPages(s: Snap, pte: nat, n: nat, nbits: int): (Snap, int)
    decreases n
  {
    var f := NextFrame(s.used, nbits);
    if n == 0 then (s, 0)
    else if 1 <= f < PAGES && pte + 4 <= |s.m| then
      RawPages(Snap(SetWord(s.m, pte, f * 4096 + PAGE_SHARED), s.used + {f}), pte + 4, n - 1, nbits)
    else (s, -ENOMEM)
  }

  /** The address of the entry of page `v`. */
  function EntryAddress(sp: Space, v: nat): nat {
    if v / 1024 in sp.tables then sp.tables[v / 1024] * 4096 + 4 * (v % 1024) else 0
  }

  /** Memory, bitmap and result of a call, whatever it asks for. */
  ghost function RawStep(s: Snap, sp: Space, addr: nat, size: nat, nbits: int): (Snap, int)
    requires addr / 4096 / 1024 < 1024
  {
    var v := addr / 4096;
    var r := TableStep(s, sp, v / 1024, nbits);
    if r.err != 0 || Refused(s, sp, v, nbits) then (r.s, r.err)
    else RawPages(r.s, EntryAddress(r.sp, v), Rounds(size), nbits)
  }

  /** The entries that the call writes lie below 4 GiB. */
  ghost predicate EntriesFit(s: Snap, sp: Space, addr: nat, size: nat, nbits: int) {
    var t := TargetTable(s, sp, addr / 4096 / 1024, nbits);
    0 <= t ==> t * 4096 + 4 * (addr / 4096 % 1024) + 4 * Min(Rounds(size), |FreeFrames(s.used, nbits)|) <= RAM_SIZE
  }

  lemma RawPagesIs(s: Snap, pte: nat, n: nat, nbits: int)
    ensures var f := NextFrame(s.used, nbits);
      RawPages(s, pte, n, nbits) ==
        if n == 0 then (s, 0)
        else if 1 <= f < PAGES && pte + 4 <= |s.m| then
          RawPages(Snap(SetWord(s.m, pte, f * 4096 + PAGE_SHARED), s.used + {f}), pte + 4, n - 1, nbits)
        else (s, -ENOMEM)
  {
  }

  lemma RawStepIs(s: Snap, sp: Space, addr: nat, size: nat, nbits: int)
    requires addr / 4096 / 1024 < 1024
    ensures RawStep(s, sp, addr, size, nbits) ==
        var r := TableStep(s, sp, addr / 4096 / 1024, nbits);
        if r.err != 0 || Refused(s, sp, addr / 4096, nbits) then (r.s, r.err)
        else RawPages(r.s, EntryAddress(r.sp, addr / 4096), Rounds(size), nbits)
    ensures ENOMEM == 9
  {
  }

  /** Within one table the entries are those of the pages in order. */
  lemma {:induction false} RawIsPages(s: Snap, sp: Space, v: nat, n: nat, nbits: int)
    requires |s.m| == RAM_SIZE && v / 1024 in sp.tables && sp.tables[v / 1024] < PAGES && v % 1024 + n <= 1024
    ensures var r := PagesStep(s, sp, v, n, nbits);
      RawPages(s, EntryAddress(sp, v), n, nbits) == (r.s, r.err)
    decreases n
  {
    hide NextFrame, PagesStep, RawPages, SetWord;
    PagesStepIs(s, sp, v, n, nbits);
    RawPagesIs(s, EntryAddress(sp, v), n, nbits);
    if n > 0 {
      PageStepIs(s, sp, v, nbits);
      var r := PageStep(s, sp, v, nbits);
      EntryFits(sp.tables[v / 1024], v);
      if r.err == 0 {
        NextInTable(s, sp, v, n, nbits);
        if n > 1 {
          RawIsPages(r.s, r.sp, v + 1, n - 1, nbits);
        } else {
          PagesStepIs(r.s, r.sp, v + 1, 0, nbits);
          RawPagesIs(r.s, EntryAddress(sp, v) + 4, 0, nbits);
        }
      }
    }
  }

  lemma EntryFits(t: nat, v: nat)
    requires t < PAGES
    ensures t * 4096 + 4 * (v % 1024) + 4 <= RAM_SIZE
  {
  }

  lemma NextInTable(s: Snap, sp: Space, v: nat, n: nat, nbits: int)
    requires |s.m| == RAM_SIZE && v / 1024 in sp.tables && sp.tables[v / 1024] < PAGES && v % 1024 + n <= 1024 && n > 0
    requires PageStep(s, sp, v, nbits).err == 0
    ensures var r, f := PageStep(s, sp, v, nbits), NextFrame(s.used, nbits);
      && 1 <= f < PAGES && r.sp.tables == sp.tables && |r.s.m| == RAM_SIZE && r.s.used == s.used + {f}
      && r.s.m == SetWord(s.m, EntryAddress(sp, v), f * 4096 + PAGE_SHARED)
      && (n > 1 ==> (v + 1) / 1024 == v / 1024 && (v + 1) % 1024 + n - 1 <= 1024
                    && EntryAddress(r.sp, v + 1) == EntryAddress(sp, v) + 4)
  {
    hide NextFrame, SetWord;
  }

  lemma RoundsIs(addr: nat, size: nat)
    requires InOneTable(addr, size)
    ensures Rounds(size) == PageCount(size) && PageCount(size) >= 1
  {
    Indices(addr);
  }

  /** A request that keeps within one table does what `AllocStep` says. */
  lemma RawIsStep(s: Snap, sp: Space, addr: nat, size: nat, nbits: int)
    requires InPlace(s, sp) && 0 in s.used && KERNEL_DIR in s.used && nbits <= PAGES && InOneTable(addr, size)
    ensures addr / 4096 / 1024 < 1024
    ensures var r := AllocStep(s, sp, addr, size, nbits); RawStep(s, sp, addr, size, nbits) == (r.s, r.err)
  {
    hide *;
    RequestPages(addr, size);
    RoundsIs(addr, size);
    AllocStepIs(s, sp, addr, size, nbits);
    RawStepIs(s, sp, addr, size, nbits);
    var v := addr / 4096;
    TableGrown(s, sp, v, nbits);
    var t := TableStep(s, sp, v / 1024, nbits);
    if t.err == 0 {
      GrownParts(s, sp, t.s, t.sp);
      InPlaceParts(t.s, t.sp);
      RawIsPages(t.s, t.sp, v, PageCount(size), nbits);
    }
  }

  lemma TargetOf(addr: nat, size: nat)
    requires InOneTable(addr, size)
    ensures USER_MEMORY_BEGIN <= addr < RAM_SIZE
  {
  }

  /** Such a request always fits. */
  lemma InTableFits(s: Snap, sp: Space, addr: nat, size: nat, nbits: int)
    requires InPlace(s, sp) && 0 in s.used && nbits <= PAGES && InOneTable(addr, size)
    ensures EntriesFit(s, sp, addr, size, nbits)
  {
    InPlaceParts(s, sp);
    hide InPlace, InMemory, Leads, NextFrame, FreeFrames;
    RoundsIs(addr, size);
    RequestPages(addr, size);
    NextFrameIsFree(s.used, nbits);
    MinIs(Rounds(size), |FreeFrames(s.used, nbits)|);
  }

  // ---------------------------------------------------------------- wherever they lead

  /** The frame that the `k`-th entry written leads to. */
  ghost function EntryGets(used: set<nat>, nbits: int, k: nat): int {
    NextFrame(Taken(used, nbits, k), nbits)
  }

  /** The loop writes as many entries as there are rounds or frames: the `k`-th of them leads to the
      next free frame, no other byte changes, and those frames are taken. It runs out of memory
      exactly when there are fewer frames than rounds. */
  lemma {:induction false} RawWrites(s: Snap, pte: nat, n: nat, nbits: int)
    requires 0 in s.used && nbits <= PAGES && |s.m| == RAM_SIZE
    requires pte + 4 * Min(n, |FreeFrames(s.used, nbits)|) <= RAM_SIZE
    ensures var (s', err), w := RawPages(s, pte, n, nbits), Min(n, |FreeFrames(s.used, nbits)|);
      && |s'.m| == RAM_SIZE && (err == 0 <==> n <= |FreeFrames(s.used, nbits)|) && (err == 0 || err == -ENOMEM)
      && s'.used == Taken(s.used, nbits, w)
      && (forall x {:trigger s'.m[x]} :: 0 <= x < RAM_SIZE && !(pte <= x < pte + 4 * w) ==> s'.m[x] == s.m[x])
      && (forall k: nat {:trigger EntryGets(s.used, nbits, k)} :: k < w ==>
            Word(s'.m, pte + 4 * k) == EntryGets(s.used, nbits, k) * 4096 + 0x227)
    decreases n
  {
    hide *;
    RawPagesIs(s, pte, n, nbits);
    MinIs(n, |FreeFrames(s.used, nbits)|);
    NextFrameExists(s.used, nbits);
    NextFrameIsFree(s.used, nbits);
    TakenNone(s.used, nbits);
    var f := NextFrame(s.used, nbits);
    if n > 0 && f != -1 {
      TakeOne(s.used, nbits, f);
      MinIs(n - 1, |FreeFrames(s.used, nbits)| - 1);
      WordValue(f);
      var s1 := Snap(SetWord(s.m, pte, f * 4096 + PAGE_SHARED), s.used + {f});
      WordStored(s.m, pte, f * 4096 + PAGE_SHARED);
      RawWrites(s1, pte + 4, n - 1, nbits);
      var s', w := RawPages(s, pte, n, nbits).0, Min(n, |FreeFrames(s.used, nbits)|);
      TakenFirst(s.used, nbits, w - 1);
      forall k: nat | k < w
        ensures Word(s'.m, pte + 4 * k) == EntryGets(s.used, nbits, k) * 4096 + 0x227
      {
        EntryGetsIs(s.used, nbits, k);
        if k == 0 { SameWord(s1.m, s'.m, pte); }
      }
    }
  }

  lemma TakenNone(used: set<nat>, nbits: int)
    ensures Taken(used, nbits, 0) == used && ENOMEM == 9
  {
  }

  lemma EntryGetsIs(used: set<nat>, nbits: int, k: nat)
    requires 0 in used && NextFrame(used, nbits) != -1
    ensures EntryGets(used, nbits, 0) == NextFrame(used, nbits)
    ensures NextFrame(used, nbits) >= 0 && (k > 0 ==>
      EntryGets(used, nbits, k) == EntryGets(used + {NextFrame(used, nbits)}, nbits, k - 1))
  {
    NextFrameIsFree(used, nbits);
    hide NextFrame;
    if k > 0 { TakenFirst(used, nbits, k - 1); }
  }

  lemma WordStored(m: seq<Byte>, a: nat, w: int)
    requires a + 4 <= |m| && 0 <= w < 0x1_0000_0000
    ensures |SetWord(m, a, w)| == |m| && Word(SetWord(m, a, w), a) == w
    ensures forall x {:trigger SetWord(m, a, w)[x]} :: 0 <= x < |m| && !(a <= x < a + 4) ==> SetWord(m, a, w)[x] == m[x]
  {
    WordSet(m, a, w, a);
  }

  lemma SameWord(m: seq<Byte>, m': seq<Byte>, a: nat)
    requires a + 4 <= |m| && |m'| == |m| && forall x {:trigger m'[x]} :: a <= x < a + 4 ==> m'[x] == m[x]
    ensures Word(m', a) == Word(m, a)
  {
  }

  /** A request that leaves its table overwrites the frame behind it: the entries past the last one
      of the table in frame `t` are the first words of frame `t + 1`, whatever it is used for. */
  lemma CrossingOverwrites(s: Snap, t: nat, j: nat, n: nat, nbits: int, k: nat)
    requires 0 in s.used && nbits <= PAGES && |s.m| == RAM_SIZE && t + 1 < PAGES && j < 1024
    requires t * 4096 + 4 * j + 4 * Min(n, |FreeFrames(s.used, nbits)|) <= RAM_SIZE
    requires 1024 - j <= k < Min(n, |FreeFrames(s.used, nbits)|) && k < 2048 - j
    ensures var s' := RawPages(s, t * 4096 + 4 * j, n, nbits).0;
      |s'.m| == RAM_SIZE && Entry(s'.m, t + 1, j + k - 1024) == EntryGets(s.used, nbits, k) * 4096 + 0x227
  {
    hide Min, FreeFrames, RawPages, EntryGets, Taken, Word;
    RawWrites(s, t * 4096 + 4 * j, n, nbits);
    assert t * 4096 + 4 * j + 4 * k == (t + 1) * 4096 + 4 * (j + k - 1024);
    assert EntryGets(s.used, nbits, k) == EntryGets(s.used, nbits, k);
  }

  /** A size that counts as no page, such as zero, takes every free frame and reports failure. */
  lemma NoPagesTakesAll(s: Snap, pte: nat, size: nat, nbits: int)
    requires 0 in s.used && nbits <= PAGES && |s.m| == RAM_SIZE && Rounds(size) == RAM_SIZE
    requires pte + 4 * Min(Rounds(size), |FreeFrames(s.used, nbits)|) <= RAM_SIZE
    ensures Rounds(0) == RAM_SIZE
    ensures var (s', err) := RawPages(s, pte, Rounds(size), nbits); err == -ENOMEM && Exhausted(s'.used, nbits)
  {
    hide *;
    RawWrites(s, pte, Rounds(size), nbits);
    FreeFew(s.used, nbits);
    MinIs(Rounds(size), |FreeFrames(s.used, nbits)|);
    RoundsOfZero();
    TakenAll(s.used, nbits);
  }

  lemma RoundsOfZero()
    ensures Rounds(0) == RAM_SIZE && ENOMEM == 9
  {
  }

  lemma FreeFew(used: set<nat>, nbits: int)
    requires nbits <= PAGES
    ensures |FreeFrames(used, nbits)| <= PAGES < RAM_SIZE
  {
    FewBelow(FreeFrames(used, nbits), PAGES);
  }

  lemma {:induction false} FewBelow(s: set<nat>, n: nat)
    requires forall x :: x in s ==> x < n
    ensures |s| <= n
  {
    if n == 0 {
      assert s == {};
    } else {
      FewBelow(s - {n - 1}, n - 1);
      assert s <= s - {n - 1} + {n - 1};
    }
  }

  lemma {:induction false} TakenAll(used: set<nat>, nbits: int)
    requires 0 in used
    ensures Exhausted(Taken(used, nbits, |FreeFrames(used, nbits)|), nbits)
    decreases |FreeFrames(used, nbits)|
  {
    NextFrameIsFree(used, nbits);
    NextFrameExists(used, nbits);
    var f := NextFrame(used, nbits);
    hide NextFrame;
    if f != -1 {
      TakeOne(used, nbits, f);
      TakenFirst(used, nbits, |FreeFrames(used, nbits)| - 1);
      TakenAll(used + {f}, nbits);
    }
  }

  lemma WordValue(f: int)
    requires 1 <= f < PAGES
    ensures 0 <= f * 4096 + PAGE_SHARED < RAM_SIZE == 0x1_0000_0000 && ENOMEM == 9
    ensures PAGE_SHARED == 0x227
  {
  }
}
