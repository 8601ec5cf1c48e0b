/** What alloc_vpages means for the addresses a process sees. */
module VirtualMap {
  import opened PhysMem
  import opened Bitmap
  import opened Paging
  import opened Spaces
  import opened Frames
  import opened MapSteps
  import opened Flags
  import opened Recycled
  import opened Growth
  import opened AddressSpace

  lemma NewPageFrame(s: Snap, c: Space, s': Snap, sp': Space, u: nat)
    requires Grown(s, c, s', sp') && u in sp'.pages && u !in c.pages
    ensures sp'.pages[u] !in s.used && sp'.pages[u] in s'.used && sp'.pages[u] < PAGES
  {
    GrownParts(s, c, s', sp');
    PagesAside(s', sp', u);
    hide InMemory, SameOutside, Copied, InPlace;
    var f := sp'.pages[u];
    forall i | i in c.tables ensures c.tables[i] != f { assert sp'.tables[i] == c.tables[i]; }
    forall w | w in c.pages ensures c.pages[w] != f { assert sp'.pages[w] == c.pages[w]; }
    assert f !in Owned(sp') * s.used;
  }

  /** The page of `a` is one of `v`, ..., `v + n - 1`. */
  predicate InRange(v: nat, n: nat, a: int) {
    v <= a / 4096 < v + n
  }

  /** Address `a` lies in the slot of page `v`, and the frame `made` became its table. */
  predicate InMade(v: nat, made: int, a: int) {
    0 <= made && a / 4096 / 1024 == v / 1024
  }

  /** What the frame `made` held at the entry of `a` leads past page zero. */
  ghost predicate Strays(m: seq<Byte>, made: int, a: int) {
    0 <= made < PAGES && |m| == RAM_SIZE && 0 <= a && Entry(m, made, a / 4096 % 1024) >= PAGE_SIZE
  }

  /** Address `a` leads to a frame that was free in `s`. */
  ghost predicate Gained(s: Snap, s': Snap, dir: nat, a: int) {
    && |s'.m| == RAM_SIZE && dir < PAGES && 0 <= a < RAM_SIZE
    && Mapped(s'.m, dir, a) && Walk(s'.m, dir, a) / 4096 !in s.used && Walk(s'.m, dir, a) / 4096 in s'.used
  }

  /** Where a table was made address `a` is mapped now exactly when its frame held a word leading
      past page zero; in every other slot its translation is as before. */
  ghost predicate Aside(s: Snap, s': Snap, dir: nat, v: nat, made: int, a: int) {
    && |s.m| == RAM_SIZE && |s'.m| == RAM_SIZE && dir < PAGES && 0 <= a < RAM_SIZE
    && if InMade(v, made, a) then
         !Mapped(s.m, dir, a) && (Mapped(s'.m, dir, a) <==> Strays(s.m, made, a))
       else
         Walk(s'.m, dir, a) == Walk(s.m, dir, a)
  }

  /** The byte that `a` stood for is as before, unless it lies in one of the frames `fs`. */
  ghost predicate ByteKept(m: seq<Byte>, m': seq<Byte>, dir: nat, fs: set<nat>, a: int) {
    && |m| == RAM_SIZE && |m'| == RAM_SIZE && dir < PAGES && 0 <= a < RAM_SIZE
    && var p := Walk(m, dir, a); p / 4096 !in fs ==> m'[p] == m[p]
  }

  /** Of address `a`, when the pages `v`, ..., `v + n - 1` were entered, and the frame `made`
      became their table if it is not -1. */
  ghost predicate Entered(s: Snap, s': Snap, dir: nat, v: nat, n: nat, made: int, fs: set<nat>, a: int) {
    && (InRange(v, n, a) ==> Gained(s, s', dir, a))
    && (!InRange(v, n, a) ==> Aside(s, s', dir, v, made, a) && ByteKept(s.m, s'.m, dir, fs, a))
  }

  /** The frame of the table of page `v`, if `sp` does not have one, or -1. */
  ghost function NewTable(sp: Space, sp': Space, v: nat): int {
    if v / 1024 !in sp.tables && v / 1024 in sp'.tables then sp'.tables[v / 1024] else -1
  }

  /** An address in the range. */
  lemma EnteredInside(s: Snap, sp: Space, s': Snap, sp': Space, v: nat, n: nat, a: int)
    requires Grown(s, Cleared(sp, v, n), s', sp') && GainedPages(Cleared(sp, v, n), sp', v, n)
    requires USER_MEMORY_BEGIN <= a < RAM_SIZE && InRange(v, n, a)
    ensures Gained(s, s', sp.dir, a)
  {
    hide *;
    GrownParts(s, Cleared(sp, v, n), s', sp');
    InPlaceParts(s', sp');
    InTheRange(sp, sp', v, n, a);
    NewPageFrame(s, Cleared(sp, v, n), s', sp', a / 4096);
    LeadsTo(s, s', sp', a);
    SameDir(sp, sp', v, n);
  }

  lemma SameDir(sp: Space, sp': Space, v: nat, n: nat)
    requires Extends(Cleared(sp, v, n), sp')
    ensures sp'.dir == sp.dir
  {
  }

  lemma InTheRange(sp: Space, sp': Space, v: nat, n: nat, a: int)
    requires GainedPages(Cleared(sp, v, n), sp', v, n) && USER_MEMORY_BEGIN <= a && InRange(v, n, a)
    ensures a / 4096 !in Cleared(sp, v, n).pages && a / 4096 in sp'.pages
  {
  }

  lemma LeadsTo(s: Snap, s': Snap, sp: Space, a: int)
    requires Leads(s'.m, sp) && USER_MEMORY_BEGIN <= a < RAM_SIZE && a / 4096 in sp.pages
    requires sp.pages[a / 4096] !in s.used && sp.pages[a / 4096] in s'.used
    ensures Gained(s, s', sp.dir, a)
  {
    WalkLeads(s'.m, sp, a);
    assert 1 <= sp.pages[a / 4096];
  }

  /** An address outside the range. */
  lemma EnteredOutside(s: Snap, sp: Space, s': Snap, sp': Space, v: nat, n: nat, a: int)
    requires InPlace(s, sp) && Grown(s, Cleared(sp, v, n), s', sp') && GainedPages(Cleared(sp, v, n), sp', v, n)
    requires USER_MEMORY_BEGIN <= a < RAM_SIZE && !InRange(v, n, a)
    ensures Aside(s, s', sp.dir, v, NewTable(sp, sp', v), a)
  {
    hide *;
    PageNumber(a);
    GrownParts(s, Cleared(sp, v, n), s', sp');
    InPlaceParts(s, sp);
    InPlaceParts(s', sp');
    OutsideRange(sp, sp', v, n, a);
    StaleWord(s, s', sp', a / 4096);
    WalkElsewhere(s.m, sp, a);
    WalkElsewhere(s'.m, sp', a);
    PageTable(sp, a / 4096);
    if a / 4096 in sp.pages {
      WalkLeads(s.m, sp, a);
      WalkLeads(s'.m, sp', a);
    } else if a / 4096 / 1024 in sp.tables {
      SameTableWord(s.m, sp, sp', a / 4096);
    } else if a / 4096 / 1024 in sp'.tables {
      MappedByWord(s'.m, sp', a);
      StraysIs(s.m, sp', a);
      ZeroIsUnmapped(s.m, sp.dir, a);
    }
    AsideFrom(s, s', sp.dir, v, NewTable(sp, sp', v), a);
  }

  lemma PageNumber(a: int)
    requires USER_MEMORY_BEGIN <= a
    ensures PAGE_SIZE == 4096 && 0 <= a && 0 <= a / 4096
  {
  }

  lemma ZeroIsUnmapped(m: seq<Byte>, dir: nat, a: int)
    requires |m| == RAM_SIZE && dir < PAGES && 0 <= a < RAM_SIZE && Walk(m, dir, a) == 0
    ensures !Mapped(m, dir, a)
  {
    hide Walk;
  }

  lemma SameTableWord(m: seq<Byte>, sp: Space, sp': Space, u: nat)
    requires |m| == RAM_SIZE && Shaped(sp) && Shaped(sp') && u / 1024 in sp.tables && u / 1024 in sp'.tables
    requires sp'.tables[u / 1024] == sp.tables[u / 1024]
    ensures PageWord(m, sp', u) == PageWord(m, sp, u)
  {
  }

  /** What the spaces say of a page outside the range. */
  lemma OutsideRange(sp: Space, sp': Space, v: nat, n: nat, a: int)
    requires Extends(Cleared(sp, v, n), sp') && GainedPages(Cleared(sp, v, n), sp', v, n)
    requires USER_MEMORY_BEGIN <= a && !InRange(v, n, a)
    ensures var u, made := a / 4096, NewTable(sp, sp', v);
      && sp'.dir == sp.dir && (u in sp'.pages <==> u in sp.pages) && (u in sp.pages ==> sp'.pages[u] == sp.pages[u])
      && (u / 1024 in sp.tables ==> u / 1024 in sp'.tables && sp'.tables[u / 1024] == sp.tables[u / 1024])
      && (u / 1024 in sp.tables ==> !InMade(v, made, a))
      && (u / 1024 !in sp.tables ==> (u / 1024 in sp'.tables <==> InMade(v, made, a)))
      && (InMade(v, made, a) ==> made == sp'.tables[u / 1024])
  {
    var u, c := a / 4096, Cleared(sp, v, n);
    assert u in sp.pages ==> u in c.pages && sp'.pages[u] == c.pages[u];
    assert u / 1024 in sp.tables ==> sp'.tables[u / 1024] == c.tables[u / 1024];
  }

  lemma AsideFrom(s: Snap, s': Snap, dir: nat, v: nat, made: int, a: int)
    requires |s.m| == RAM_SIZE && |s'.m| == RAM_SIZE && dir < PAGES && USER_MEMORY_BEGIN <= a < RAM_SIZE
    requires InMade(v, made, a) ==> !Mapped(s.m, dir, a) && (Mapped(s'.m, dir, a) <==> Strays(s.m, made, a))
    requires !InMade(v, made, a) ==> Walk(s'.m, dir, a) == Walk(s.m, dir, a)
    ensures Aside(s, s', dir, v, made, a)
  {
    hide Walk, Mapped, Strays;
  }

  lemma StraysIs(m: seq<Byte>, sp: Space, a: int)
    requires |m| == RAM_SIZE && Shaped(sp) && 0 <= a && a / PAGE_SIZE / 1024 in sp.tables
    ensures Strays(m, sp.tables[a / PAGE_SIZE / 1024], a) <==> PageWord(m, sp, a / PAGE_SIZE) >= PAGE_SIZE
  {
    assert 1 <= sp.tables[a / PAGE_SIZE / 1024] < PAGES;
  }

  lemma PageTable(sp: Space, u: nat)
    requires Shaped(sp)
    ensures u in sp.pages ==> u / 1024 in sp.tables
  {
    assert u in sp.pages ==> sp.pages[u] == sp.pages[u];
  }

  lemma MappedByWord(m: seq<Byte>, sp: Space, a: int)
    requires InMemory(m, sp) && USER_MEMORY_BEGIN <= a < RAM_SIZE && a / PAGE_SIZE / 1024 in sp.tables
    requires a / PAGE_SIZE !in sp.pages
    ensures |m| == RAM_SIZE && Shaped(sp) && sp.dir < PAGES
    ensures Mapped(m, sp.dir, a) <==> PageWord(m, sp, a / PAGE_SIZE) >= PAGE_SIZE
  {
    InMemoryMapped(m, sp, a);
  }

  lemma StaleWord(s: Snap, s': Snap, sp: Space, u: nat)
    requires Copied(s.m, s', sp)
    ensures |s.m| == RAM_SIZE && |s'.m| == RAM_SIZE && Shaped(sp)
    ensures u / 1024 in sp.tables && u !in sp.pages ==> PageWord(s'.m, sp, u) == PageWord(s.m, sp, u)
  {
    assert u / 1024 in sp.tables && u !in sp.pages ==> PageWord(s'.m, sp, u) == PageWord(s.m, sp, u);
  }

  /** One address before and after pages were entered in the range. */
  lemma EnteredMeaning(s: Snap, sp: Space, s': Snap, sp': Space, v: nat, n: nat, a: int)
    requires InPlace(s, sp) && Grown(s, Cleared(sp, v, n), s', sp') && GainedPages(Cleared(sp, v, n), sp', v, n)
    requires USER_MEMORY_BEGIN <= a < RAM_SIZE
    ensures Entered(s, s', sp.dir, v, n, NewTable(sp, sp', v), Structure(sp'), a)
  {
    hide *;
    if InRange(v, n, a) {
      EnteredInside(s, sp, s', sp', v, n, a);
    } else {
      EnteredOutside(s, sp, s', sp', v, n, a);
      GrownParts(s, Cleared(sp, v, n), s', sp');
      InPlaceParts(s, sp);
      BytesKept(s.m, s'.m, sp.dir, Structure(sp'), a);
    }
    EnteredFrom(s, s', sp.dir, v, n, NewTable(sp, sp', v), Structure(sp'), a);
  }

  lemma EnteredFrom(s: Snap, s': Snap, dir: nat, v: nat, n: nat, made: int, fs: set<nat>, a: int)
    requires InRange(v, n, a) ==> Gained(s, s', dir, a)
    requires !InRange(v, n, a) ==> Aside(s, s', dir, v, made, a) && ByteKept(s.m, s'.m, dir, fs, a)
    ensures Entered(s, s', dir, v, n, made, fs, a)
  {
    hide Gained, Aside, ByteKept;
  }

  lemma BytesKept(m: seq<Byte>, m': seq<Byte>, dir: nat, fs: set<nat>, a: int)
    requires SameOutside(m, m', fs) && dir < PAGES && USER_MEMORY_BEGIN <= a < RAM_SIZE
    ensures ByteKept(m, m', dir, fs, a)
  {
    var p := Walk(m, dir, a);
    hide Walk, SameOutside;
    if p / 4096 !in fs { OutsideByte(m, m', fs, p); }
  }

  lemma OutsideByte(m: seq<Byte>, m': seq<Byte>, fs: set<nat>, x: nat)
    requires SameOutside(m, m', fs) && x < RAM_SIZE && x / 4096 !in fs
    ensures |m| == RAM_SIZE && |m'| == RAM_SIZE && m'[x] == m[x]
  {
    assert SameFrame(m, m', x / 4096);
  }

  lemma EnteredNothing(s: Snap, sp: Space, v: nat, fs: set<nat>, a: int)
    requires InPlace(s, sp) && USER_MEMORY_BEGIN <= a < RAM_SIZE
    ensures Entered(s, s, sp.dir, v, 0, -1, fs, a)
  {
    InPlaceParts(s, sp);
    hide InPlace, Walk;
  }

  /** The frame that a call makes a table of, or -1 when it makes none. */
  ghost function MadeTable(s: Snap, sp: Space, v: nat, nbits: int): int {
    if v / 1024 in sp.tables then -1 else NextFrame(s.used, nbits)
  }

  lemma MadeIs(s: Snap, sp: Space, addr: nat, size: nat, nbits: int)
    requires InPlace(s, sp) && 0 in s.used && KERNEL_DIR in s.used && nbits <= PAGES && InOneTable(addr, size)
    ensures var r, i, t := AllocStep(s, sp, addr, size, nbits), addr / 4096 / 1024, NextFrame(s.used, nbits);
      i !in sp.tables ==>
        if t == -1 then r == Mapping(s, sp, -ENOMEM) && |FreeFrames(s.used, nbits)| == 0
        else 1 <= t < PAGES && |FreeFrames(s.used, nbits)| > 0 && i in r.sp.tables && r.sp.tables[i] == t
  {
    hide *;
    RequestPages(addr, size);
    AllocStepIs(s, sp, addr, size, nbits);
    var v := addr / 4096;
    TableStepIs(s, sp, v / 1024, nbits);
    AllocMeaning(s, sp, addr, size, nbits);
    if v / 1024 !in sp.tables {
      ReadyFrame(s, sp, v / 1024, nbits);
      var t := TableStep(s, sp, v / 1024, nbits);
      if NextFrame(s.used, nbits) != -1 {
        TableAdded(sp, v / 1024, NextFrame(s.used, nbits));
        PagesKeepTables(t.s, t.sp, v, PageCount(size), nbits);
      }
    }
  }

  lemma TableAdded(sp: Space, i: nat, t: nat)
    ensures i in AddTable(sp, i, t).tables && AddTable(sp, i, t).tables[i] == t && ENOMEM == 9
  {
  }

  /** What a call of alloc_vpages means, by the page walk, for every user address and whatever the
      frames it takes hold: as many of the pages asked for as there are frames are entered, and
      nothing else becomes mapped but where the frame of a new table held a word that leads
      somewhere. */
  lemma CallMeaning(s: Snap, sp: Space, addr: nat, size: nat, nbits: int, a: int)
    requires InPlace(s, sp) && 0 in s.used && KERNEL_DIR in s.used && nbits <= PAGES
    requires InOneTable(addr, size) && USER_MEMORY_BEGIN <= a < RAM_SIZE
    ensures var r, v := AllocStep(s, sp, addr, size, nbits), addr / 4096;
      Entered(s, r.s, sp.dir, v, Written(s, sp, addr, size, nbits), MadeTable(s, sp, v, nbits), Structure(r.sp), a)
  {
    hide InPlace, Grown, Cleared, Written, FramesNeeded, FreeFrames, GainedPages, AllocStep, Refused, NextFrame,
         InOneTable, Entered, Structure;
    AllocMeaning(s, sp, addr, size, nbits);
    MadeIs(s, sp, addr, size, nbits);
    WrittenIs(s, sp, addr, size, nbits);
    RefusedHasFrame(s, sp, addr / 4096, nbits);
    var v, k, r := addr / 4096, Written(s, sp, addr, size, nbits), AllocStep(s, sp, addr, size, nbits);
    if v / 1024 !in sp.tables && |FreeFrames(s.used, nbits)| == 0 {
      EnteredNothing(s, sp, v, Structure(r.sp), a);
    } else {
      EnteredMeaning(s, sp, r.s, r.sp, v, k, a);
      assert NewTable(sp, r.sp, v) == MadeTable(s, sp, v, nbits);
    }
  }

  /** No address becomes mapped besides the pages entered. */
  ghost predicate NothingElse(s: Snap, s': Snap, dir: nat, v: nat, n: nat) {
    && |s.m| == RAM_SIZE && |s'.m| == RAM_SIZE && dir < PAGES
    && forall a {:trigger Mapped(s'.m, dir, a)} :: USER_MEMORY_BEGIN <= a < RAM_SIZE && !InRange(v, n, a) ==>
         (Mapped(s'.m, dir, a) ==> Mapped(s.m, dir, a))
  }

  /** That is so if and only if the frame of a new table holds words below 4096 at the entries that
      the call does not write. */
  lemma NothingElseIff(s: Snap, sp: Space, addr: nat, size: nat, nbits: int)
    requires InPlace(s, sp) && 0 in s.used && KERNEL_DIR in s.used && nbits <= PAGES && InOneTable(addr, size)
    ensures var s', k := AllocStep(s, sp, addr, size, nbits).s, Written(s, sp, addr, size, nbits);
      NothingElse(s, s', sp.dir, addr / 4096, k) <==> TableBelow(s, sp, addr, size, nbits, PAGE_SIZE)
  {
    hide InPlace, Written, AllocStep, NextFrame, InOneTable, Mapped, Structure;
    var v, k, s', t := addr / 4096, Written(s, sp, addr, size, nbits), AllocStep(s, sp, addr, size, nbits).s,
                       MadeTable(s, sp, addr / 4096, nbits);
    InPlaceParts(s, sp);
    RequestPages(addr, size);
    CallMeaning(s, sp, addr, size, nbits, USER_MEMORY_BEGIN);
    MadeIs(s, sp, addr, size, nbits);
    if NothingElse(s, s', sp.dir, v, k) && t >= 0 {
      forall j: nat | j < 1024 && !(v % 1024 <= j < v % 1024 + k) ensures Entry(s.m, t, j) < PAGE_SIZE {
        var a := SlotAddress(v / 1024, j);
        CallMeaning(s, sp, addr, size, nbits, a);
        assert InMade(v, t, a) && !InRange(v, k, a);
      }
    }
    if TableBelow(s, sp, addr, size, nbits, PAGE_SIZE) {
      forall a | USER_MEMORY_BEGIN <= a < RAM_SIZE && !InRange(v, k, a) && Mapped(s'.m, sp.dir, a)
        ensures Mapped(s.m, sp.dir, a)
      {
        CallMeaning(s, sp, addr, size, nbits, a);
        WalkMapped(s.m, s'.m, sp.dir, a);
        if InMade(v, t, a) { OutsideEntry(v, k, a); }
      }
    }
  }

  lemma WalkMapped(m: seq<Byte>, m': seq<Byte>, dir: nat, a: int)
    requires |m| == RAM_SIZE && |m'| == RAM_SIZE && dir < PAGES && 0 <= a < RAM_SIZE
    ensures Walk(m', dir, a) == Walk(m, dir, a) ==> (Mapped(m', dir, a) <==> Mapped(m, dir, a))
  {
    hide Walk;
  }

  /** The first address of the page that is entry `j` of slot `i`. */
  function SlotAddress(i: nat, j: nat): (a: nat)
    requires USER_FIRST <= i < 1024 && j < 1024
    ensures USER_MEMORY_BEGIN <= a < RAM_SIZE && a / 4096 == 1024 * i + j
    ensures a / 4096 / 1024 == i && a / 4096 % 1024 == j
  {
    (1024 * i + j) * 4096
  }

  lemma OutsideEntry(v: nat, k: nat, a: int)
    requires 0 <= a && a / 4096 / 1024 == v / 1024 && !InRange(v, k, a)
    ensures !(v % 1024 <= a / 4096 % 1024 < v % 1024 + k)
  {
  }

  /** A call takes a space that memory holds exactly to one that memory holds exactly if and only if
      the frame of a new table is zero at the entries that the call does not write. */
  lemma CallExactIff(s: Snap, sp: Space, addr: nat, size: nat, nbits: int)
    requires Resident(s, sp) && 0 in s.used && KERNEL_DIR in s.used && nbits <= PAGES && InOneTable(addr, size)
    ensures var r := AllocStep(s, sp, addr, size, nbits);
      Resident(r.s, r.sp) <==> TableBelow(s, sp, addr, size, nbits, 1)
  {
    hide *;
    var v, k, r := addr / 4096, Written(s, sp, addr, size, nbits), AllocStep(s, sp, addr, size, nbits);
    ResidentInPlace(s, sp);
    AllocMeaning(s, sp, addr, size, nbits);
    MadeIs(s, sp, addr, size, nbits);
    MeansGrown(s, sp, addr, size, nbits, r);
    if v / 1024 !in sp.tables && NextFrame(s.used, nbits) == -1 {
      NoTableBelow(s, sp, addr, size, nbits, 1);
    } else {
      GrownParts(s, Cleared(sp, v, k), r.s, r.sp);
      CopiedResidentIff(s.m, r.s, r.sp);
      StaleTableIff(s, sp, r.sp, v, k);
      TableBelowIs(s, sp, addr, size, nbits, 1);
    }
  }

  lemma MeansGrown(s: Snap, sp: Space, addr: nat, size: nat, nbits: int, r: Mapping)
    requires AllocMeans(s, sp, addr, size, nbits, r) && InOneTable(addr, size) && 0 in s.used
    ensures var v, k := addr / 4096, Written(s, sp, addr, size, nbits);
      && Grown(s, Cleared(sp, v, k), r.s, r.sp)
      && (v / 1024 in sp.tables || NextFrame(s.used, nbits) != -1 ==> GainedPages(Cleared(sp, v, k), r.sp, v, k))
      && v % 1024 + k <= 1024
  {
    hide Grown, Cleared, GainedPages, Refused, NextFrame, FreeFrames;
    NextFrameExists(s.used, nbits);
    RequestPages(addr, size);
    WrittenIs(s, sp, addr, size, nbits);
  }

  lemma NoTableBelow(s: Snap, sp: Space, addr: nat, size: nat, nbits: int, bound: int)
    requires NextFrame(s.used, nbits) == -1
    ensures TableBelow(s, sp, addr, size, nbits, bound)
  {
  }

  /** The frame `t` holds words below `bound` but for `n` entries from the `k`-th. */
  ghost predicate FrameBelow(m: seq<Byte>, t: nat, k: nat, n: nat, bound: int) {
    && |m| == RAM_SIZE && t < PAGES
    && forall j: nat {:trigger Entry(m, t, j)} :: j < 1024 && !(k <= j < k + n) ==> Entry(m, t, j) < bound
  }

  lemma TableBelowIs(s: Snap, sp: Space, addr: nat, size: nat, nbits: int, bound: int)
    ensures var v, t := addr / 4096, NextFrame(s.used, nbits);
      0 <= t < PAGES && |s.m| == RAM_SIZE && v / 1024 !in sp.tables ==>
        (TableBelow(s, sp, addr, size, nbits, bound) <==>
          FrameBelow(s.m, t, v % 1024, Written(s, sp, addr, size, nbits), bound))
    ensures addr / 4096 / 1024 in sp.tables ==> TableBelow(s, sp, addr, size, nbits, bound)
  {
    hide NextFrame, Written;
  }

  lemma StaleTableIff(s: Snap, sp: Space, sp': Space, v: nat, k: nat)
    requires Resident(s, sp) && Shaped(sp')
    requires Extends(Cleared(sp, v, k), sp') && GainedPages(Cleared(sp, v, k), sp', v, k) && v % 1024 + k <= 1024
    ensures |s.m| == RAM_SIZE && v / 1024 in sp'.tables && 1 <= sp'.tables[v / 1024] < PAGES
    ensures StaleBelow(s.m, sp', 1) <==>
            (v / 1024 in sp.tables || FrameBelow(s.m, sp'.tables[v / 1024], v % 1024, k, 1))
  {
    var t := sp'.tables[v / 1024];
    OldTables(s, sp, sp', v, k);
    ResidentInPlace(s, sp);
    InPlaceParts(s, sp);
    hide Resident, Cleared, Extends, InPlace;
    if v / 1024 !in sp.tables {
      forall u: nat | u / 1024 == v / 1024 ensures u in sp'.pages <==> v % 1024 <= u % 1024 < v % 1024 + k {
        PagesOfNew(sp, sp', v, k, u);
      }
      if StaleBelow(s.m, sp', 1) {
        forall j: nat | j < 1024 && !(v % 1024 <= j < v % 1024 + k) ensures Entry(s.m, t, j) < 1 {
          var u := v / 1024 * 1024 + j;
          assert u / 1024 == v / 1024 && u % 1024 == j;
          assert PageWord(s.m, sp', u) < 1;
        }
      }
    }
  }

  /** The tables that were there have no stale entry. */
  lemma OldTables(s: Snap, sp: Space, sp': Space, v: nat, k: nat)
    requires Resident(s, sp) && Shaped(sp')
    requires Extends(Cleared(sp, v, k), sp') && GainedPages(Cleared(sp, v, k), sp', v, k)
    ensures |s.m| == RAM_SIZE
    ensures forall u: nat {:trigger PageWord(s.m, sp', u)} :: u / 1024 in sp.tables && u !in sp'.pages ==>
      u / 1024 in sp'.tables && PageWord(s.m, sp', u) == 0
  {
    hide Separate, Owned;
    forall u: nat | u / 1024 in sp.tables && u !in sp'.pages
      ensures u / 1024 in sp'.tables && PageWord(s.m, sp', u) == 0
    {
      assert sp'.tables[u / 1024] == Cleared(sp, v, k).tables[u / 1024];
      assert u !in sp.pages && PageOk(s.m, sp, u);
    }
  }

  lemma PagesOfNew(sp: Space, sp': Space, v: nat, k: nat, u: nat)
    requires Shaped(sp) && GainedPages(Cleared(sp, v, k), sp', v, k) && v % 1024 + k <= 1024
    requires v / 1024 !in sp.tables && u / 1024 == v / 1024
    ensures u in sp'.pages <==> v % 1024 <= u % 1024 < v % 1024 + k
  {
    PageTable(sp, u);
  }

  /** No two pages of a space share a frame. */
  lemma PagesDistinct(s: Snap, sp: Space, a: int, b: int)
    requires InPlace(s, sp) && 0 <= a < RAM_SIZE && 0 <= b < RAM_SIZE
    requires a / 4096 in sp.pages && b / 4096 in sp.pages && a != b
    ensures Walk(s.m, sp.dir, a) != Walk(s.m, sp.dir, b)
  {
    InPlaceParts(s, sp);
    hide InPlace, InMemory, Leads, Walk, Owned;
    WalkLeads(s.m, sp, a);
    WalkLeads(s.m, sp, b);
    assert a / PAGE_SIZE != b / PAGE_SIZE || a % PAGE_SIZE != b % PAGE_SIZE;
  }

  /** The entries a request writes all lie in the frame of one table exactly when the request
      keeps within it. */
  lemma EntriesInTableIff(t: nat, addr: int, size: int)
    requires USER_MEMORY_BEGIN <= addr < RAM_SIZE && 1 <= size
    ensures InOneTable(addr, size) <==>
            forall k: nat {:trigger EntryFrame(t, addr, k)} :: k < PageCount(size) ==> EntryFrame(t, addr, k) == t
  {
    var last := PageCount(size) - 1;
    assert EntryFrame(t, addr, last) == t <==> PteIndex(addr) + last < 1024;
  }

  /** The frame that holds the `k`-th entry written for a request at `addr`. */
  function EntryFrame(t: nat, addr: int, k: nat): int {
    (t * 4096 + 4 * PteIndex(addr) + 4 * k) / 4096
  }

  /** A request for two pages from the last page of a table writes its second entry into the
      frame behind the table. */
  lemma CrossingRequest(t: nat)
    ensures !InOneTable(0x403F_F000, 0x2000) && PageCount(0x2000) == 2
    ensures EntryFrame(t, 0x403F_F000, 0) == t && EntryFrame(t, 0x403F_F000, 1) == t + 1
  {
  }

  /** The pages counted for a size are the least that hold as many bytes. */
  lemma CountExact(size: int)
    requires 1 <= size
    ensures (PageCount(size) - 1) * 4096 < size <= PageCount(size) * 4096
  {
  }

  /** The loop runs as often, in 32 bits, but through all 32-bit integers if and only if the size is
      zero or within a page of 4 GiB. */
  lemma RoundsExact(size: nat)
    requires size < 0x1_0000_0000
    ensures Rounds(size) == 0x1_0000_0000 <==> size == 0 || size > 0xFFFF_F000
    ensures 1 <= size <= 0xFFFF_F000 ==> (Rounds(size) - 1) * 4096 < size <= Rounds(size) * 4096
  {
  }

  /** The pages asked for are counted from the size alone. They cover the bytes asked for if and
      only if the bytes, with the offset of the first in its page, fit in that many pages. */
  lemma CoversIff(addr: int, size: int)
    requires 0 <= addr && 1 <= size
    ensures (forall a {:trigger PageOf(a)} :: addr <= a < addr + size ==>
        PageOf(addr) <= PageOf(a) < PageOf(addr) + PageCount(size))
      <==> addr % 4096 + size <= 4096 * PageCount(size)
  {
    var last := addr + size - 1;
    assert PageOf(last) < PageOf(addr) + PageCount(size) <==> addr % 4096 + size <= 4096 * PageCount(size);
    if addr % 4096 + size <= 4096 * PageCount(size) {
      forall a | addr <= a < addr + size ensures PageOf(addr) <= PageOf(a) < PageOf(addr) + PageCount(size) {
        assert PageOf(addr) <= PageOf(a) <= PageOf(last);
      }
    }
  }

  function PageOf(a: int): int {
    a / 4096
  }

  /** 4096 bytes from the middle of a page lie in two pages, and one is mapped. */
  lemma UnalignedRequest()
    ensures var addr, size := 0x4000_0800, 0x1000;
      InOneTable(addr, size) && PageCount(size) == 1 && (addr + size - 1) / 4096 == addr / 4096 + 1
  {
  }

  /** A request that starts on an unmapped page and reaches a mapped one: the mapped page's frame
      is lost. */
  lemma OverlappingRequest(s: Snap, sp: Space, addr: nat, nbits: int)
    requires Resident(s, sp) && addr / 4096 !in sp.pages && addr / 4096 + 1 in sp.pages && InOneTable(addr, 0x2000)
    requires addr / 4096 / 1024 in sp.tables && 2 <= |FreeFrames(s.used, nbits)|
    ensures Written(s, sp, addr, 0x2000, nbits) == 2
    ensures LostBy(s, sp, addr, 0x2000, nbits) == {sp.pages[addr / 4096 + 1]}
  {
    hide *;
    NotRefused(s, sp, addr / 4096, nbits);
    WrittenIs(s, sp, addr, 0x2000, nbits);
    TwoPages(|FreeFrames(s.used, nbits)|);
    OneLost(s, sp, addr, nbits);
  }

  lemma TwoPages(free: int)
    ensures PageCount(0x2000) == 2 && (2 <= free ==> Min(2, free) == 2)
  {
  }

  lemma OneLost(s: Snap, sp: Space, addr: nat, nbits: int)
    requires addr / 4096 !in sp.pages && addr / 4096 + 1 in sp.pages && Written(s, sp, addr, 0x2000, nbits) == 2
    ensures LostBy(s, sp, addr, 0x2000, nbits) == {sp.pages[addr / 4096 + 1]}
  {
    hide Written;
    var v := addr / 4096;
    assert v <= v + 1 < v + 2;
    forall f | f in Lost(sp, v, 2) ensures f == sp.pages[v + 1] {}
  }

  // ---------------------------------------------------------------- a request once more

  /** Entered once, a page refuses the request: it is present, and clean until the processor says
      otherwise. */
  lemma EnteredRefuses(s: Snap, sp: Space, v: nat, ts: set<nat>, k: nat, nbits: int)
    requires InPlace(s, sp) && Flagged(s.m, sp, ts, Run(v, k)) && k > 0
    ensures v in sp.pages && v / 1024 in sp.tables && Refused(s, sp, v, nbits)
  {
    hide *;
    InPlaceParts(s, sp);
    FirstOfRun(v, k);
    FlaggedAt(s.m, sp, ts, Run(v, k), v);
    SlotTable(sp, v / 1024);
    TargetIs(s, sp, v / 1024, nbits);
    RefusedIs(s, sp, v, nbits);
    CleanWord(sp.pages[v]);
  }

  lemma FirstOfRun(v: nat, k: nat)
    ensures k > 0 ==> v in Run(v, k)
  {
  }

  lemma CleanWord(f: nat)
    ensures Present(f * 4096 + 0x227) && !Dirty(f * 4096 + 0x227)
  {
    var w := f * 4096 + 0x227;
    assert w == 2 * (2048 * f + 0x113) + 1;
    assert w == 64 * (64 * f + 8) + 0x27;
    assert 64 * f + 8 == 2 * (32 * f + 4);
  }

  /** Whether the request is refused stays the same while its first entry is not written. */
  lemma RefusedAgain(s: Snap, sp: Space, s': Snap, sp': Space, v: nat, nbits: int)
    requires InPlace(s, sp) && InPlace(s', sp') && v / 1024 < 1024
    requires TableStep(s, sp, v / 1024, nbits) == Mapping(s', sp', 0)
    ensures v / 1024 in sp'.tables && (Refused(s', sp', v, nbits) <==> Refused(s, sp, v, nbits))
  {
    hide InPlace, TableStep;
    TargetEntry(s, sp, s', sp', nbits, v);
  }

  /** A page entered lies in a new frame. */
  lemma PagesChangedIff(s: Snap, sp: Space, addr: nat, size: nat, nbits: int)
    requires InPlace(s, sp) && 0 in s.used && KERNEL_DIR in s.used && nbits <= PAGES && InOneTable(addr, size)
    ensures AllocStep(s, sp, addr, size, nbits).sp.pages != sp.pages <==> Written(s, sp, addr, size, nbits) > 0
  {
    hide *;
    var v, k, r := addr / 4096, Written(s, sp, addr, size, nbits), AllocStep(s, sp, addr, size, nbits);
    AllocMeaning(s, sp, addr, size, nbits);
    MeansGrown(s, sp, addr, size, nbits, r);
    MadeIs(s, sp, addr, size, nbits);
    WrittenIs(s, sp, addr, size, nbits);
    ClearedStep(sp, v, 0);
    NextFrameExists(s.used, nbits);
    if k > 0 {
      FirstEntered(sp, r.sp, v, k);
      NewPageFrame(s, Cleared(sp, v, k), r.s, r.sp, v);
      if v in sp.pages { PagesAside(s, sp, v); }
    } else if v / 1024 in sp.tables || NextFrame(s.used, nbits) != -1 {
      GrownParts(s, sp, r.s, r.sp);
      NothingGained(sp, r.sp, v);
    } else {
      TableFull(s, sp);
    }
  }

  lemma TableFull(s: Snap, sp: Space)
    ensures Mapping(s, sp, -ENOMEM).sp.pages == sp.pages
  {
  }

  lemma FirstEntered(sp: Space, sp': Space, v: nat, k: nat)
    requires GainedPages(Cleared(sp, v, k), sp', v, k) && k > 0
    ensures v in sp'.pages && v !in Cleared(sp, v, k).pages
  {
  }

  lemma NothingGained(sp: Space, sp': Space, v: nat)
    requires GainedPages(sp, sp', v, 0) && Extends(sp, sp')
    ensures sp'.pages == sp.pages
  {
    assert forall u :: u in sp.pages ==> sp'.pages[u] == sp.pages[u];
  }

  /** Making the same request once more, for any number of pages in that table, changes nothing:
      not memory, not the bitmap, not the space. It reports success exactly when the first call
      did or entered a page before it ran out of memory. */
  lemma RepeatedCall(s: Snap, sp: Space, addr: nat, size: nat, again: nat, nbits: int)
    requires InPlace(s, sp) && 0 in s.used && KERNEL_DIR in s.used && nbits <= PAGES
    requires InOneTable(addr, size) && InOneTable(addr, again)
    ensures var r := AllocStep(s, sp, addr, size, nbits);
      AllocStep(r.s, r.sp, addr, again, nbits)
        == Mapping(r.s, r.sp, if r.err == 0 || r.sp.pages != sp.pages then 0 else -9)
  {
    hide *;
    var v, k, r := addr / 4096, Written(s, sp, addr, size, nbits), AllocStep(s, sp, addr, size, nbits);
    RequestPages(addr, size);
    RequestPages(addr, again);
    AllocMeaning(s, sp, addr, size, nbits);
    MeansInPlace(s, sp, addr, size, nbits, r);
    PagesChangedIff(s, sp, addr, size, nbits);
    CallFlags(s, sp, addr, size, nbits);
    WrittenIs(s, sp, addr, size, nbits);
    AllocStepIs(s, sp, addr, size, nbits);
    AllocStepIs(r.s, r.sp, addr, again, nbits);
    TableGrown(s, sp, v, nbits);
    var t := TableStep(s, sp, v / 1024, nbits);
    TableStepIs(r.s, r.sp, v / 1024, nbits);
    MinIs(PageCount(size), |FreeFrames(t.s.used, nbits)|);
    if k > 0 {
      EnteredRefuses(r.s, r.sp, v, MadeSlot(sp, r.sp, v / 1024), k, nbits);
    } else if t.err != 0 {
      TableStepIs(s, sp, v / 1024, nbits);
    } else {
      GrownParts(s, sp, t.s, t.sp);
      RefusedAgain(s, sp, t.s, t.sp, v, nbits);
      FailsAgain(t.s, t.sp, v, PageCount(size), nbits);
      FailsAgain(t.s, t.sp, v, PageCount(again), nbits);
    }
  }

  /** A request whose first page is mapped enters pages, and so gives up the frame of that page, exactly
      when the processor has marked it dirty (bit 6 of its entry) and a frame is free. */
  lemma ReenteredIff(s: Snap, sp: Space, addr: nat, size: nat, nbits: int)
    requires InPlace(s, sp) && 0 in s.used && KERNEL_DIR in s.used && nbits <= PAGES && InOneTable(addr, size)
    requires addr / 4096 in sp.pages && addr / 4096 / 1024 in sp.tables && sp.tables[addr / 4096 / 1024] < PAGES
    requires |s.m| == RAM_SIZE
    ensures AllocStep(s, sp, addr, size, nbits).sp.pages != sp.pages <==>
      && Entry(s.m, sp.tables[addr / 4096 / 1024], addr / 4096 % 1024) / 64 % 2 == 1
      && |FreeFrames(s.used, nbits)| > 0
  {
    hide *;
    var v := addr / 4096;
    PagesChangedIff(s, sp, addr, size, nbits);
    RequestPages(addr, size);
    WrittenIs(s, sp, addr, size, nbits);
    MinIs(PageCount(size), |FreeFrames(s.used, nbits)|);
    InPlaceParts(s, sp);
    PageSeen(s.m, sp, v);
    SeenWord(s.m, sp, v);
    TargetIs(s, sp, v / 1024, nbits);
    RefusedIs(s, sp, v, nbits);
    DirtyIs(Entry(s.m, sp.tables[v / 1024], v % 1024));
  }

  lemma SeenWord(m: seq<Byte>, sp: Space, v: nat)
    requires HasPage(m, sp, v) && v / 1024 in sp.tables && sp.tables[v / 1024] < PAGES
    ensures |m| == RAM_SIZE && Present(Entry(m, sp.tables[v / 1024], v % 1024))
  {
  }

  lemma DirtyIs(w: int)
    ensures Dirty(w) <==> w / 64 % 2 == 1
  {
  }

  /** Without a free frame no page is entered. */
  lemma FailsAgain(s: Snap, sp: Space, v: nat, n: nat, nbits: int)
    requires InPlace(s, sp) && 0 in s.used && nbits <= PAGES && v / 1024 in sp.tables && n > 0
    ensures |FreeFrames(s.used, nbits)| == 0 ==> PagesStep(s, sp, v, n, nbits) == Mapping(s, sp, -9)
  {
    hide *;
    NextIsWritable(s, sp, v, nbits);
    PagesStepIs(s, sp, v, n, nbits);
    PageStepIs(s, sp, v, nbits);
    TakenNone(s.used, nbits);
  }

  /** A refused request reports success, and leaves the pages of the space as they are. */
  lemma RefusedEntersNothing(s: Snap, sp: Space, addr: nat, size: nat, nbits: int)
    requires InPlace(s, sp) && 0 in s.used && KERNEL_DIR in s.used && nbits <= PAGES && InOneTable(addr, size)
    requires Refused(s, sp, addr / 4096, nbits)
    ensures var r := AllocStep(s, sp, addr, size, nbits); r.err == 0 && forall u :: u in r.sp.pages <==> u in sp.pages
  {
    hide InPlace, Refused, FreeFrames, AllocStep, PageCount, Grown, Cleared;
    AllocMeaning(s, sp, addr, size, nbits);
    WrittenIs(s, sp, addr, size, nbits);
    ClearedStep(sp, addr / 4096, 0);
    RefusedHasFrame(s, sp, addr / 4096, nbits);
  }

  /** Two pages are asked for, of which the first is mapped and clean and the second is not mapped:
      the call succeeds, and the second is not mapped. */
  lemma HalfMappedRequest(s: Snap, sp: Space, addr: nat, nbits: int)
    requires Resident(s, sp) && 0 in s.used && KERNEL_DIR in s.used && nbits <= PAGES && InOneTable(addr, 0x2000)
    requires addr / 4096 in sp.pages && addr / 4096 + 1 !in sp.pages && addr / 4096 / 1024 in sp.tables
    requires |s.m| == RAM_SIZE && sp.tables[addr / 4096 / 1024] < PAGES
    requires Entry(s.m, sp.tables[addr / 4096 / 1024], addr / 4096 % 1024) / 64 % 2 == 0
    ensures var r := AllocStep(s, sp, addr, 0x2000, nbits); r.err == 0 && addr / 4096 + 1 !in r.sp.pages
  {
    ResidentInPlace(s, sp);
    assert PageOk(s.m, sp, addr / 4096);
    hide Resident, InPlace, AllocStep, InOneTable;
    RefusedEntersNothing(s, sp, addr, 0x2000, nbits);
  }

  /** The frame that would become the table holds a present, clean word at the first entry: the call
      succeeds, takes the frame, and enters no page. */
  lemma StaleWordRefuses(s: Snap, sp: Space, addr: nat, size: nat, nbits: int)
    requires InPlace(s, sp) && 0 in s.used && KERNEL_DIR in s.used && nbits <= PAGES && InOneTable(addr, size)
    requires addr / 4096 / 1024 !in sp.tables && 0 <= NextFrame(s.used, nbits) < PAGES && |s.m| == RAM_SIZE
    requires var w := Entry(s.m, NextFrame(s.used, nbits), addr / 4096 % 1024); w % 2 == 1 && w / 64 % 2 == 0
    ensures var r := AllocStep(s, sp, addr, size, nbits);
      && r.err == 0 && NextFrame(s.used, nbits) in r.s.used && forall u :: u in r.sp.pages <==> u in sp.pages
  {
    hide InPlace, AllocStep, InOneTable, NextFrame;
    RefusedEntersNothing(s, sp, addr, size, nbits);
    MadeIs(s, sp, addr, size, nbits);
    AllocMeaning(s, sp, addr, size, nbits);
    OverwriteLeaks(s, sp, addr, size, nbits);
    TableOwned(AllocStep(s, sp, addr, size, nbits).sp, addr / 4096 / 1024);
  }

  lemma TableOwned(sp: Space, i: nat)
    ensures i in sp.tables ==> sp.tables[i] in Owned(sp)
  {
  }

  lemma NotRefused(s: Snap, sp: Space, v: nat, nbits: int)
    requires Resident(s, sp) && v !in sp.pages && v / 1024 in sp.tables
    ensures !Refused(s, sp, v, nbits)
  {
    assert PageOk(s.m, sp, v);
  }

  /** A recycled frame that is not zero, linked as a table, maps what it held: a page past page
      zero for each word from 4096 up. */
  lemma DirtyTableMaps(m: seq<Byte>, sp: Space, i: nat, t: nat, k: nat)
    requires InMemory(m, sp) && Separate(sp) && USER_FIRST <= i < 1024 && i !in sp.tables
    requires 1 <= t < PAGES && t !in Owned(sp) && k < 1024 && Entry(m, t, k) >= PAGE_SIZE
    ensures USER_MEMORY_BEGIN <= (1024 * i + k) * 4096 < RAM_SIZE && sp.dir < PAGES && 1024 * i + k !in sp.pages
    ensures Mapped(SetEntry(m, sp.dir, i, EntryFor(t)), sp.dir, (1024 * i + k) * 4096)
  {
    hide *;
    var v := 1024 * i + k;
    TablePage(sp, i, k);
    CarriesSelf(m, sp);
    InMemoryShape(m, sp);
    PageTable(sp, v);
    SameFrameSelf(m, t);
    CarriesTable(m, m, sp, i, t);
    ShapeOfCarries(m, SetEntry(m, sp.dir, i, EntryFor(t)), AddTable(sp, i, t));
    CarriesMapped(m, SetEntry(m, sp.dir, i, EntryFor(t)), AddTable(sp, i, t), v * 4096);
    TableWord(m, sp, i, t, v);
  }

  lemma ShapeOfCarries(m0: seq<Byte>, m: seq<Byte>, sp: Space)
    requires Carries(m0, m, sp)
    ensures |m0| == RAM_SIZE && |m| == RAM_SIZE && Shaped(sp)
  {
  }

  lemma TablePage(sp: Space, i: nat, k: nat)
    requires USER_FIRST <= i < 1024 && k < 1024
    ensures var v := 1024 * i + k;
      v / 1024 == i && v % 1024 == k && v * 4096 / PAGE_SIZE == v && USER_MEMORY_BEGIN <= v * 4096 < RAM_SIZE
    ensures PAGE_SIZE == 4096
  {
  }

  lemma TableWord(m: seq<Byte>, sp: Space, i: nat, t: nat, v: nat)
    requires |m| == RAM_SIZE && Shaped(AddTable(sp, i, t)) && v / 1024 == i && t < PAGES
    ensures var sp' := AddTable(sp, i, t);
      i in sp'.tables && sp'.dir == sp.dir && sp'.pages == sp.pages && PageWord(m, sp', v) == Entry(m, t, v % 1024)
  {
  }

  const USER_STACK_SIZE: int := 500 * 4096

  /** The stack request of sys_execve ends exactly at the end of the last table, and its pages
      reach to the top of memory. */
  lemma ExecveStack()
    ensures var addr, size := 0xFFFF_FFFF - USER_STACK_SIZE, USER_STACK_SIZE + 4096;
      && PdeIndex(addr) == 1023 && PteIndex(addr) == 523 && PageCount(size) == 501
      && InOneTable(addr, size) && !InOneTable(addr, size + 1)
      && forall a :: addr <= a < RAM_SIZE ==> addr / 4096 <= a / 4096 < addr / 4096 + PageCount(size)
  {
  }
}
