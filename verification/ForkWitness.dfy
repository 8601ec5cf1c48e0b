/** From power-on: two processes, of which one leaves a word in its memory and exits. The other
    forks; the child maps a page that its parent does not, and its exit frees a frame that its
    parent uses. */
module ForkWitness {
  import opened PhysMem
  import opened Bitmap
  import opened BitmapInit
  import opened Paging
  import opened Spaces
  import opened Frames
  import opened Recycled
  import opened Growth
  import opened MapSteps
  import opened AddressSpace
  import opened MemoryBoot
  import opened VirtualMap
  import opened Teardown
  import opened Fork
  import opened ForkExact
  import opened UserCopy

  /** 128 MiB, of which the lowest is reserved. */
  const LAYOUT: seq<Layout> := [Layout(0, 0x10_0000, 2), Layout(0x10_0000, 0x7F0_0000, 1), Layout(0, 0, 0)]
  const NBITS: int := 0x8000
  const FIRST_FREE: nat := 0x601

  /** Exactly the pages from `k` on are free. */
  ghost predicate Filled(used: set<nat>, k: nat) {
    && k < NBITS && (forall p: nat :: p < k ==> p in used)
    && forall p: nat :: k <= p < NBITS ==> p !in used
  }

  /** The frames from `k` on read as zero. */
  ghost predicate ZeroFrom(m: seq<Byte>, k: nat) {
    |m| == RAM_SIZE && forall f: nat {:trigger ZeroFrame(m, f)} :: k <= f < PAGES ==> ZeroFrame(m, f)
  }

  lemma NextIs(used: set<nat>, f: nat)
    requires f < NBITS && f !in used && forall p: nat :: p < f ==> p in used
    ensures NextFrame(used, NBITS) == f
  {
    assert FreeRun(used, f, 1);
    forall b: nat | b < f ensures !FreeRun(used, b, 1) { assert b in used; }
    FirstFitUnique(used, NBITS, 1, f);
  }

  lemma FilledNext(used: set<nat>, k: nat)
    requires Filled(used, k) && k + 1 < NBITS
    ensures NextFrame(used, NBITS) == k && Filled(used + {k}, k + 1)
  {
    NextIs(used, k);
  }

  lemma ZeroKept(m: seq<Byte>, m': seq<Byte>, fs: set<nat>, k: nat, k': nat)
    requires ZeroFrom(m, k) && SameOutside(m, m', fs) && k <= k' && forall f :: f in fs ==> f < k'
    ensures ZeroFrom(m', k')
  {
    forall f: nat | k' <= f < PAGES ensures ZeroFrame(m', f) {
      assert SameFrame(m, m', f) && ZeroFrame(m, f);
      forall j: nat | j < 1024 ensures Entry(m', f, j) == 0 {
        EntrySame(m, m', f, j);
        assert Entry(m, f, j) == 0;
      }
    }
  }

  lemma ResidentKept(s: Snap, s': Snap, sp: Space, fs: set<nat>)
    requires Resident(s, sp) && SameOutside(s.m, s'.m, fs) && fs !! Structure(sp) && s.used <= s'.used
    ensures Resident(s', sp)
  {
    hide Maps, SameOutside, Structure;
    MapsSame(s.m, s'.m, sp, fs);
  }

  lemma LayoutScanned()
    ensures Scanned(LAYOUT, 2) && forall i :: 0 <= i < 2 && Counts(LAYOUT[i]) ==> FitsMap(LAYOUT[i])
    ensures BitCount(TotalSize(LAYOUT[..2])) == NBITS < PAGES
  {
    var l := LAYOUT[..2];
    assert l[..1][..0] == [] && l[..1] == [LAYOUT[0]] && LAYOUT[..2][..1] == [LAYOUT[0]];
    assert TotalSize([LAYOUT[0]]) == 0x10_0000 by { assert [LAYOUT[0]][..0] == []; }
    assert TotalSize(l) == 0x800_0000;
  }

  lemma LayoutFilled(used: set<nat>)
    requires forall p: nat :: p < PAGES ==> (p in used <==> !ClearedBy(LAYOUT, 2, p))
    ensures Filled(used, FIRST_FREE)
  {
    var r := LAYOUT[1];
    assert FirstPage(r) == 0x601 && EndPage(r) == 0x8000 && Up8(0x601) == 0x608 && Down8(0x8000) == 0x8000;
    assert !Counts(LAYOUT[0]);
    forall p: nat | p < PAGES ensures ClearedBy(LAYOUT, 2, p) <==> 0x601 <= p < 0x8000 {
      assert Clears(LAYOUT[1], p) <==> 0x601 <= p < 0x8000;
      assert !Clears(LAYOUT[0], p);
    }
  }

  lemma ZeroMemory(m: seq<Byte>)
    requires |m| == RAM_SIZE && forall a {:trigger m[a]} :: 0 <= a < RAM_SIZE ==> m[a] == 0
    ensures ZeroFrom(m, FIRST_FREE)
  {
    forall f: nat | f < PAGES ensures ZeroFrame(m, f) {
      forall k: nat | k < 1024 ensures Entry(m, f, k) == 0 {}
    }
  }

  // ---------------------------------------------------------------- mapping on a fresh machine

  /** A page-aligned request for `n` pages from virtual page `v`. */
  predicate Aligned(addr: nat, size: nat, v: nat, n: nat) {
    addr == v * 4096 && size == n * 4096 && 1 <= n <= 2 && USER_FIRST <= v / 1024 < 1024 && v % 1024 + n <= 1024
  }

  lemma AlignedRequest(addr: nat, size: nat, v: nat, n: nat)
    requires Aligned(addr, size, v, n)
    ensures InOneTable(addr, size) && PageCount(size) == n && addr / 4096 == v
  {
    Indices(addr);
  }

  /** The space with a table in frame `k` and the pages behind it. */
  function Mapped1(sp: Space, v: nat, n: nat, k: nat): Space {
    var t := AddPage(AddTable(sp, v / 1024, k), v, k + 1);
    if n == 2 then AddPage(t, v + 1, k + 2) else t
  }

  lemma FreshPages(s: Snap, sp: Space, v: nat, n: nat, k: nat)
    requires Filled(s.used, k) && k + n < NBITS && |s.m| == RAM_SIZE && v / 1024 in sp.tables
    requires sp.tables[v / 1024] < PAGES && 1 <= n <= 2 && (n == 2 ==> (v + 1) / 1024 == v / 1024) && 1 <= k
    ensures var r := PagesStep(s, sp, v, n, NBITS);
      && r.err == 0 && Filled(r.s.used, k + n)
      && r.sp == (if n == 2 then AddPage(AddPage(sp, v, k), v + 1, k + 1) else AddPage(sp, v, k))
    decreases n
  {
    hide *;
    Consts();
    FilledNext(s.used, k);
    FilledBelow(s.used, k);
    PagesStepIs(s, sp, v, n, NBITS);
    PageStepIs(s, sp, v, NBITS);
    FrameWritable(s, sp.tables[v / 1024], k);
    var r := PageStep(s, sp, v, NBITS);
    PagesStepIs(r.s, r.sp, v + 1, n - 1, NBITS);
    if n == 2 {
      HasTable(sp, v, k);
      FreshPages(r.s, r.sp, v + 1, 1, k + 1);
    }
  }

  lemma Consts()
    ensures NBITS == 0x8000 < PAGES && ENOMEM == 9 && FIRST_FREE == 0x601 && Paging.PAGE_SIZE == 4096
    ensures USER_FIRST == 256
    ensures USER_MEMORY_BEGIN == 0x4000_0000 && RAM_SIZE == 0x1_0000_0000 && KERNEL_DIR == 0x200
  {
  }

  lemma FilledBelow(used: set<nat>, k: nat)
    requires Filled(used, k)
    ensures k < NBITS && forall p: nat :: p < k ==> p in used
    ensures forall p: nat :: k <= p < NBITS ==> p !in used
  {
  }

  /** On a machine whose free frames are zero a request for a new table gets the next frames. */
  lemma FreshMap(s: Snap, sp: Space, addr: nat, size: nat, v: nat, n: nat, k: nat)
    requires Aligned(addr, size, v, n) && Resident(s, sp) && v / 1024 !in sp.tables
    requires Filled(s.used, k) && ZeroFrom(s.m, k) && FIRST_FREE <= k && k + n + 1 < NBITS
    ensures InOneTable(addr, size)
    ensures var r := AllocStep(s, sp, addr, size, NBITS);
      && r.err == 0 && r.sp == Mapped1(sp, v, n, k) && Resident(r.s, r.sp) && Filled(r.s.used, k + n + 1)
      && SameOutside(s.m, r.s.m, Structure(r.sp)) && s.used <= r.s.used
  {
    hide *;
    Consts();
    AlignedRequest(addr, size, v, n);
    AlignedSlots(addr, size, v, n);
    ResidentInPlace(s, sp);
    InPlaceParts(s, sp);
    FilledNext(s.used, k);
    FilledBelow(s.used, k);
    AllocStepIs(s, sp, addr, size, NBITS);
    TableStepIs(s, sp, v / 1024, NBITS);
    FrameWritable(s, sp.dir, k);
    ZeroNotRefused(s, sp, v, k);
    AddTableFields(sp, v / 1024, k);
    var t := TableStep(s, sp, v / 1024, NBITS);
    FreshPages(t.s, t.sp, v, n, k + 1);
    Mapped1Is(sp, v, n, k);
    ZeroTable(s, sp, addr, size, k);
    CallExactIff(s, sp, addr, size, NBITS);
    AllocMeaning(s, sp, addr, size, NBITS);
    MeansSame(s, sp, addr, size, NBITS, AllocStep(s, sp, addr, size, NBITS));
  }

  lemma AlignedSlots(addr: nat, size: nat, v: nat, n: nat)
    requires Aligned(addr, size, v, n)
    ensures v / 1024 < 1024 && 1 <= n <= 2 && (n == 2 ==> (v + 1) / 1024 == v / 1024)
  {
  }

  lemma MeansSame(s: Snap, sp: Space, addr: nat, size: nat, nbits: int, r: Mapping)
    requires AllocMeans(s, sp, addr, size, nbits, r)
    ensures SameOutside(s.m, r.s.m, Structure(r.sp)) && s.used <= r.s.used
  {
    hide SameOutside, Written, Refused, FreeFrames, FramesNeeded, Cleared, Copied, Owned, Structure;
  }

  lemma ZeroNotRefused(s: Snap, sp: Space, v: nat, k: nat)
    requires ZeroFrom(s.m, k) && k < PAGES && NextFrame(s.used, NBITS) == k && v / 1024 !in sp.tables
    ensures !Refused(s, sp, v, NBITS)
  {
    hide NextFrame;
    assert ZeroFrame(s.m, k) && Entry(s.m, k, v % 1024) == 0;
  }

  lemma ZeroTable(s: Snap, sp: Space, addr: nat, size: nat, k: nat)
    requires ZeroFrom(s.m, k) && k < PAGES && NextFrame(s.used, NBITS) == k
    ensures TableBelow(s, sp, addr, size, NBITS, 1)
  {
    hide NextFrame, Written;
    assert ZeroFrame(s.m, k);
  }

  lemma Mapped1Is(sp: Space, v: nat, n: nat, k: nat)
    ensures n == 2 ==> Mapped1(sp, v, n, k) == AddPage(AddPage(AddTable(sp, v / 1024, k), v, k + 1), v + 1, k + 2)
    ensures n == 1 ==> Mapped1(sp, v, n, k) == AddPage(AddTable(sp, v / 1024, k), v, k + 1)
  {
  }

  // ---------------------------------------------------------------- the two processes

  const OTHER: Space := Space(0x601, map[256 := 0x602], map[0x40000 := 0x603, 0x40001 := 0x604])
  const PARENT: Space := Space(0x605, map[256 := 0x606, 257 := 0x608], map[0x40000 := 0x607, 0x40400 := 0x609])

  lemma TwoSpaces()
    ensures Mapped1(EmptySpace(0x601), 0x40000, 2, 0x602) == OTHER
    ensures Mapped1(Mapped1(EmptySpace(0x605), 0x40000, 1, 0x606), 0x40400, 1, 0x608) == PARENT
    ensures OTHER.dir == 0x601 && PARENT.dir == 0x605 && OTHER.pages[0x40001] == 0x604 && PARENT.pages[0x40000] == 0x607
    ensures Owned(OTHER) == {0x601, 0x602, 0x603, 0x604} && Structure(OTHER) == {0x601, 0x602}
    ensures Owned(PARENT) == {0x605, 0x606, 0x607, 0x608, 0x609} && Structure(PARENT) == {0x605, 0x606, 0x608}
  {
    assert OTHER.tables.Values == {0x602} by { assert OTHER.tables[256] == 0x602; }
    assert OTHER.pages.Values == {0x603, 0x604} by {
      assert OTHER.pages[0x40000] == 0x603 && OTHER.pages[0x40001] == 0x604;
    }
    assert PARENT.tables.Values == {0x606, 0x608} by {
      assert PARENT.tables[256] == 0x606 && PARENT.tables[257] == 0x608;
    }
    assert PARENT.pages.Values == {0x607, 0x609} by {
      assert PARENT.pages[0x40000] == 0x607 && PARENT.pages[0x40400] == 0x609;
    }
  }

  lemma HalfParent()
    ensures Mapped1(EmptySpace(0x605), 0x40000, 1, 0x606) == Space(0x605, map[256 := 0x606], map[0x40000 := 0x607])
    ensures Structure(Space(0x605, map[256 := 0x606], map[0x40000 := 0x607])) == {0x605, 0x606}
  {
    var sp := Space(0x605, map[256 := 0x606], map[0x40000 := 0x607]);
    assert sp.tables.Values == {0x606} by { assert sp.tables[256] == 0x606; }
  }

  /** A new process on a fresh machine. */
  method FreshProcess(mc: Machine, ghost k: nat) returns (pd: nat)
    requires mc.Valid() && mc.bits.nbits == NBITS && Filled(mc.Now().used, k) && ZeroFrom(mc.Now().m, k)
    requires FIRST_FREE <= k && k + 1 < NBITS
    modifies mc.ram, mc.bits.base
    ensures mc.Valid() && pd == k * 4096 && Resident(mc.Now(), EmptySpace(k))
    ensures Filled(mc.Now().used, k + 1) && ZeroFrom(mc.Now().m, k + 1)
    ensures SameOutside(old(mc.Now()).m, mc.Now().m, {k}) && old(mc.Now()).used <= mc.Now().used
  {
    hide *;
    Consts();
    ghost var s := mc.Now();
    mc.ValidFacts();
    FilledNext(s.used, k);
    CreateMeaning(s, NBITS);
    pd := mc.CreatePde();
    CreatedParts(s, mc.Now(), k);
    ZeroKept(s.m, mc.Now().m, {k}, k, k + 1);
  }

  /** It maps `n` pages that need a new table. */
  method FreshPagesFor(mc: Machine, pd: nat, addr: nat, size: nat, ghost v: nat, ghost n: nat, ghost k: nat,
                       ghost sp: Space)
    returns (ghost sp': Space)
    requires mc.Valid() && mc.bits.nbits == NBITS && Filled(mc.Now().used, k) && ZeroFrom(mc.Now().m, k)
    requires FIRST_FREE <= k && k + n + 1 < NBITS && Aligned(addr, size, v, n) && v / 1024 !in sp.tables
    requires Resident(mc.Now(), sp) && pd == sp.dir * 4096
    requires forall f :: f in Structure(Mapped1(sp, v, n, k)) ==> f < k + n + 1
    modifies mc.ram, mc.bits.base
    ensures mc.Valid() && sp' == Mapped1(sp, v, n, k) && Resident(mc.Now(), sp')
    ensures Filled(mc.Now().used, k + n + 1) && ZeroFrom(mc.Now().m, k + n + 1)
    ensures SameOutside(old(mc.Now()).m, mc.Now().m, Structure(sp')) && old(mc.Now()).used <= mc.Now().used
  {
    hide *;
    ghost var s := mc.Now();
    FreshMap(s, sp, addr, size, v, n, k);
    ResidentInPlace(s, sp);
    mc.StillHas(sp);
    mc.ValidFacts();
    TargetOf(addr, size);
    InTableFits(s, sp, addr, size, NBITS);
    var err;
    err, sp' := mc.AllocVpages(pd, addr, size, sp);
    mc.HasParts(sp');
    ZeroKept(s.m, mc.Now().m, Structure(sp'), k, k + n + 1);
  }

  /** Boot on memory that reads as zero. */
  method ColdBoot(mc: Machine)
    requires mc.ram.Length == RAM_SIZE && mc.bits.base.Length == MAP_BYTES && mc.ram as object != mc.bits.base as object
    requires forall a {:trigger mc.ram[a]} :: 0 <= a < RAM_SIZE ==> mc.ram[a] == 0
    modifies mc.bits, mc.bits.base
    ensures mc.Valid() && mc.bits.nbits == NBITS
    ensures Filled(mc.Now().used, FIRST_FREE) && ZeroFrom(mc.Now().m, FIRST_FREE)
  {
    ghost var m := mc.Now().m;
    ZeroMemory(m);
    LayoutScanned();
    BootMemory(mc, LAYOUT, 2);
    LayoutFilled(mc.Now().used);
  }

  /** A first process with two pages, and a second one with two tables. */
  method TwoProcesses(mc: Machine) returns (pa: nat, pb: nat)
    requires mc.ram.Length == RAM_SIZE && mc.bits.base.Length == MAP_BYTES && mc.ram as object != mc.bits.base as object
    requires forall a {:trigger mc.ram[a]} :: 0 <= a < RAM_SIZE ==> mc.ram[a] == 0
    modifies mc.ram, mc.bits, mc.bits.base
    ensures mc.Valid() && mc.bits.nbits == NBITS && pa == OTHER.dir * 4096 && pb == PARENT.dir * 4096
    ensures Resident(mc.Now(), OTHER) && Resident(mc.Now(), PARENT) && Filled(mc.Now().used, 0x60A)
  {
    hide *;
    Consts();
    TwoSpaces();
    HalfParent();
    NoTables(0x601);
    NoTables(0x605);
    ColdBoot(mc);
    pa := FreshProcess(mc, 0x601);
    RequestsFit();
    ghost var sp := FreshPagesFor(mc, pa, 0x4000_0000, 0x2000, 0x40000, 2, 0x602, EmptySpace(0x601));
    ghost var s1 := mc.Now();
    pb := FreshProcess(mc, 0x605);
    ghost var s2 := mc.Now();
    ResidentKept(s1, s2, OTHER, {0x605});
    sp := FreshPagesFor(mc, pb, 0x4000_0000, 0x1000, 0x40000, 1, 0x606, EmptySpace(0x605));
    ghost var s3 := mc.Now();
    ResidentKept(s2, s3, OTHER, {0x605, 0x606});
    sp := FreshPagesFor(mc, pb, 0x4040_0000, 0x1000, 0x40400, 1, 0x608, sp);
    ResidentKept(s3, mc.Now(), OTHER, {0x605, 0x606, 0x608});
  }

  lemma NoTables(f: nat)
    ensures EmptySpace(f).dir == f && EmptySpace(f).tables == map[]
  {
  }

  lemma RequestsFit()
    ensures Aligned(0x4000_0000, 0x2000, 0x40000, 2) && Aligned(0x4000_0000, 0x1000, 0x40000, 1)
    ensures Aligned(0x4040_0000, 0x1000, 0x40400, 1)
    ensures 0x40000 / 1024 == 256 && 0x40400 / 1024 == 257
  {
  }

  // ---------------------------------------------------------------- what the first one leaves

  const BUFFER: nat := 0x10_0000

  /** An odd word that leads to the first page of the second process. */
  const WORD: int := 0x60_7001

  /** The kernel puts the word into its buffer. */
  method FillBuffer(mc: Machine)
    requires mc.Valid()
    modifies mc.ram
    ensures mc.Valid() && mc.Now().used == old(mc.Now()).used && SameOutside(old(mc.Now()).m, mc.Now().m, {0x100})
    ensures forall k: nat :: k < 4 ==> mc.Now().m[BUFFER + k] == ByteOf(WORD, k)
  {
    ghost var m := mc.Now().m;
    mc.StoreByte(BUFFER, 0x01);
    mc.StoreByte(BUFFER + 1, 0x70);
    mc.StoreByte(BUFFER + 2, 0x60);
    mc.StoreByte(BUFFER + 3, 0x00);
    forall f: nat | f < PAGES && f !in {0x100} ensures SameFrame(m, mc.Now().m, f) {
      assert (f + 1) * 4096 <= BUFFER || BUFFER + 4 <= f * 4096;
    }
  }

  lemma BufferFacts()
    ensures BUFFER == 0x10_0000 && BUFFER + 4 <= RAM_SIZE && {0x100} !! Structure(OTHER) && {0x100} !! Structure(PARENT)
    ensures {0x604} !! Structure(OTHER) && {0x604} !! Structure(PARENT)
  {
    TwoSpaces();
  }

  /** The word lies in the second page of the first process. */
  ghost predicate DataLeft(m: seq<Byte>) {
    |m| == RAM_SIZE && Entry(m, 0x604, 1) == WORD
  }

  /** The first process receives the word at its address 0x40001004. */
  method LeaveData(mc: Machine, pa: nat)
    requires mc.Valid() && pa == OTHER.dir * 4096 && Resident(mc.Now(), OTHER) && Resident(mc.Now(), PARENT)
    modifies mc.ram
    ensures mc.Valid() && mc.Now().used == old(mc.Now()).used
    ensures Resident(mc.Now(), OTHER) && Resident(mc.Now(), PARENT) && DataLeft(mc.Now().m)
  {
    hide *;
    BufferFacts();
    Consts();
    ghost var s := mc.Now();
    FillBuffer(mc);
    ghost var s1 := mc.Now();
    ResidentKept(s, s1, OTHER, {0x100});
    ResidentKept(s, s1, PARENT, {0x100});
    ResidentInPlace(s1, OTHER);
    mc.StillHas(OTHER);
    AlwaysPlain(s1, OTHER, 0x4000_1004, 4);
    var err := CopyToUserN(mc, pa, 0x4000_1004, BUFFER, 4, OTHER);
    mc.HasParts(OTHER);
    InPlaceParts(s1, OTHER);
    WordLands(s1.m, mc.Now().m);
    ResidentKept(s1, mc.Now(), OTHER, {0x604});
    ResidentKept(s1, mc.Now(), PARENT, {0x604});
  }

  lemma WordLands(m: seq<Byte>, m': seq<Byte>)
    requires Leads(m, OTHER) && Separate(OTHER) && |m| == RAM_SIZE && m' == LandTo(m, OTHER, 0x4000_1004, BUFFER, 4)
    requires forall k: nat :: k < 4 ==> m[BUFFER + k] == ByteOf(WORD, k)
    ensures SameOutside(m, m', {0x604}) && DataLeft(m')
  {
    hide *;
    TwoSpaces();
    Consts();
    BufferClear();
    LandsInPage(0);
    LandsInPage(1);
    LandsInPage(2);
    LandsInPage(3);
    LandToByte(m, OTHER, 0x4000_1004, BUFFER, 4, 0);
    LandToByte(m, OTHER, 0x4000_1004, BUFFER, 4, 1);
    LandToByte(m, OTHER, 0x4000_1004, BUFFER, 4, 2);
    LandToByte(m, OTHER, 0x4000_1004, BUFFER, 4, 3);
    forall x: nat | x < RAM_SIZE && x / 4096 != 0x604 ensures m'[x] == m[x] {
      forall a: nat {:trigger Landing(OTHER, 0x4000_1004, a)} | 0x4000_1004 <= a < 0x4000_1004 + 4
        ensures Landing(OTHER, 0x4000_1004, a) != x
      {
        LandsInPage(a - 0x4000_1004);
      }
      LandToElsewhere(m, OTHER, 0x4000_1004, BUFFER, 4, x);
    }
    OnlyThere(m, m', 0x604);
    WordOf(m');
  }

  lemma OnlyThere(m: seq<Byte>, m': seq<Byte>, f: nat)
    requires |m| == RAM_SIZE && |m'| == RAM_SIZE && forall x: nat :: x < RAM_SIZE && x / 4096 != f ==> m'[x] == m[x]
    ensures SameOutside(m, m', {f})
  {
    forall g: nat | g < PAGES && g !in {f} ensures SameFrame(m, m', g) {
      forall x | g * 4096 <= x < (g + 1) * 4096 && 0 <= x < RAM_SIZE ensures m'[x] == m[x] {
        assert x / 4096 == g;
      }
    }
  }

  lemma LandsInPage(k: nat)
    requires k < 4
    ensures Landing(OTHER, 0x4000_1004, 0x4000_1004 + k) == 0x604 * 4096 + 4 + k
    ensures (0x604 * 4096 + 4 + k) / 4096 == 0x604
  {
    assert (0x4000_1004 + k) / 4096 == 0x40001 && (0x4000_1004 + k) % 4096 == 4 + k;
    assert OTHER.pages[0x40001] == 0x604;
  }

  lemma BufferClear()
    ensures BufferOutside(BUFFER, 4, LandFrames(OTHER, 0x4000_1004)) && BUFFER + 4 <= RAM_SIZE
  {
    TwoSpaces();
    assert OnPage(OTHER, 0x4000_1004);
    assert LandFrames(OTHER, 0x4000_1004) == OTHER.pages.Values;
    forall f | f in OTHER.pages.Values ensures f == 0x603 || f == 0x604 {
      var u :| u in OTHER.pages && OTHER.pages[u] == f;
    }
  }

  lemma WordOf(m: seq<Byte>)
    requires |m| == RAM_SIZE && forall k: nat :: k < 4 ==> m[0x604 * 4096 + 4 + k] == ByteOf(WORD, k)
    ensures DataLeft(m)
  {
    WordBytes(WORD);
    assert m[0x604 * 4096 + 4 + 0] == ByteOf(WORD, 0) && m[0x604 * 4096 + 4 + 1] == ByteOf(WORD, 1);
    assert m[0x604 * 4096 + 4 + 2] == ByteOf(WORD, 2) && m[0x604 * 4096 + 4 + 3] == ByteOf(WORD, 3);
  }

  // ---------------------------------------------------------------- exit, fork, exit

  lemma TakenTwo(used: set<nat>)
    requires NextFrame(used, NBITS) == 0x602 && NextFrame(used + {0x602}, NBITS) == 0x603
    ensures Taken(used, NBITS, 2) == used + {0x602} + {0x603}
  {
    hide NextFrame;
    assert Taken(used, NBITS, 0) == used;
    assert Taken(used, NBITS, 1) == used + {0x602};
  }

  lemma ParentRank(seen: set<nat>)
    requires seen == {0x40000, 0x40400}
    ensures Rank(PARENT, seen, 257) == 2 && |PARENT.tables| == 2 && |seen| == 2
  {
    assert (set k | k in PARENT.tables && k < 257) == {256} by { assert 256 in PARENT.tables; }
    assert (set u | u in seen && u < 1024 * 257) == {0x40000};
  }

  lemma ParentPages()
    ensures PARENT.pages.Keys == {0x40000, 0x40400} && PARENT.tables.Keys == {256, 257}
    ensures 0x40401 / 1024 == 257 && 0x40401 % 1024 == 1 && 0x40401 * 4096 == 0x4040_1000
  {
  }

  /** Once the first process is gone the fork of the second takes frame 0x601 for the directory, the
      next two for a table and a page, and the first one's second page for the other table. */
  lemma Frames4(s: Snap)
    requires Filled(s.used, 0x60A) && SeenPages(s.m, PARENT) == {0x40000, 0x40400}
    ensures var free := s.used - Owned(OTHER);
      && NextFrame(free, NBITS) == 0x601 && PickedFrame(Snap(s.m, free + {0x601}), PARENT, NBITS, 257) == 0x604
      && 5 <= |FreeFrames(free, NBITS)|
  {
    hide *;
    Consts();
    TwoSpaces();
    var free := s.used - Owned(OTHER);
    FreedThen(s.used);
    TakenTwo(free + {0x601});
    ParentRank(SeenPages(s.m, PARENT));
    PickedIs(Snap(s.m, free + {0x601}), 257);
  }

  lemma PickedIs(s: Snap, i: nat)
    requires Rank(PARENT, SeenPages(s.m, PARENT), i) == 2
    ensures PickedFrame(s, PARENT, NBITS, i) == NextFrame(Taken(s.used, NBITS, 2), NBITS)
  {
    hide NextFrame, Rank;
  }

  lemma FreedThen(used: set<nat>)
    requires Filled(used, 0x60A)
    ensures var free := used - {0x601, 0x602, 0x603, 0x604}; var u := free + {0x601};
      && NextFrame(free, NBITS) == 0x601 && NextFrame(u, NBITS) == 0x602 && NextFrame(u + {0x602}, NBITS) == 0x603
      && NextFrame(u + {0x602} + {0x603}, NBITS) == 0x604 && 5 <= |FreeFrames(free, NBITS)|
  {
    hide NextFrame;
    var free := used - {0x601, 0x602, 0x603, 0x604};
    NextIs(free, 0x601);
    NextIs(free + {0x601}, 0x602);
    NextIs(free + {0x601} + {0x602}, 0x603);
    NextIs(free + {0x601} + {0x602} + {0x603}, 0x604);
    var five := {0x601, 0x602, 0x603, 0x604, 0x60A};
    assert five <= FreeFrames(free, NBITS);
    SubsetCount(five, FreeFrames(free, NBITS));
    assert |five| == 5;
  }

  lemma DataAsTableNow(s: Snap)
    requires Filled(s.used, 0x60A) && Resident(s, PARENT) && DataLeft(s.m)
    ensures DataAsTable(s, OTHER, PARENT, 0x40001, 0x40401, NBITS)
  {
    TwoSpaces();
    ParentPages();
    ResidentSeen(s, PARENT);
    Frames4(s);
    GapNow(s);
    ParentRank(SeenPages(s.m, PARENT));
    hide Resident, Owned, Structure, NextFrame, PickedFrame, FreeFrames, SeenPages, Gap, Reaches, Filled, Entry;
  }

  lemma GapNow(s: Snap)
    requires Resident(s, PARENT)
    ensures Gap(s.m, PARENT, 0x40401) && !Reaches(s.m, PARENT, 0x40401)
  {
    ParentPages();
    assert 257 in PARENT.tables.Keys && 0x40401 !in PARENT.pages.Keys;
    assert PageOk(s.m, PARENT, 0x40401);
  }

  /** The child maps page 0x40401, which its parent does not. When the child exits, the frame of
      the parent's own first page is freed, while the parent still maps it. */
  method ForkAfterBoot(mc: Machine) returns (ghost mid: seq<Byte>, ghost csp: Space)
    requires mc.ram.Length == RAM_SIZE && mc.bits.base.Length == MAP_BYTES && mc.ram as object != mc.bits.base as object
    requires forall a {:trigger mc.ram[a]} :: 0 <= a < RAM_SIZE ==> mc.ram[a] == 0
    modifies mc.ram, mc.bits, mc.bits.base
    ensures StrayPage(mid, PARENT, csp, 0x4040_1000)
    ensures InMemory(mc.Now().m, PARENT) && PARENT.pages[0x40000] == 0x607 && 0x607 !in mc.Now().used
  {
    hide *;
    Consts();
    TwoSpaces();
    ParentPages();
    var pa, pb := TwoProcesses(mc);
    LeaveData(mc, pa);
    ghost var s := mc.Now();
    DataAsTableNow(s);
    DataWord(s.m);
    ResidentInPlace(s, PARENT);
    mc.StillHas(PARENT);
    ghost var s2; var pde;
    s2, pde, csp := ForkAfterExit(mc, pa, pb, OTHER, PARENT, 0x40001, 0x40401);
    ghost var s3 := mc.Now();
    mid := s3.m;
    RecycledStale(s2, PARENT, s3, csp, NBITS);
    LeadsToParent(s2);
    ClonedSpaces(s2, PARENT, s3, csp);
    DestroyPde(mc, pde, csp);
    StructureOwned(csp);
    InMemorySame(s3.m, mc.Now().m, PARENT, Structure(csp));
  }

  lemma DataWord(m: seq<Byte>)
    requires DataLeft(m)
    ensures |m| == RAM_SIZE && Entry(m, 0x604, 1) == WORD
  {
  }

  lemma LeadsToParent(s: Snap)
    requires Gap(s.m, PARENT, 0x40401) && RecycledWord(s, PARENT, NBITS, 0x40401) == WORD
    ensures 0x607 in RecycledFrames(s, PARENT, NBITS)
  {
    hide Gap, RecycledWord;
    assert OddGap(s, PARENT, NBITS, 0x40401);
  }
}
