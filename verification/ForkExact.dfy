/** When a forked child maps exactly what its parent maps: page tables are not cleared, so it
    depends on what the frames recycled for them held. */
module ForkExact {
  import opened PhysMem
  import opened Bitmap
  import opened Paging
  import opened Spaces
  import opened Frames
  import opened MapSteps
  import opened Recycled
  import opened Growth
  import opened AddressSpace
  import opened Teardown
  import opened Fork

  /** The frame that first fit picks for the child's table of slot `i`. */
  ghost function PickedFrame(s: Snap, psp: Space, nbits: int, i: nat): int {
    TableFrame(s.used, nbits, psp, SeenPages(s.m, psp), i)
  }

  /** What that frame holds at the entry of page `v`. */
  ghost function RecycledWord(s: Snap, psp: Space, nbits: int, v: nat): (w: int)
    ensures 0 <= w < RAM_SIZE
  {
    var t := PickedFrame(s, psp, nbits, v / 1024);
    if |s.m| == RAM_SIZE && 0 <= t < PAGES then Entry(s.m, t, v % 1024) else 0
  }

  /** The parent has a table for page `v`, and no present entry in it. */
  ghost predicate Gap(m: seq<Byte>, psp: Space, v: nat) {
    v / 1024 in psp.tables && !HasPage(m, psp, v)
  }

  /** The frames picked for the child's tables are below `bound` wherever the parent has a gap. */
  ghost predicate RecycledBelow(s: Snap, psp: Space, nbits: int, bound: int) {
    forall v: nat {:trigger RecycledWord(s, psp, nbits, v)} :: Gap(s.m, psp, v) ==>
      RecycledWord(s, psp, nbits, v) < bound
  }

  /** The parent has a gap at page `v`, and the recycled word there is present. */
  ghost predicate OddGap(s: Snap, psp: Space, nbits: int, v: nat) {
    Gap(s.m, psp, v) && Present(RecycledWord(s, psp, nbits, v))
  }

  /** The frames that those words lead to. */
  ghost function RecycledFrames(s: Snap, psp: Space, nbits: int): set<nat> {
    set v: nat | v < 1024 * 1024 && OddGap(s, psp, nbits, v) :: RecycledWord(s, psp, nbits, v) / 4096
  }

  lemma RecycledIsStale(s0: Snap, psp: Space, s: Snap, csp: Space, nbits: int, v: nat)
    requires Cloned(s0, psp, s, csp) && InOrder(s0.used, psp, SeenPages(s0.m, psp), csp, nbits)
    ensures |s0.m| == RAM_SIZE && |s.m| == RAM_SIZE && Shaped(csp)
    ensures v / 1024 in csp.tables <==> v / 1024 in psp.tables
    ensures Gap(s0.m, psp, v) <==> v / 1024 in csp.tables && v !in csp.pages
    ensures v / 1024 in csp.tables ==> RecycledWord(s0, psp, nbits, v) == PageWord(s0.m, csp, v)
    ensures Gap(s0.m, psp, v) ==> PageWord(s.m, csp, v) == PageWord(s0.m, csp, v)
  {
    hide *;
    ClonedParts(s0, psp, s, csp);
    ClonedSpaces(s0, psp, s, csp);
    SeenIff(s0.m, psp, v);
    assert v / 1024 in csp.tables.Keys <==> v / 1024 in psp.tables.Keys;
    assert v in csp.pages.Keys <==> v in SeenPages(s0.m, psp);
    SeenHasTable(s0.m, psp, v);
    StaleWordIs(s0.m, s.m, csp, v);
    if v / 1024 in csp.tables {
      TableIsPicked(s0, psp, csp, nbits, v);
      RecycledIs(s0, psp, nbits, v);
    }
  }

  lemma StaleWordIs(m0: seq<Byte>, m: seq<Byte>, sp: Space, v: nat)
    requires Carries(m0, m, sp)
    ensures |m0| == RAM_SIZE && |m| == RAM_SIZE && Shaped(sp)
    ensures v / 1024 in sp.tables && v !in sp.pages ==> PageWord(m, sp, v) == PageWord(m0, sp, v)
  {
    assert v / 1024 in sp.tables && v !in sp.pages ==> PageWord(m, sp, v) == PageWord(m0, sp, v);
  }

  lemma TableIsPicked(s0: Snap, psp: Space, csp: Space, nbits: int, v: nat)
    requires InOrder(s0.used, psp, SeenPages(s0.m, psp), csp, nbits) && Shaped(csp) && v / 1024 in csp.tables
    requires |s0.m| == RAM_SIZE
    ensures 1 <= PickedFrame(s0, psp, nbits, v / 1024) < PAGES
    ensures Entry(s0.m, PickedFrame(s0, psp, nbits, v / 1024), v % 1024) == PageWord(s0.m, csp, v)
  {
    hide TableFrame, SeenPages;
    assert csp.tables[v / 1024] == PickedFrame(s0, psp, nbits, v / 1024);
  }

  lemma RecycledBelowIff(s0: Snap, psp: Space, s: Snap, csp: Space, nbits: int, bound: int)
    requires Cloned(s0, psp, s, csp) && InOrder(s0.used, psp, SeenPages(s0.m, psp), csp, nbits)
    ensures |s0.m| == RAM_SIZE && Shaped(csp)
    ensures StaleBelow(s0.m, csp, bound) <==> RecycledBelow(s0, psp, nbits, bound)
  {
    ClonedSpaces(s0, psp, s, csp);
    hide Cloned, InOrder, RecycledWord, Shaped, Carries, Leads, InMemory, InPlace, Gap;
    if StaleBelow(s0.m, csp, bound) {
      forall v: nat | Gap(s0.m, psp, v) ensures RecycledWord(s0, psp, nbits, v) < bound {
        RecycledIsStale(s0, psp, s, csp, nbits, v);
      }
    }
    if RecycledBelow(s0, psp, nbits, bound) {
      forall v: nat | v / 1024 in csp.tables && v !in csp.pages ensures PageWord(s0.m, csp, v) < bound {
        RecycledIsStale(s0, psp, s, csp, nbits, v);
      }
    }
  }

  /** The stale entries of the child lead to those frames. */
  lemma RecycledStale(s0: Snap, psp: Space, s: Snap, csp: Space, nbits: int)
    requires Cloned(s0, psp, s, csp) && InOrder(s0.used, psp, SeenPages(s0.m, psp), csp, nbits)
    ensures StaleFrames(s.m, csp) == RecycledFrames(s0, psp, nbits)
  {
    hide *;
    forall v: nat
      ensures Stale(s.m, csp, v) <==> OddGap(s0, psp, nbits, v)
      ensures Stale(s.m, csp, v) ==> Source(s.m, csp, v) == RecycledWord(s0, psp, nbits, v) / 4096
    {
      StaleIsOddGap(s0, psp, s, csp, nbits, v);
    }
    SameFrames(s0, psp, s, csp, nbits);
  }

  lemma StaleIsOddGap(s0: Snap, psp: Space, s: Snap, csp: Space, nbits: int, v: nat)
    requires Cloned(s0, psp, s, csp) && InOrder(s0.used, psp, SeenPages(s0.m, psp), csp, nbits)
    ensures Stale(s.m, csp, v) <==> OddGap(s0, psp, nbits, v)
    ensures Stale(s.m, csp, v) ==> Source(s.m, csp, v) == RecycledWord(s0, psp, nbits, v) / 4096
  {
    ClonedSpaces(s0, psp, s, csp);
    hide Cloned, InOrder, RecycledWord, Shaped, Carries, Leads, InMemory, InPlace, Gap;
    RecycledIsStale(s0, psp, s, csp, nbits, v);
  }

  lemma SameFrames(s0: Snap, psp: Space, s: Snap, csp: Space, nbits: int)
    requires forall v: nat :: Stale(s.m, csp, v) <==> OddGap(s0, psp, nbits, v)
    requires forall v: nat :: Stale(s.m, csp, v) ==> Source(s.m, csp, v) == RecycledWord(s0, psp, nbits, v) / 4096
    ensures StaleFrames(s.m, csp) == RecycledFrames(s0, psp, nbits)
  {
    hide Stale, OddGap, Source, RecycledWord;
  }

  /** Both page walks translate the same user addresses past page zero. */
  ghost predicate SameMapped(m: seq<Byte>, dir: nat, m': seq<Byte>, dir': nat)
    requires |m| == RAM_SIZE && |m'| == RAM_SIZE && dir < PAGES && dir' < PAGES
  {
    forall a {:trigger Mapped(m, dir, a)} {:trigger Mapped(m', dir', a)} :: USER_MEMORY_BEGIN <= a < RAM_SIZE ==>
      (Mapped(m, dir, a) <==> Mapped(m', dir', a))
  }

  /** The word that the walk reads for page `v` leads past page zero. */
  ghost predicate Reaches(m: seq<Byte>, sp: Space, v: nat) {
    |m| == RAM_SIZE && Shaped(sp) && v / 1024 in sp.tables && PageWord(m, sp, v) >= PAGE_SIZE
  }

  /** One address: the parent maps it exactly when its word leads past page zero, the child when
      the parent's entry is present or the recycled word leads there. */
  lemma ChildMaps(s0: Snap, psp: Space, s: Snap, csp: Space, nbits: int, a: int)
    requires Cloned(s0, psp, s, csp) && InOrder(s0.used, psp, SeenPages(s0.m, psp), csp, nbits)
    requires USER_MEMORY_BEGIN <= a < RAM_SIZE
    ensures |s0.m| == RAM_SIZE && |s.m| == RAM_SIZE && psp.dir < PAGES && csp.dir < PAGES
    ensures var v := a / PAGE_SIZE;
      && (Mapped(s0.m, psp.dir, a) <==> Reaches(s0.m, psp, v))
      && (Mapped(s.m, csp.dir, a) <==>
            HasPage(s0.m, psp, v) || (Gap(s0.m, psp, v) && RecycledWord(s0, psp, nbits, v) >= PAGE_SIZE))
  {
    ClonedSpaces(s0, psp, s, csp);
    ClonedParts(s0, psp, s, csp);
    hide *;
    var v := a / PAGE_SIZE;
    PageNumber(a);
    MappedReaches(s0.m, psp, a);
    CarriesMapped(s0.m, s.m, csp, a);
    RecycledIsStale(s0, psp, s, csp, nbits, v);
    SeenIff(s0.m, psp, v);
    assert v in csp.pages.Keys <==> v in SeenPages(s0.m, psp);
    SeenHasTable(s0.m, psp, v);
  }

  lemma PageNumber(a: int)
    requires USER_MEMORY_BEGIN <= a
    ensures PAGE_SIZE == 4096 && 0 <= a && 0 <= a / 4096
  {
  }

  lemma SeenHasTable(m: seq<Byte>, sp: Space, v: nat)
    ensures HasPage(m, sp, v) ==> v / 1024 in sp.tables && !Gap(m, sp, v)
    ensures Gap(m, sp, v) ==> v / 1024 in sp.tables
    ensures v / 1024 in sp.tables ==> HasPage(m, sp, v) || Gap(m, sp, v)
  {
  }

  lemma MappedReaches(m: seq<Byte>, sp: Space, a: int)
    requires InMemory(m, sp) && USER_MEMORY_BEGIN <= a < RAM_SIZE
    ensures Mapped(m, sp.dir, a) <==> Reaches(m, sp, a / PAGE_SIZE)
  {
    hide Walk;
    WalkElsewhere(m, sp, a);
  }

  /** The parent's word for page `v` leads past page zero exactly when its entry is present or the
      recycled word leads there. */
  ghost predicate ReachAlike(s: Snap, psp: Space, nbits: int, v: nat) {
    Reaches(s.m, psp, v) <==> HasPage(s.m, psp, v) || RecycledWord(s, psp, nbits, v) >= PAGE_SIZE
  }

  /** So it is wherever the parent has a table. */
  ghost predicate SameReach(s: Snap, psp: Space, nbits: int) {
    forall v: nat {:trigger ReachAlike(s, psp, nbits, v)} :: v / 1024 in psp.tables ==> ReachAlike(s, psp, nbits, v)
  }

  /** The child is an exact copy if and only if the recycled frames are zero wherever the parent
      has no present entry. By the page walk it maps exactly the parent's addresses if and only
      if the two words reach alike everywhere; when memory holds exactly the parent's space,
      that is if and only if the recycled ones are below 4096. */
  lemma CloneExactIff(s0: Snap, psp: Space, s: Snap, csp: Space, nbits: int)
    requires Cloned(s0, psp, s, csp) && InOrder(s0.used, psp, SeenPages(s0.m, psp), csp, nbits)
    ensures |s0.m| == RAM_SIZE && |s.m| == RAM_SIZE && psp.dir < PAGES && csp.dir < PAGES
    ensures Resident(s, csp) <==> RecycledBelow(s0, psp, nbits, 1)
    ensures SameMapped(s.m, csp.dir, s0.m, psp.dir) <==> SameReach(s0, psp, nbits)
    ensures Resident(s0, psp) ==>
      (SameMapped(s.m, csp.dir, s0.m, psp.dir) <==> RecycledBelow(s0, psp, nbits, PAGE_SIZE))
  {
    hide *;
    ClonedParts(s0, psp, s, csp);
    ClonedSpaces(s0, psp, s, csp);
    RecycledBelowIff(s0, psp, s, csp, nbits, 1);
    CopiedResidentIff(s0.m, s, csp);
    SameMappedIff(s0, psp, s, csp, nbits);
    if Resident(s0, psp) { ReachWhenResident(s0, psp, nbits); }
  }

  lemma SameMappedIff(s0: Snap, psp: Space, s: Snap, csp: Space, nbits: int)
    requires Cloned(s0, psp, s, csp) && InOrder(s0.used, psp, SeenPages(s0.m, psp), csp, nbits)
    ensures |s0.m| == RAM_SIZE && |s.m| == RAM_SIZE && psp.dir < PAGES && csp.dir < PAGES
    ensures SameMapped(s.m, csp.dir, s0.m, psp.dir) <==> SameReach(s0, psp, nbits)
  {
    hide *;
    ClonedSpaces(s0, psp, s, csp);
    if SameMapped(s.m, csp.dir, s0.m, psp.dir) {
      forall v: nat | v / 1024 in psp.tables
        ensures ReachAlike(s0, psp, nbits, v)
      {
        PageAddress(psp, v);
        ChildMaps(s0, psp, s, csp, nbits, v * 4096);
        SameMappedAt(s.m, csp.dir, s0.m, psp.dir, v * 4096);
        AlikeIs(s0, psp, nbits, v);
      }
      SameReachFrom(s0, psp, nbits);
    }
    if SameReach(s0, psp, nbits) {
      PageNumber(USER_MEMORY_BEGIN);
      forall a | USER_MEMORY_BEGIN <= a < RAM_SIZE ensures Mapped(s.m, csp.dir, a) <==> Mapped(s0.m, psp.dir, a) {
        PageNumber(a);
        ChildMaps(s0, psp, s, csp, nbits, a);
        SeenHasTable(s0.m, psp, a / PAGE_SIZE);
        ReachHasTable(s0.m, psp, a / PAGE_SIZE);
        SameReachAt(s0, psp, nbits, a / PAGE_SIZE);
        AlikeIs(s0, psp, nbits, a / PAGE_SIZE);
      }
      SameMappedFrom(s.m, csp.dir, s0.m, psp.dir);
    }
  }

  lemma SameMappedAt(m: seq<Byte>, dir: nat, m': seq<Byte>, dir': nat, a: int)
    requires |m| == RAM_SIZE && |m'| == RAM_SIZE && dir < PAGES && dir' < PAGES && USER_MEMORY_BEGIN <= a < RAM_SIZE
    requires SameMapped(m, dir, m', dir')
    ensures Mapped(m, dir, a) <==> Mapped(m', dir', a)
  {
    hide Mapped;
  }

  lemma SameMappedFrom(m: seq<Byte>, dir: nat, m': seq<Byte>, dir': nat)
    requires |m| == RAM_SIZE && |m'| == RAM_SIZE && dir < PAGES && dir' < PAGES
    requires forall a :: USER_MEMORY_BEGIN <= a < RAM_SIZE ==> (Mapped(m, dir, a) <==> Mapped(m', dir', a))
    ensures SameMapped(m, dir, m', dir')
  {
    hide Mapped;
  }

  lemma AlikeIs(s: Snap, psp: Space, nbits: int, v: nat)
    ensures ReachAlike(s, psp, nbits, v) <==>
      (Reaches(s.m, psp, v) <==> HasPage(s.m, psp, v) || RecycledWord(s, psp, nbits, v) >= PAGE_SIZE)
    ensures HasPage(s.m, psp, v) || Gap(s.m, psp, v) || v / 1024 !in psp.tables
  {
  }

  lemma SameReachAt(s: Snap, psp: Space, nbits: int, v: nat)
    requires SameReach(s, psp, nbits)
    ensures v / 1024 in psp.tables ==> ReachAlike(s, psp, nbits, v)
  {
    hide ReachAlike;
  }

  lemma SameReachFrom(s: Snap, psp: Space, nbits: int)
    requires forall v: nat :: v / 1024 in psp.tables ==> ReachAlike(s, psp, nbits, v)
    ensures SameReach(s, psp, nbits)
  {
    hide ReachAlike;
  }

  lemma ReachHasTable(m: seq<Byte>, sp: Space, v: nat)
    ensures Reaches(m, sp, v) ==> v / 1024 in sp.tables
  {
  }

  lemma ReachWhenResident(s: Snap, psp: Space, nbits: int)
    requires Resident(s, psp)
    ensures SameReach(s, psp, nbits) <==> RecycledBelow(s, psp, nbits, PAGE_SIZE)
  {
    hide RecycledWord, Resident, HasPage, Reaches;
    forall v: nat | v / 1024 in psp.tables
      ensures ReachAlike(s, psp, nbits, v) <==> (Gap(s.m, psp, v) ==> RecycledWord(s, psp, nbits, v) < PAGE_SIZE)
    {
      ReachResident(s, psp, v);
    }
    if RecycledBelow(s, psp, nbits, PAGE_SIZE) {
      SameReachFrom(s, psp, nbits);
    }
    if SameReach(s, psp, nbits) {
      forall v: nat | Gap(s.m, psp, v) ensures RecycledWord(s, psp, nbits, v) < PAGE_SIZE {
        SameReachAt(s, psp, nbits, v);
      }
    }
  }

  lemma ReachResident(s: Snap, sp: Space, v: nat)
    requires Resident(s, sp) && v / 1024 in sp.tables
    ensures Reaches(s.m, sp, v) <==> HasPage(s.m, sp, v)
  {
    assert PageOk(s.m, sp, v);
    assert v in sp.pages ==> 1 <= sp.pages[v];
  }

  lemma PageAddress(sp: Space, v: nat)
    requires Shaped(sp) && v / 1024 in sp.tables
    ensures USER_MEMORY_BEGIN <= v * 4096 < RAM_SIZE && v * 4096 / PAGE_SIZE == v
  {
    assert sp.tables[v / 1024] == sp.tables[v / 1024];
  }

  // ---------------------------------------------------------------- frames that are not zero

  /** For every parent with a table that is not full, some content of a free frame makes the
      child map a page that the parent does not. */
  lemma StaleEntryPossible(s: Snap, psp: Space, nbits: int, v: nat, w: int)
    requires InPlace(s, psp) && Gap(s.m, psp, v) && PAGE_SIZE <= w < RAM_SIZE && 0 <= w
    requires 1 <= PickedFrame(s, psp, nbits, v / 1024) < PAGES && PickedFrame(s, psp, nbits, v / 1024) !in s.used
    ensures |s.m| == RAM_SIZE
    ensures var s' := Snap(SetEntry(s.m, PickedFrame(s, psp, nbits, v / 1024), v % 1024, w), s.used);
      InPlace(s', psp) && !RecycledBelow(s', psp, nbits, PAGE_SIZE)
  {
    hide *;
    InPlaceParts(s, psp);
    var t := PickedFrame(s, psp, nbits, v / 1024);
    var s' := Snap(SetEntry(s.m, t, v % 1024, w), s.used);
    EntrySet(s.m, t, v % 1024, w);
    FreeIsApart(s, psp, t);
    InMemorySame(s.m, s'.m, psp, {t});
    InPlaceFrom(s', psp);
    SeenSame(s.m, s'.m, psp, {t});
    GapSame(s.m, s'.m, psp, v);
    RecycledIs(s', psp, nbits, v);
    PickedSame(s, s', psp, nbits, v / 1024);
    NotBelow(s', psp, nbits, v, PAGE_SIZE);
  }

  lemma FreeIsApart(s: Snap, sp: Space, t: nat)
    requires InPlace(s, sp) && t !in s.used
    ensures {t} !! Structure(sp) && t !in Owned(sp)
  {
    StructureOwned(sp);
  }

  /** The present entries are those of before when the tables were not written. */
  lemma SeenSame(m: seq<Byte>, m': seq<Byte>, sp: Space, fs: set<nat>)
    requires InMemory(m, sp) && SameOutside(m, m', fs) && fs !! Structure(sp)
    ensures SeenPages(m', sp) == SeenPages(m, sp)
  {
    InMemoryShape(m, sp);
    assert |m'| == RAM_SIZE;
    hide InMemory, SameOutside, Structure;
    forall u: nat ensures HasPage(m', sp, u) <==> HasPage(m, sp, u) {
      if u / 1024 in sp.tables { PageWordSame(m, m', sp, fs, u); }
    }
  }

  lemma GapSame(m: seq<Byte>, m': seq<Byte>, sp: Space, v: nat)
    requires SeenPages(m', sp) == SeenPages(m, sp)
    ensures Gap(m', sp, v) <==> Gap(m, sp, v)
  {
    SeenIff(m, sp, v);
    SeenIff(m', sp, v);
  }

  lemma PickedSame(s: Snap, s': Snap, psp: Space, nbits: int, i: nat)
    requires s'.used == s.used && SeenPages(s'.m, psp) == SeenPages(s.m, psp)
    ensures PickedFrame(s', psp, nbits, i) == PickedFrame(s, psp, nbits, i)
  {
  }

  lemma NotBelow(s: Snap, psp: Space, nbits: int, v: nat, bound: int)
    requires Gap(s.m, psp, v) && RecycledWord(s, psp, nbits, v) >= bound
    ensures !RecycledBelow(s, psp, nbits, bound)
  {
    hide RecycledWord, Gap;
  }

  /** Every free frame reads as zero. */
  ghost predicate CleanFree(s: Snap) {
    |s.m| == RAM_SIZE && forall f: nat {:trigger ZeroFrame(s.m, f)} :: f < PAGES && f !in s.used ==> ZeroFrame(s.m, f)
  }

  /** A process that leaves one word in one of its pages leaves a free frame that is not zero:
      releasing a space clears its table entries, and no page. */
  lemma DirtyAfterExit(s: Snap, sp: Space, s': Snap, u: nat, k: nat)
    requires InPlace(s, sp) && u in sp.pages && k < 1024
    requires s'.used <= s.used - Owned(sp) && SameOutside(s.m, s'.m, Structure(sp))
    ensures 1 <= sp.pages[u] < PAGES && sp.pages[u] !in s'.used && |s.m| == RAM_SIZE && |s'.m| == RAM_SIZE
    ensures Entry(s'.m, sp.pages[u], k) == Entry(s.m, sp.pages[u], k)
    ensures Entry(s.m, sp.pages[u], k) != 0 ==> !CleanFree(s')
  {
    PagesAside(s, sp, u);
    InPlaceParts(s, sp);
    assert sp.pages[u] == sp.pages[u];
    hide InPlace, Separate, Owned, Structure, Leads, InMemory;
    var g := sp.pages[u];
    assert SameFrame(s.m, s'.m, g);
    EntrySame(s.m, s'.m, g, k);
    assert ZeroFrame(s'.m, g) ==> Entry(s'.m, g, k) == 0;
  }

  lemma {:induction false} TakenGrows(used: set<nat>, nbits: int, n: nat)
    requires 0 in used
    ensures used <= Taken(used, nbits, n) && 0 in Taken(used, nbits, n)
  {
    if n > 0 { TakenGrows(used, nbits, n - 1); }
  }

  lemma PickedIsFree(s: Snap, psp: Space, nbits: int, i: nat)
    requires 0 in s.used
    ensures var t := PickedFrame(s, psp, nbits, i); t == -1 || (1 <= t < nbits && t !in s.used)
  {
    TakenGrows(s.used, nbits, Rank(psp, SeenPages(s.m, psp), i));
    NextFrameIsFree(Taken(s.used, nbits, Rank(psp, SeenPages(s.m, psp), i)), nbits);
  }

  /** The page `u` of `sp` lies in the frame that a fork of `psp`, once `sp` is released, takes for
      the table of page `v`, and holds at the entry of `v` a word that leads past page zero. */
  ghost predicate DataAsTable(s: Snap, sp: Space, psp: Space, u: nat, v: nat, nbits: int) {
    && u in sp.pages && sp.pages[u] < PAGES && Gap(s.m, psp, v) && !Reaches(s.m, psp, v)
    && |s.m| == RAM_SIZE && Entry(s.m, sp.pages[u], v % 1024) >= PAGE_SIZE
    && var free := s.used - Owned(sp); var d := NextFrame(free, nbits);
       && 0 <= d && PickedFrame(Snap(s.m, free + {d}), psp, nbits, v / 1024) == sp.pages[u]
       && 1 + |psp.tables| + |SeenPages(s.m, psp)| <= |FreeFrames(free, nbits)|
  }

  lemma DataAsTableParts(s: Snap, sp: Space, psp: Space, u: nat, v: nat, nbits: int)
    requires DataAsTable(s, sp, psp, u, v, nbits)
    ensures u in sp.pages && sp.pages[u] < PAGES && Gap(s.m, psp, v) && !Reaches(s.m, psp, v)
    ensures |s.m| == RAM_SIZE && Entry(s.m, sp.pages[u], v % 1024) >= PAGE_SIZE
    ensures var free := s.used - Owned(sp); var d := NextFrame(free, nbits);
      && 0 <= d && PickedFrame(Snap(s.m, free + {d}), psp, nbits, v / 1024) == sp.pages[u]
      && 1 + |psp.tables| + |SeenPages(s.m, psp)| <= |FreeFrames(free, nbits)|
  {
  }

  /** Address `a` is mapped in the child and not in the parent. */
  ghost predicate StrayPage(m: seq<Byte>, psp: Space, csp: Space, a: int) {
    && |m| == RAM_SIZE && psp.dir < PAGES && csp.dir < PAGES && USER_MEMORY_BEGIN <= a < RAM_SIZE
    && Mapped(m, csp.dir, a) && !Mapped(m, psp.dir, a)
  }

  /** The input, for any two processes: when the one that exits leaves its data in the frame
      that the fork of the other takes for a table, the child maps a page its parent does not,
      to wherever the data says. */
  method ForkAfterExit(mc: Machine, pd: nat, ppde: nat, ghost sp: Space, ghost psp: Space, ghost u: nat, ghost v: nat)
    returns (ghost s2: Snap, pde: nat, ghost csp: Space)
    requires mc.Valid() && Resident(mc.Now(), sp) && mc.Has(psp) && Owned(sp) !! Owned(psp)
    requires pd == sp.dir * 4096 && ppde == psp.dir * 4096
    requires DataAsTable(mc.Now(), sp, psp, u, v, mc.bits.nbits)
    modifies mc.ram, mc.bits.base
    ensures mc.Has(psp) && mc.Has(csp) && pde == csp.dir * 4096 && StrayPage(mc.Now().m, psp, csp, v * 4096)
    ensures s2.used == old(mc.Now()).used - Owned(sp) + {csp.dir} && Cloned(s2, psp, mc.Now(), csp)
    ensures InOrder(s2.used, psp, SeenPages(s2.m, psp), csp, mc.bits.nbits)
    ensures Gap(s2.m, psp, v) && |old(mc.Now()).m| == RAM_SIZE && u in sp.pages && sp.pages[u] < PAGES
    ensures RecycledWord(s2, psp, mc.bits.nbits, v) == Entry(old(mc.Now()).m, sp.pages[u], v % 1024)
  {
    hide *;
    ghost var s := mc.Now();
    mc.ValidFacts();
    DataAsTableParts(s, sp, psp, u, v, mc.bits.nbits);
    mc.HasParts(psp);
    InPlaceParts(s, psp);
    ResidentInPlace(s, sp);
    mc.StillHas(sp);
    ResidentStale(s, sp);
    DestroyPde(mc, pd, sp);
    ghost var s1 := mc.Now();
    SubtractNone(s.used, Owned(sp), StaleFrames(s.m, sp));
    DirtyAfterExit(s, sp, s1, u, v % 1024);
    KeptByExit(s, sp, s1, psp);
    mc.SaneFacts();
    KernelAside(s, sp);
    mc.StillHas(psp);
    mc.ValidFacts();
    CreateMeaning(s1, mc.bits.nbits);
    NextFrameIsFree(s1.used, mc.bits.nbits);

    pde := mc.CreatePde();
    ghost var f := pde / 4096;
    s2 := mc.Now();
    CreatedParts(s1, s2, f);
    KeptByCreate(s1, s2, psp, f);
    mc.StillHas(psp);
    TakeOne(s1.used, mc.bits.nbits, f);
    mc.ValidFacts();
    SeenSame(s.m, s1.m, psp, Structure(sp));
    InPlaceParts(s1, psp);
    SeenSame(s1.m, s2.m, psp, {f});
    PickedSame(Snap(s.m, s2.used), s2, psp, mc.bits.nbits, v / 1024);
    GapSame(s.m, s2.m, psp, v);
    ReachesSame(s.m, s1.m, psp, Structure(sp), v);
    ReachesSame(s1.m, s2.m, psp, {f}, v);
    PickedIsFree(s2, psp, mc.bits.nbits, v / 1024);
    WordKept(s1, s2, f, sp.pages[u], v % 1024);
    RecycledIs(s2, psp, mc.bits.nbits, v);

    var err;
    err, csp := CopyMemory(mc, ppde, pde, psp);
    ghost var s3 := mc.Now();
    PacedParts(s2, psp, s3.used, csp, mc.bits.nbits);
    ClonedSpaces(s2, psp, s3, csp);
    mc.StillHas(psp);
    mc.StillHas(csp);
    InPlaceParts(s2, psp);
    PageAddress(psp, v);
    ChildMaps(s2, psp, s3, csp, mc.bits.nbits, v * 4096);
    ForkIsolation(s2, psp, s3, csp, v * 4096);
    Strays(s2.m, s3.m, psp, csp, v * 4096);
  }

  lemma SubtractNone(a: set<nat>, b: set<nat>, c: set<nat>)
    ensures c == {} ==> a - b - c == a - b
  {
  }

  /** Page zero and the kernel's directory are in use when a space is released. */
  lemma KernelAside(s: Snap, sp: Space)
    requires InPlace(s, sp) && 0 in s.used && KERNEL_DIR in s.used
    ensures 0 in s.used - Owned(sp) && KERNEL_DIR in s.used - Owned(sp)
  {
    InPlaceParts(s, sp);
    hide InPlace, InMemory, Leads, Separate;
    forall i | i in sp.tables ensures sp.tables[i] != 0 {}
    forall u | u in sp.pages ensures sp.pages[u] != 0 {}
  }

  lemma KeptByExit(s: Snap, sp: Space, s': Snap, psp: Space)
    requires InPlace(s, sp) && InPlace(s, psp) && Owned(sp) !! Owned(psp)
    requires s'.used == s.used - Owned(sp) && SameOutside(s.m, s'.m, Structure(sp))
    ensures InPlace(s', psp) && Structure(sp) !! Structure(psp)
  {
    hide *;
    InPlaceParts(s, psp);
    StructureOwned(sp);
    StructureOwned(psp);
    InMemorySame(s.m, s'.m, psp, Structure(sp));
    InPlaceFrom(s', psp);
  }

  lemma KeptByCreate(s: Snap, s': Snap, psp: Space, f: nat)
    requires InPlace(s, psp) && f !in s.used && s'.used == s.used + {f} && SameOutside(s.m, s'.m, {f})
    ensures InPlace(s', psp) && f !in Owned(psp) && {f} !! Structure(psp)
  {
    hide *;
    InPlaceParts(s, psp);
    FreeIsApart(s, psp, f);
    InMemorySame(s.m, s'.m, psp, {f});
    InPlaceFrom(s', psp);
  }

  lemma WordKept(s: Snap, s': Snap, f: nat, g: nat, k: nat)
    requires SameOutside(s.m, s'.m, {f}) && g != f && g < PAGES && k < 1024
    ensures Entry(s'.m, g, k) == Entry(s.m, g, k)
  {
    assert SameFrame(s.m, s'.m, g);
    EntrySame(s.m, s'.m, g, k);
  }

  lemma RecycledIs(s: Snap, psp: Space, nbits: int, v: nat)
    ensures var t := PickedFrame(s, psp, nbits, v / 1024);
      |s.m| == RAM_SIZE && 0 <= t < PAGES ==> RecycledWord(s, psp, nbits, v) == Entry(s.m, t, v % 1024)
    ensures PAGE_SIZE == 4096
  {
  }

  lemma ReachesSame(m: seq<Byte>, m': seq<Byte>, sp: Space, fs: set<nat>, v: nat)
    requires InMemory(m, sp) && SameOutside(m, m', fs) && fs !! Structure(sp)
    ensures Reaches(m', sp, v) <==> Reaches(m, sp, v)
  {
    InMemoryShape(m, sp);
    if v / 1024 in sp.tables { PageWordSame(m, m', sp, fs, v); }
  }

  lemma Strays(m: seq<Byte>, m': seq<Byte>, psp: Space, csp: Space, a: int)
    requires |m| == RAM_SIZE && |m'| == RAM_SIZE && psp.dir < PAGES && csp.dir < PAGES
    requires USER_MEMORY_BEGIN <= a < RAM_SIZE && Mapped(m', csp.dir, a) && !Mapped(m, psp.dir, a)
    requires Walk(m', psp.dir, a) == Walk(m, psp.dir, a)
    ensures StrayPage(m', psp, csp, a)
  {
  }
}
