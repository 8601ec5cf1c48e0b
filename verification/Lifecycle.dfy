/** Whole lives of an address space: what it takes from the page bitmap it gives back, but for
    the frames it overwrote, and with those that stale entries of its tables lead to. */
module Lifecycle {
  import opened PhysMem
  import opened Bitmap
  import opened Paging
  import opened Spaces
  import opened Frames
  import opened Recycled
  import opened Growth
  import opened MapSteps
  import opened AddressSpace
  import opened Teardown
  import opened Fork
  import opened ForkExact
  import opened VirtualMap

  /** No frame that was in use before has been written. */
  ghost predicate UsedKept(s0: Snap, s: Snap) {
    && |s0.m| == RAM_SIZE && |s.m| == RAM_SIZE
    && forall f {:trigger SameFrame(s0.m, s.m, f)} :: f in s0.used && f < PAGES ==> SameFrame(s0.m, s.m, f)
  }

  /** `sp` is a space built since `s0`, whatever the frames it took held, and `leaked` the frames
      lost on the way: all of them were free then, nothing else has changed hands, and no other
      frame has been written. */
  ghost predicate Built(s0: Snap, s: Snap, sp: Space, leaked: set<nat>) {
    && Copied(s0.m, s, sp) && s.used == s0.used + Owned(sp) + leaked
    && Owned(sp) !! s0.used && leaked !! s0.used && leaked !! Owned(sp)
    && SameOutside(s0.m, s.m, Owned(sp) + leaked)
  }

  lemma BuiltNew(s0: Snap, s: Snap, f: nat)
    requires Created(s0, s, f)
    ensures Built(s0, s, EmptySpace(f), {}) && EmptySpace(f).dir == f
  {
    EmptyCopied(s0, s, f);
    hide Resident, SameOutside, KernelHalf, Copied;
    assert Owned(EmptySpace(f)) == {f} && {f} + {} == {f};
  }

  lemma EmptyCopied(s0: Snap, s: Snap, f: nat)
    requires Created(s0, s, f)
    ensures Copied(s0.m, s, EmptySpace(f))
  {
    ResidentInPlace(s, EmptySpace(f));
    hide Resident, KernelHalf;
  }

  lemma BuiltParts(s0: Snap, s: Snap, sp: Space, leaked: set<nat>)
    requires Built(s0, s, sp, leaked)
    ensures Copied(s0.m, s, sp) && InPlace(s, sp) && s.used == s0.used + Owned(sp) + leaked
    ensures Owned(sp) !! s0.used && leaked !! s0.used && leaked !! Owned(sp)
    ensures SameOutside(s0.m, s.m, Owned(sp) + leaked)
  {
    CopiedInPlace(s0.m, s, sp);
  }

  lemma LeakSets(u0: set<nat>, o: set<nat>, leaked: set<nat>, o': set<nat>, lost: set<nat>)
    requires o !! u0 && leaked !! u0 && leaked !! o
    requires lost <= o && lost !! o' && o' * (u0 + o + leaked) == o - lost
    ensures o' !! u0 && leaked + lost !! u0 && leaked + lost !! o'
    ensures u0 + o + leaked + o' == u0 + o' + (leaked + lost)
    ensures o + leaked <= o' + (leaked + lost)
  {
    forall x | x in o' ensures x !in u0 && x !in leaked {
      assert x in o' * (u0 + o + leaked) <==> x in o - lost;
    }
    assert o - lost <= o';
  }

  /** `sp'` has what `sp` has, and the tables it has besides lie in frames that were free. */
  ghost predicate Widens(s: Snap, sp: Space, sp': Space) {
    && (forall i {:trigger i in sp.tables} :: i in sp.tables ==> i in sp'.tables && sp'.tables[i] == sp.tables[i])
    && (forall v {:trigger v in sp.pages} :: v in sp.pages ==> v in sp'.pages)
    && (forall i {:trigger sp'.tables[i]} :: i in sp'.tables && i !in sp.tables ==> sp'.tables[i] !in s.used)
  }

  lemma MeansWidens(s: Snap, sp: Space, addr: nat, size: nat, nbits: int, r: Mapping)
    requires AllocMeans(s, sp, addr, size, nbits, r)
    ensures Widens(s, sp, r.sp) && r.sp.dir == sp.dir && Copied(s.m, r.s, r.sp)
    ensures SameOutside(s.m, r.s.m, Structure(r.sp))
  {
    hide *;
    var v, k := addr / 4096, Written(s, sp, addr, size, nbits);
    MeansGrows(s, sp, addr, size, nbits, r);
    GrownParts(s, Cleared(sp, v, k), r.s, r.sp);
    if r.sp == sp {
      WidensSelf(s, sp);
    } else {
      forall i | i in r.sp.tables && i !in sp.tables ensures r.sp.tables[i] !in s.used {
        ClearedFields(sp, v, k);
        NewTableFree(s, Cleared(sp, v, k), r.sp, i);
      }
      WidensFrom(s, sp, r.sp, v, k);
    }
    ClearedFields(sp, v, k);
    ExtendsDir(Cleared(sp, v, k), r.sp);
  }

  lemma MeansGrows(s: Snap, sp: Space, addr: nat, size: nat, nbits: int, r: Mapping)
    requires AllocMeans(s, sp, addr, size, nbits, r)
    ensures var v, k := addr / 4096, Written(s, sp, addr, size, nbits);
      Grown(s, Cleared(sp, v, k), r.s, r.sp) && (r.sp == sp || GainedPages(Cleared(sp, v, k), r.sp, v, k))
  {
    hide Grown, GainedPages, Cleared, Written, Refused, FreeFrames, FramesNeeded;
  }

  lemma WidensSelf(s: Snap, sp: Space)
    ensures Widens(s, sp, sp)
  {
  }

  lemma ClearedFields(sp: Space, v: nat, k: nat)
    ensures Cleared(sp, v, k).tables == sp.tables && Cleared(sp, v, k).dir == sp.dir
  {
  }

  lemma ExtendsDir(c: Space, sp: Space)
    requires Extends(c, sp)
    ensures sp.dir == c.dir
  {
  }

  lemma WidensFrom(s: Snap, sp: Space, sp': Space, v: nat, k: nat)
    requires Extends(Cleared(sp, v, k), sp') && GainedPages(Cleared(sp, v, k), sp', v, k)
    requires forall i {:trigger sp'.tables[i]} :: i in sp'.tables && i !in sp.tables ==> sp'.tables[i] !in s.used
    ensures Widens(s, sp, sp')
  {
    var c := Cleared(sp, v, k);
    forall i | i in sp.tables ensures i in sp'.tables && sp'.tables[i] == sp.tables[i] {
      assert c.tables[i] == sp'.tables[i];
    }
    forall u | u in sp.pages ensures u in sp'.pages {
      assert u in c.pages || v <= u < v + k;
    }
  }

  lemma NewTableFree(s: Snap, c: Space, sp: Space, i: nat)
    requires Extends(c, sp) && Separate(sp) && Owned(sp) * s.used == Owned(c) && i in sp.tables && i !in c.tables
    ensures sp.tables[i] !in s.used
  {
    var t := sp.tables[i];
    forall j | j in c.tables ensures c.tables[j] != t { assert sp.tables[j] == c.tables[j]; }
    forall u | u in c.pages ensures c.pages[u] != t { assert sp.pages[u] == c.pages[u]; }
    assert t !in Owned(c) && t in Owned(sp);
    assert t !in Owned(sp) * s.used;
  }

  /** What entries without a page hold goes back to the frames as they were at the start. */
  lemma CarriesOn(m0: seq<Byte>, s: Snap, sp: Space, s': Snap, sp': Space, fs: set<nat>)
    requires Copied(m0, s, sp) && Copied(s.m, s', sp') && Widens(s, sp, sp')
    requires SameOutside(m0, s.m, fs) && fs <= s.used
    ensures Copied(m0, s', sp')
  {
    CopiedParts(m0, s, sp);
    CopiedParts(s.m, s', sp');
    hide Copied, InMemory, SameOutside, Owned, Separate;
    InMemoryShape(s.m, sp);
    InMemoryShape(s'.m, sp');
    forall v: nat | v / 1024 in sp'.tables && v !in sp'.pages ensures PageWord(s'.m, sp', v) == PageWord(m0, sp', v) {
      assert PageWord(s'.m, sp', v) == PageWord(s.m, sp', v);
      if v / 1024 in sp.tables {
        assert PageWord(s.m, sp, v) == PageWord(m0, sp, v);
      } else {
        assert sp'.tables[v / 1024] !in s.used;
        OtherFrame(m0, s.m, fs, sp'.tables[v / 1024]);
        EntrySame(m0, s.m, sp'.tables[v / 1024], v % 1024);
      }
    }
    CopiedFrom(m0, s', sp');
  }

  /** A call of alloc_vpages keeps the account, whether it succeeds or runs out of memory. */
  lemma BuiltMapped(s0: Snap, s: Snap, sp: Space, leaked: set<nat>, addr: nat, size: nat, nbits: int)
    requires Built(s0, s, sp, leaked) && 0 in s.used && KERNEL_DIR in s.used && nbits <= PAGES
    requires InOneTable(addr, size)
    ensures var r := AllocStep(s, sp, addr, size, nbits);
      Built(s0, r.s, r.sp, leaked + LostBy(s, sp, addr, size, nbits)) && r.sp.dir == sp.dir
  {
    hide *;
    BuiltParts(s0, s, sp, leaked);
    OverwriteLeaks(s, sp, addr, size, nbits);
    AllocMeaning(s, sp, addr, size, nbits);
    var r, lost := AllocStep(s, sp, addr, size, nbits), LostBy(s, sp, addr, size, nbits);
    MeansWidens(s, sp, addr, size, nbits, r);
    CarriesOn(s0.m, s, sp, r.s, r.sp, Owned(sp) + leaked);
    LeakSets(s0.used, Owned(sp), leaked, Owned(r.sp), lost);
    StructureOwned(r.sp);
    SameOutsideMore(s.m, r.s.m, Structure(r.sp), Owned(r.sp) + (leaked + lost));
    SameOutsideMore(s0.m, s.m, Owned(sp) + leaked, Owned(r.sp) + (leaked + lost));
    SameTransitive(s0.m, s.m, r.s.m, Owned(r.sp) + (leaked + lost));
    BuiltFrom(s0, r.s, r.sp, leaked + lost);
  }

  lemma BuiltFrom(s0: Snap, s: Snap, sp: Space, leaked: set<nat>)
    requires Copied(s0.m, s, sp) && s.used == s0.used + Owned(sp) + leaked
    requires Owned(sp) !! s0.used && leaked !! s0.used && leaked !! Owned(sp)
    requires SameOutside(s0.m, s.m, Owned(sp) + leaked)
    ensures Built(s0, s, sp, leaked)
  {
  }

  /** Releasing the space leaves what was lost, and frees what its stale entries lead to. */
  lemma Released(s0: Snap, s: Snap, sp: Space, leaked: set<nat>, s': Snap)
    requires Built(s0, s, sp, leaked) && s'.used == s.used - Owned(sp) - StaleFrames(s.m, sp)
    requires SameOutside(s.m, s'.m, Structure(sp))
    ensures s'.used == s0.used + leaked - StaleFrames(s0.m, sp) && UsedKept(s0, s')
    ensures s'.used == s0.used <==> StaleFrames(s0.m, sp) !! s0.used && leaked <= StaleFrames(s0.m, sp)
  {
    hide *;
    BuiltParts(s0, s, sp, leaked);
    CopiedParts(s0.m, s, sp);
    CarriesStale(s0.m, s.m, sp);
    StructureOwned(sp);
    SameOutsideMore(s.m, s'.m, Structure(sp), Owned(sp) + leaked);
    SameTransitive(s0.m, s.m, s'.m, Owned(sp) + leaked);
    KeptOutside(s0, s', Owned(sp) + leaked);
    ReleasedSets(s0.used, Owned(sp), leaked, StaleFrames(s0.m, sp));
  }

  lemma KeptOutside(s0: Snap, s: Snap, fs: set<nat>)
    requires SameOutside(s0.m, s.m, fs) && fs !! s0.used
    ensures UsedKept(s0, s)
  {
  }

  lemma ReleasedSets(u: set<nat>, o: set<nat>, leaked: set<nat>, stale: set<nat>)
    requires o !! u && leaked !! u && leaked !! o
    ensures u + o + leaked - o - stale == u + leaked - stale
    ensures u + leaked - stale == u <==> stale !! u && leaked <= stale
  {
    if u + leaked - stale == u {
      forall x | x in leaked ensures x in stale { assert x in u + leaked - stale <==> x in u; }
      forall x | x in u ensures x !in stale { assert x in u + leaked - stale; }
    }
  }

  // ---------------------------------------------------------------- tables of a released space

  /** No entry of a table of a released space is present, and when memory held exactly the space all
      its table frames read as zero. */
  lemma ReleasedTables(s: Snap, sp: Space, m: seq<Byte>, i: nat)
    requires Wiped(s.m, m, sp) && i in sp.tables && sp.tables[i] < PAGES
    ensures forall k: nat {:trigger Entry(m, sp.tables[i], k)} :: k < 1024 ==> Entry(m, sp.tables[i], k) % 2 == 0
    ensures Resident(s, sp) ==> ZeroFrame(m, sp.tables[i])
  {
    hide Separate, Owned;
    forall k: nat | k < 1024
      ensures Entry(m, sp.tables[i], k) % 2 == 0 && (Resident(s, sp) ==> Entry(m, sp.tables[i], k) == 0)
    {
      var u := 1024 * i + k;
      assert u / 1024 == i && u % 1024 == k;
      assert PageWord(m, sp, u) == if PageWord(s.m, sp, u) % 2 == 1 then 0 else PageWord(s.m, sp, u);
      assert Resident(s, sp) ==> PageOk(s.m, sp, u);
    }
  }

  /** So a later call that makes one of them a table, with nothing written to it since, is not refused,
      and has mapped all its pages if it reports success; when memory held exactly the space that
      was released it maps nothing else, and leaves a space that memory holds exactly so. */
  lemma ReleasedTableAgain(s: Snap, sp: Space, m: seq<Byte>, i: nat, s2: Snap, sp2: Space,
                           addr: nat, size: nat, nbits: int)
    requires Wiped(s.m, m, sp) && i in sp.tables && NextFrame(s2.used, nbits) == sp.tables[i]
    requires InPlace(s2, sp2) && SameFrame(m, s2.m, sp.tables[i])
    requires 0 in s2.used && KERNEL_DIR in s2.used && nbits <= PAGES && InOneTable(addr, size)
    requires addr / 4096 / 1024 !in sp2.tables
    ensures var r, v := AllocStep(s2, sp2, addr, size, nbits), addr / 4096;
      && !Refused(s2, sp2, v, nbits) && (r.err == 0 ==> AllIn(r.sp, v, PageCount(size)))
      && (Resident(s, sp) ==>
            && NothingElse(s2, r.s, sp2.dir, v, Written(s2, sp2, addr, size, nbits))
            && (Resident(s2, sp2) ==> Resident(r.s, r.sp)))
  {
    hide *;
    var v, t := addr / 4096, sp.tables[i];
    MadeIs(s2, sp2, addr, size, nbits);
    InPlaceParts(s2, sp2);
    WipedTable(s.m, m, sp, i);
    ReleasedTables(s, sp, m, i);
    EntrySame(m, s2.m, t, v % 1024);
    TargetIs(s2, sp2, v / 1024, nbits);
    RefusedIs(s2, sp2, v, nbits);
    SuccessMapsIff(s2, sp2, addr, size, nbits);
    if Resident(s, sp) {
      ZeroSame(m, s2.m, t);
      ZeroBelow(s2, sp2, addr, size, nbits, 1);
      ZeroBelow(s2, sp2, addr, size, nbits, PAGE_SIZE);
      NothingElseIff(s2, sp2, addr, size, nbits);
      if Resident(s2, sp2) { CallExactIff(s2, sp2, addr, size, nbits); }
    }
  }

  lemma WipedTable(m0: seq<Byte>, m: seq<Byte>, sp: Space, i: nat)
    requires Wiped(m0, m, sp) && i in sp.tables
    ensures |m| == RAM_SIZE && sp.tables[i] < PAGES && PAGE_SIZE == 4096
    ensures forall w {:trigger Present(w)} :: Present(w) <==> w % 2 == 1
  {
  }

  lemma ZeroSame(m: seq<Byte>, m': seq<Byte>, f: nat)
    requires |m| == RAM_SIZE && |m'| == RAM_SIZE && f < PAGES && SameFrame(m, m', f) && ZeroFrame(m, f)
    ensures ZeroFrame(m', f)
  {
    forall k: nat | k < 1024 ensures Entry(m', f, k) == 0 { EntrySame(m, m', f, k); }
  }

  lemma ZeroBelow(s: Snap, sp: Space, addr: nat, size: nat, nbits: int, bound: int)
    requires 0 <= NextFrame(s.used, nbits) < PAGES && |s.m| == RAM_SIZE && bound >= 1
    requires ZeroFrame(s.m, NextFrame(s.used, nbits))
    ensures TableBelow(s, sp, addr, size, nbits, bound)
  {
    hide NextFrame, Written;
  }

  // ---------------------------------------------------------------- runs of requests

  /** A call of alloc_vpages. */
  datatype Request = Request(addr: nat, size: nat)

  /** Each request keeps within one table. */
  predicate Requests(rs: seq<Request>) {
    forall k :: 0 <= k < |rs| ==> InOneTable(rs[k].addr, rs[k].size)
  }

  /** Memory, bitmap and space after the calls, whatever each of them returned. */
  ghost function MapRun(s: Snap, sp: Space, nbits: int, rs: seq<Request>): Mapping
    requires Requests(rs)
    decreases |rs|
  {
    if rs == [] then Mapping(s, sp, 0)
    else
      var r := AllocStep(s, sp, rs[0].addr, rs[0].size, nbits);
      MapRun(r.s, r.sp, nbits, rs[1..])
  }

  /** The frames lost by pages that the calls overwrite. */
  ghost function Leaks(s: Snap, sp: Space, nbits: int, rs: seq<Request>): set<nat>
    requires Requests(rs)
    decreases |rs|
  {
    if rs == [] then {}
    else
      var r := AllocStep(s, sp, rs[0].addr, rs[0].size, nbits);
      LostBy(s, sp, rs[0].addr, rs[0].size, nbits) + Leaks(r.s, r.sp, nbits, rs[1..])
  }

  /** Each call is refused or enters only pages that are not mapped. */
  ghost predicate NeverOverwrites(s: Snap, sp: Space, nbits: int, rs: seq<Request>)
    requires Requests(rs)
    decreases |rs|
  {
    rs == [] || (
      && (Refused(s, sp, rs[0].addr / 4096, nbits)
          || Absent(sp, rs[0].addr / 4096, Written(s, sp, rs[0].addr, rs[0].size, nbits)))
      && var r := AllocStep(s, sp, rs[0].addr, rs[0].size, nbits); NeverOverwrites(r.s, r.sp, nbits, rs[1..]))
  }

  lemma {:induction false} LeaksNothingIff(s: Snap, sp: Space, nbits: int, rs: seq<Request>)
    requires Requests(rs)
    ensures Leaks(s, sp, nbits, rs) == {} <==> NeverOverwrites(s, sp, nbits, rs)
    decreases |rs|
  {
    hide AllocStep, Lost, Absent, Refused;
    if rs != [] {
      var r := AllocStep(s, sp, rs[0].addr, rs[0].size, nbits);
      LeaksNothingIff(r.s, r.sp, nbits, rs[1..]);
      LostNone(sp, rs[0].addr / 4096, Written(s, sp, rs[0].addr, rs[0].size, nbits));
      RefusedWritesNothing(s, sp, rs[0].addr, rs[0].size, nbits);
    }
  }

  lemma RefusedWritesNothing(s: Snap, sp: Space, addr: nat, size: nat, nbits: int)
    ensures Refused(s, sp, addr / 4096, nbits) ==> Absent(sp, addr / 4096, Written(s, sp, addr, size, nbits))
  {
  }

  lemma RunStep(s: Snap, sp: Space, nbits: int, rs: seq<Request>)
    requires Requests(rs) && rs != []
    ensures InOneTable(rs[0].addr, rs[0].size) && Requests(rs[1..])
    ensures var r := AllocStep(s, sp, rs[0].addr, rs[0].size, nbits);
      && Leaks(s, sp, nbits, rs) == LostBy(s, sp, rs[0].addr, rs[0].size, nbits) + Leaks(r.s, r.sp, nbits, rs[1..])
      && MapRun(s, sp, nbits, rs) == MapRun(r.s, r.sp, nbits, rs[1..])
  {
  }

  lemma RunDone(s: Snap, sp: Space, nbits: int, rs: seq<Request>)
    requires Requests(rs) && rs == []
    ensures Leaks(s, sp, nbits, rs) == {} && MapRun(s, sp, nbits, rs) == Mapping(s, sp, 0)
  {
  }

  lemma UsedKeptNow(s: Snap)
    requires |s.m| == RAM_SIZE
    ensures UsedKept(s, s)
  {
  }

  /** What the life of a space that maps `rs` leaves: the frames lost by overwriting stay in use,
      and those that stale entries of its tables lead to, by what the tables' frames held at the
      start, become free. */
  ghost predicate LifeOf(s0: Snap, s: Snap, nbits: int, rs: seq<Request>)
    requires Requests(rs)
  {
    var (s1, pd) := CreateStep(s0, nbits);
    var sp := EmptySpace(pd / 4096);
    var leaked, stale := Leaks(s1, sp, nbits, rs), StaleFrames(s0.m, MapRun(s1, sp, nbits, rs).sp);
    && s.used == s0.used + leaked - stale
    && (s.used == s0.used <==> stale !! s0.used && leaked <= stale)
  }

  lemma LifeFrom(s0: Snap, s1: Snap, pd: nat, s: Snap, nbits: int, rs: seq<Request>, leaked: set<nat>, sp': Space)
    requires Requests(rs) && CreateStep(s0, nbits) == (s1, pd)
    requires leaked == Leaks(s1, EmptySpace(pd / 4096), nbits, rs)
    requires sp' == MapRun(s1, EmptySpace(pd / 4096), nbits, rs).sp
    requires s.used == s0.used + leaked - StaleFrames(s0.m, sp')
    requires s.used == s0.used <==> StaleFrames(s0.m, sp') !! s0.used && leaked <= StaleFrames(s0.m, sp')
    ensures LifeOf(s0, s, nbits, rs)
  {
    hide CreateStep, Leaks, MapRun, StaleFrames;
  }

  /** Make a directory, map any sequence of requests, each of which may be refused or run out of
      memory, and release it all, whatever the free frames held. The page bitmap is restored if
      and only if no stale entry leads to a frame in use, and to every frame that was lost by
      overwriting one does. No frame in use before is written. */
  method MapAndRelease(mc: Machine, rs: seq<Request>) returns (made: bool)
    requires mc.Valid() && Requests(rs)
    modifies mc.ram, mc.bits.base
    ensures mc.Sane() && UsedKept(old(mc.Now()), mc.Now())
    ensures made <==> CreateStep(old(mc.Now()), mc.bits.nbits).1 != 0
    ensures if made then LifeOf(old(mc.Now()), mc.Now(), mc.bits.nbits, rs) else mc.Now() == old(mc.Now())
  {
    hide *;
    ghost var s0 := mc.Now();
    mc.ValidFacts();
    var pd := mc.CreatePde();
    if pd == 0 {
      UsedKeptNow(s0);
      return false;
    }
    ghost var sp, s1, leaked := EmptySpace(pd / 4096), mc.Now(), {};
    ghost var total, last := Leaks(s1, sp, mc.bits.nbits, rs), MapRun(s1, sp, mc.bits.nbits, rs).sp;
    BuiltNew(s0, s1, pd / 4096);
    var k := 0;
    assert rs[0..] == rs;
    while k < |rs|
      invariant 0 <= k <= |rs| && mc.Has(sp) && sp.dir == pd / 4096
      invariant Built(s0, mc.Now(), sp, leaked) && Requests(rs[k..])
      invariant leaked + Leaks(mc.Now(), sp, mc.bits.nbits, rs[k..]) == total
      invariant MapRun(mc.Now(), sp, mc.bits.nbits, rs[k..]).sp == last
    {
      ghost var s, sp1 := mc.Now(), sp;
      mc.HasParts(sp);
      mc.ValidFacts();
      RunStep(s, sp, mc.bits.nbits, rs[k..]);
      assert rs[k..][1..] == rs[k + 1..];
      InTableFits(s, sp, rs[k].addr, rs[k].size, mc.bits.nbits);
      RequestPages(rs[k].addr, rs[k].size);
      TargetOf(rs[k].addr, rs[k].size);
      var err;
      err, sp := mc.AllocVpages(pd, rs[k].addr, rs[k].size, sp1);
      BuiltMapped(s0, s, sp1, leaked, rs[k].addr, rs[k].size, mc.bits.nbits);
      leaked := leaked + LostBy(s, sp1, rs[k].addr, rs[k].size, mc.bits.nbits);
      k := k + 1;
    }
    ghost var s := mc.Now();
    RunDone(s, sp, mc.bits.nbits, rs[k..]);
    DestroyPde(mc, pd, sp);
    Released(s0, s, sp, leaked, mc.Now());
    LifeFrom(s0, s1, pd, mc.Now(), mc.bits.nbits, rs, leaked, sp);
    made := true;
  }

  // ---------------------------------------------------------------- fork and exit

  lemma BuiltClone(s0: Snap, s1: Snap, psp: Space, s2: Snap, csp: Space, f: nat)
    requires Created(s0, s1, f) && Cloned(s1, psp, s2, csp) && csp.dir == f
    ensures SameOutside(s0.m, s2.m, Owned(csp)) && Owned(csp) !! s0.used && s2.used == s0.used + Owned(csp)
  {
    hide *;
    CreatedParts(s0, s1, f);
    ClonedParts(s1, psp, s2, csp);
    CloneSets(s0.used, Owned(csp), f);
    SameOutsideMore(s0.m, s1.m, {f}, Owned(csp));
    SameTransitive(s0.m, s1.m, s2.m, Owned(csp));
  }

  lemma CloneSets(u0: set<nat>, o: set<nat>, f: nat)
    requires f !in u0 && o * (u0 + {f}) == {f}
    ensures o !! u0 && f in o && u0 + {f} + o == u0 + o && {f} <= o
  {
    assert o * (u0 + {f}) * u0 == o * u0;
  }

  lemma CloneReleased(s0: Snap, s2: Snap, csp: Space, stale: set<nat>, s: Snap)
    requires SameOutside(s0.m, s2.m, Owned(csp)) && Owned(csp) !! s0.used && s2.used == s0.used + Owned(csp)
    requires s.used == s2.used - Owned(csp) - stale && SameOutside(s2.m, s.m, Structure(csp))
    ensures s.used == s0.used - stale && UsedKept(s0, s) && (s.used == s0.used <==> stale !! s0.used)
  {
    hide *;
    StructureOwned(csp);
    SameOutsideMore(s2.m, s.m, Structure(csp), Owned(csp));
    SameTransitive(s0.m, s2.m, s.m, Owned(csp));
    KeptOutside(s0, s, Owned(csp));
    ReleasedSets(s0.used, Owned(csp), {}, stale);
    assert s0.used + Owned(csp) + {} == s0.used + Owned(csp) && s0.used + {} == s0.used;
  }

  /** The parent's tables are as they were; its frames are all in use exactly when none was freed. */
  lemma ParentAfter(s0: Snap, psp: Space, s: Snap, stale: set<nat>)
    requires InPlace(s0, psp) && UsedKept(s0, s) && s.used == s0.used - stale
    ensures InMemory(s.m, psp) && (InPlace(s, psp) <==> stale !! Owned(psp))
  {
    InPlaceParts(s0, psp);
    StructureOwned(psp);
    hide Separate, Leads, InMemory, Structure, Owned;
    var fs := set f: nat | f < PAGES && f !in s0.used;
    assert SameOutside(s0.m, s.m, fs);
    InMemorySame(s0.m, s.m, psp, fs);
  }

  /** Fork and exit of the child, whatever the free frames held. It succeeds exactly when there is a
      frame for the directory, each table and each present entry. The child's exit then frees the
      frames behind the odd words that its recycled tables held where the parent has no present
      entry: so the page bitmap is restored if and only if none of those was in use, and the
      parent keeps all of its frames if and only if none of them is the parent's. */
  method ForkAndRelease(mc: Machine, ppde: nat, ghost psp: Space) returns (ok: bool)
    requires mc.Has(psp) && ppde == psp.dir * 4096
    modifies mc.ram, mc.bits.base
    ensures ok <==> 1 + |psp.tables| + |SeenPages(old(mc.Now()).m, psp)|
                    <= |FreeFrames(old(mc.Now()).used, mc.bits.nbits)|
    ensures ok ==>
      var stale := RecycledFrames(CreateStep(old(mc.Now()), mc.bits.nbits).0, psp, mc.bits.nbits);
      && mc.Sane() && mc.Now().used == old(mc.Now()).used - stale
      && (mc.Now().used == old(mc.Now()).used <==> stale !! old(mc.Now()).used)
      && InMemory(mc.Now().m, psp) && (InPlace(mc.Now(), psp) <==> stale !! Owned(psp))
      && UsedKept(old(mc.Now()), mc.Now())
  {
    hide *;
    ghost var s0 := mc.Now();
    mc.HasParts(psp);
    mc.ValidFacts();
    CreateMeaning(s0, mc.bits.nbits);
    NextFrameExists(s0.used, mc.bits.nbits);
    NextFrameIsFree(s0.used, mc.bits.nbits);
    var pd := mc.CreatePde();
    if pd == 0 {
      return false;
    }
    ghost var f, s1 := pd / 4096, mc.Now();
    CreatedParts(s0, s1, f);
    TakeOne(s0.used, mc.bits.nbits, f);
    KeptByCreate(s0, s1, psp, f);
    SeenSame(s0.m, s1.m, psp, {f});
    mc.StillHas(psp);
    var err; ghost var csp;
    err, csp := CopyMemory(mc, ppde, pd, psp);
    if err != 0 {
      return false;
    }
    ghost var s2 := mc.Now();
    PacedParts(s1, psp, s2.used, csp, mc.bits.nbits);
    ClonedSpaces(s1, psp, s2, csp);
    RecycledStale(s1, psp, s2, csp, mc.bits.nbits);
    BuiltClone(s0, s1, psp, s2, csp, f);
    mc.StillHas(csp);
    DestroyPde(mc, pd, csp);
    CloneReleased(s0, s2, csp, StaleFrames(s2.m, csp), mc.Now());
    ParentAfter(s0, psp, mc.Now(), StaleFrames(s2.m, csp));
    ok := true;
  }
}
