/** destroy_pde gives back every frame of an address space, once, and every frame that a stale
    entry of its tables leads to. */
module Teardown {
  import opened PhysMem
  import opened Bitmap
  import opened Paging
  import opened Spaces
  import opened Recycled
  import opened AddressSpace

  /** The frames freed when `i` directory slots and all entries below page `v` have been visited. */
  ghost function Freed(m: seq<Byte>, sp: Space, i: nat, v: nat): set<nat>
    requires |m| == RAM_SIZE && Shaped(sp)
  {
    (set k | k in sp.tables && k < i :: sp.tables[k])
    + (set u: nat | u < v && HasPage(m, sp, u) :: PageWord(m, sp, u) / 4096)
  }

  /** Of the `i` directory slots and the entries below page `v` those that were present read zero. */
  ghost predicate Visited(m0: seq<Byte>, m: seq<Byte>, sp: Space, i: nat, v: nat) {
    && |m0| == RAM_SIZE && |m| == RAM_SIZE && Shaped(sp) && sp.dir < PAGES
    && (forall k: nat {:trigger Entry(m, sp.dir, k)} :: k < 1024 ==>
          Entry(m, sp.dir, k) == if USER_FIRST <= k < i then 0 else Entry(m0, sp.dir, k))
    && (forall u: nat {:trigger PageWord(m, sp, u)} :: u / 1024 in sp.tables ==>
          PageWord(m, sp, u) == if u < v && HasPage(m0, sp, u) then 0 else PageWord(m0, sp, u))
  }

  /** Teardown has visited `i` directory slots and all entries below page `v`. */
  ghost predicate TornDown(s0: Snap, s: Snap, sp: Space, i: nat, v: nat) {
    && InPlace(s0, sp) && |s.m| == RAM_SIZE
    && s.used == s0.used - Freed(s0.m, sp, i, v)
    && SameOutside(s0.m, s.m, Structure(sp)) && Visited(s0.m, s.m, sp, i, v)
  }

  lemma TornDownStart(s: Snap, sp: Space)
    requires InPlace(s, sp)
    ensures TornDown(s, s, sp, USER_FIRST, 1024 * USER_FIRST)
  {
    InPlaceParts(s, sp);
    hide InMemory, Owned, Separate;
    forall k | k in sp.tables ensures k >= USER_FIRST { assert sp.tables[k] == sp.tables[k]; }
    assert Freed(s.m, sp, USER_FIRST, 1024 * USER_FIRST) == {};
  }

  /** What the directory slot about to be visited holds. */
  lemma SlotNow(s0: Snap, s: Snap, sp: Space, i: nat, v: nat, w: int)
    requires TornDown(s0, s, sp, i, v) && USER_FIRST <= i < 1024
    requires sp.dir * 4096 + 4 * i + 4 <= |s.m| && w == Word(s.m, sp.dir * 4096 + 4 * i)
    ensures Present(w) <==> i in sp.tables
    ensures i in sp.tables ==> AlignDown(w) == sp.tables[i] * 4096 && sp.tables[i] * 4096 + 4096 <= RAM_SIZE
    ensures i in sp.tables ==> 0 <= AlignDown(w) && AlignDown(w) / 4096 == sp.tables[i]
  {
    InPlaceParts(s0, sp);
    hide Separate, Owned, Freed;
    assert w == Entry(s.m, sp.dir, i);
    if i in sp.tables { assert SlotLeads(s0.m, sp, i) && sp.tables[i] == sp.tables[i]; }
  }

  lemma PageNow(s0: Snap, s: Snap, sp: Space, i: nat, v: nat, w: int)
    requires TornDown(s0, s, sp, i, v) && v / 1024 in sp.tables
    requires sp.tables[v / 1024] * 4096 + 4 * (v % 1024) + 4 <= |s.m|
    requires w == Word(s.m, sp.tables[v / 1024] * 4096 + 4 * (v % 1024))
    ensures |s0.m| == RAM_SIZE && Shaped(sp) && w == PageWord(s0.m, sp, v)
    ensures 0 <= AlignDown(w) < RAM_SIZE && AlignDown(w) / 4096 == w / 4096
  {
    hide *;
    TornDownParts(s0, s, sp, i, v);
    NotYetVisited(s0.m, s.m, sp, i, v);
    WordOfPage(s.m, sp, v);
    WordFrame(w);
  }

  lemma NotYetVisited(m0: seq<Byte>, m: seq<Byte>, sp: Space, i: nat, v: nat)
    requires Visited(m0, m, sp, i, v) && v / 1024 in sp.tables
    ensures |m0| == RAM_SIZE && |m| == RAM_SIZE && Shaped(sp) && PageWord(m, sp, v) == PageWord(m0, sp, v)
  {
    hide PageWord, HasPage;
  }

  lemma WordOfPage(m: seq<Byte>, sp: Space, v: nat)
    requires |m| == RAM_SIZE && Shaped(sp) && v / 1024 in sp.tables
    requires sp.tables[v / 1024] * 4096 + 4 * (v % 1024) + 4 <= |m|
    ensures PageWord(m, sp, v) == Word(m, sp.tables[v / 1024] * 4096 + 4 * (v % 1024)) < RAM_SIZE
  {
  }

  lemma WordFrame(w: int)
    requires 0 <= w < RAM_SIZE
    ensures 0 <= AlignDown(w) < RAM_SIZE && AlignDown(w) / 4096 == w / 4096
  {
  }

  lemma SlotEmpty(m: seq<Byte>, sp: Space, i: nat)
    requires InMemory(m, sp) && i !in sp.tables
    ensures |m| == RAM_SIZE && sp.dir < PAGES && (USER_FIRST <= i < 1024 ==> Entry(m, sp.dir, i) == 0)
  {
  }

  lemma SkipSlot(s0: Snap, s: Snap, sp: Space, i: nat)
    requires TornDown(s0, s, sp, i, 1024 * i) && i !in sp.tables
    ensures TornDown(s0, s, sp, i + 1, 1024 * (i + 1))
  {
    TornDownParts(s0, s, sp, i, 1024 * i);
    InPlaceParts(s0, sp);
    SkipVisited(s0.m, s.m, sp, i);
    hide InPlace, InMemory, Separate, Owned, PageWord, SameOutside, Visited;
    forall u: nat | u / 1024 in sp.tables ensures u / 1024 != i {}
    assert Freed(s0.m, sp, i + 1, 1024 * (i + 1)) == Freed(s0.m, sp, i, 1024 * i);
  }

  lemma SkipVisited(m0: seq<Byte>, m: seq<Byte>, sp: Space, i: nat)
    requires Visited(m0, m, sp, i, 1024 * i) && InMemory(m0, sp) && i !in sp.tables
    ensures Visited(m0, m, sp, i + 1, 1024 * (i + 1))
  {
    SlotEmpty(m0, sp, i);
    hide InMemory, PageWord, HasPage;
    forall u: nat | u / 1024 in sp.tables ensures u / 1024 != i {}
  }

  lemma FreedPage(m: seq<Byte>, sp: Space, i: nat, v: nat)
    requires |m| == RAM_SIZE && Shaped(sp)
    ensures Freed(m, sp, i, v + 1)
         == Freed(m, sp, i, v) + if HasPage(m, sp, v) then {PageWord(m, sp, v) / 4096} else {}
  {
  }

  lemma FreedTable(m: seq<Byte>, sp: Space, i: nat, v: nat)
    requires |m| == RAM_SIZE && Shaped(sp) && i in sp.tables
    ensures Freed(m, sp, i + 1, v) == Freed(m, sp, i, v) + {sp.tables[i]}
  {
  }

  lemma SkipPage(s0: Snap, s: Snap, sp: Space, i: nat, v: nat)
    requires TornDown(s0, s, sp, i, v) && |s0.m| == RAM_SIZE && Shaped(sp) && !HasPage(s0.m, sp, v)
    ensures TornDown(s0, s, sp, i, v + 1)
  {
    FreedPage(s0.m, sp, i, v);
    hide InPlace, Freed, HasPage;
  }

  lemma TornDownParts(s0: Snap, s: Snap, sp: Space, i: nat, v: nat)
    requires TornDown(s0, s, sp, i, v)
    ensures InPlace(s0, sp) && |s.m| == RAM_SIZE && |s0.m| == RAM_SIZE && Shaped(sp) && Separate(sp)
    ensures s.used == s0.used - Freed(s0.m, sp, i, v) && SameOutside(s0.m, s.m, Structure(sp))
    ensures Visited(s0.m, s.m, sp, i, v)
  {
    InPlaceParts(s0, sp);
  }

  /** Clearing the entry of the page just freed. */
  lemma PageGone(s0: Snap, s: Snap, sp: Space, i: nat, v: nat)
    requires TornDown(s0, s, sp, i, v) && |s0.m| == RAM_SIZE && Shaped(sp) && HasPage(s0.m, sp, v)
    requires sp.tables[v / 1024] < PAGES
    ensures TornDown(s0, Snap(SetEntry(s.m, sp.tables[v / 1024], v % 1024, 0),
                              s.used - {PageWord(s0.m, sp, v) / 4096}), sp, i, v + 1)
  {
    TornDownParts(s0, s, sp, i, v);
    FreedPage(s0.m, sp, i, v);
    PageVisited(s0.m, s.m, sp, i, v);
    hide SetEntry, Freed, InPlace, Visited, Separate;
    var t := sp.tables[v / 1024];
    var m' := SetEntry(s.m, t, v % 1024, 0);
    EntrySet(s.m, t, v % 1024, 0);
    TableInStructure(sp, v / 1024);
    SameOutsideMore(s.m, m', {t}, Structure(sp));
    SameTransitive(s0.m, s.m, m', Structure(sp));
  }

  lemma PageVisited(m0: seq<Byte>, m: seq<Byte>, sp: Space, i: nat, v: nat)
    requires Visited(m0, m, sp, i, v) && Separate(sp) && HasPage(m0, sp, v)
    requires v / 1024 in sp.tables && sp.tables[v / 1024] < PAGES
    ensures Visited(m0, SetEntry(m, sp.tables[v / 1024], v % 1024, 0), sp, i, v + 1)
  {
    hide SetEntry, HasPage, Separate;
    var t := sp.tables[v / 1024];
    var m' := SetEntry(m, t, v % 1024, 0);
    EntrySet(m, t, v % 1024, 0);
    TableNotDir(sp, v / 1024);
    forall k: nat | k < 1024 ensures Entry(m', sp.dir, k) == Entry(m, sp.dir, k) {
      assert SameFrame(m, m', sp.dir);
      EntrySame(m, m', sp.dir, k);
    }
    forall u: nat | u / 1024 in sp.tables ensures PageWord(m', sp, u) == if u == v then 0 else PageWord(m, sp, u) {
      if u != v { EntryElsewhere(m, sp, v, u); }
    }
  }

  /** Clearing the entry of one page leaves the entries of the others. */
  lemma EntryElsewhere(m: seq<Byte>, sp: Space, v: nat, u: nat)
    requires |m| == RAM_SIZE && Shaped(sp) && Separate(sp) && v / 1024 in sp.tables && u / 1024 in sp.tables && u != v
    requires sp.tables[v / 1024] < PAGES
    ensures PageWord(SetEntry(m, sp.tables[v / 1024], v % 1024, 0), sp, u) == PageWord(m, sp, u)
  {
    hide SetEntry;
    var t, x := sp.tables[v / 1024], sp.tables[u / 1024];
    var m' := SetEntry(m, t, v % 1024, 0);
    EntrySet(m, t, v % 1024, 0);
    if x != t {
      assert SameFrame(m, m', x);
      EntrySame(m, m', x, u % 1024);
    } else {
      assert u / 1024 == v / 1024 && u % 1024 != v % 1024;
    }
  }

  /** Clearing the directory slot of the table just freed. */
  lemma TableGone(s0: Snap, s: Snap, sp: Space, i: nat, v: nat)
    requires TornDown(s0, s, sp, i, v) && i in sp.tables && i < 1024
    ensures TornDown(s0, Snap(SetEntry(s.m, sp.dir, i, 0), s.used - {sp.tables[i]}), sp, i + 1, v)
  {
    TornDownParts(s0, s, sp, i, v);
    FreedTable(s0.m, sp, i, v);
    SlotVisited(s0.m, s.m, sp, i, v);
    hide SetEntry, Freed, InPlace, Separate, Visited;
    var m' := SetEntry(s.m, sp.dir, i, 0);
    EntrySet(s.m, sp.dir, i, 0);
    SameOutsideMore(s.m, m', {sp.dir}, Structure(sp));
    SameTransitive(s0.m, s.m, m', Structure(sp));
  }

  lemma SlotVisited(m0: seq<Byte>, m: seq<Byte>, sp: Space, i: nat, v: nat)
    requires Visited(m0, m, sp, i, v) && Separate(sp) && i in sp.tables && i < 1024
    ensures Visited(m0, SetEntry(m, sp.dir, i, 0), sp, i + 1, v)
  {
    hide SetEntry, HasPage, Separate;
    var m' := SetEntry(m, sp.dir, i, 0);
    EntrySet(m, sp.dir, i, 0);
    forall k: nat | k < 1024
      ensures Entry(m', sp.dir, k) == if USER_FIRST <= k < i + 1 then 0 else Entry(m0, sp.dir, k)
    {
      assert sp.tables[i] == sp.tables[i];
      assert Entry(m, sp.dir, k) == Entry(m, sp.dir, k);
    }
    forall u: nat | u / 1024 in sp.tables ensures PageWord(m', sp, u) == PageWord(m, sp, u) {
      SlotCleared(m, sp, i, u);
    }
  }

  /** Clearing a directory slot leaves the entries of the tables. */
  lemma SlotCleared(m: seq<Byte>, sp: Space, i: nat, u: nat)
    requires |m| == RAM_SIZE && Shaped(sp) && Separate(sp) && i < 1024 && u / 1024 in sp.tables
    ensures PageWord(SetEntry(m, sp.dir, i, 0), sp, u) == PageWord(m, sp, u)
  {
    hide SetEntry;
    var m', x := SetEntry(m, sp.dir, i, 0), sp.tables[u / 1024];
    EntrySet(m, sp.dir, i, 0);
    assert x != sp.dir && SameFrame(m, m', x);
    EntrySame(m, m', x, u % 1024);
  }

  /** When all slots are visited only the directory itself is left. */
  lemma AllVisited(s0: Snap, s: Snap, sp: Space)
    requires TornDown(s0, s, sp, 1024, 1024 * 1024)
    ensures |s0.m| == RAM_SIZE && Shaped(sp)
    ensures s.used - {sp.dir} == s0.used - Owned(sp) - StaleFrames(s0.m, sp)
  {
    TornDownParts(s0, s, sp, 1024, 1024 * 1024);
    InPlaceParts(s0, sp);
    hide TornDown, InPlace, InMemory;
    AllFreed(s0.m, sp);
  }

  lemma AllFreed(m: seq<Byte>, sp: Space)
    requires Leads(m, sp)
    ensures |m| == RAM_SIZE && Shaped(sp)
    ensures Freed(m, sp, 1024, 1024 * 1024) + {sp.dir} == Owned(sp) + StaleFrames(m, sp)
  {
    var all := Freed(m, sp, 1024, 1024 * 1024);
    forall f | f in sp.tables.Values ensures f in all {
      var k :| k in sp.tables && sp.tables[k] == f;
      assert k < 1024;
    }
    forall f | f in sp.pages.Values ensures f in all {
      var u :| u in sp.pages && sp.pages[u] == f;
      PageSeen(m, sp, u);
    }
    forall f | f in all ensures f in Owned(sp) + StaleFrames(m, sp) {
      if u: nat :| u < 1024 * 1024 && HasPage(m, sp, u) && PageWord(m, sp, u) / 4096 == f {
        assert f == Source(m, sp, u);
        if u in sp.pages { PageSeen(m, sp, u); } else { assert Stale(m, sp, u); }
      }
    }
    forall f | f in StaleFrames(m, sp) ensures f in all {
      var u: nat :| u < 1024 * 1024 && Stale(m, sp, u) && Source(m, sp, u) == f;
      assert HasPage(m, sp, u);
    }
  }

  lemma ZeroEntry(m: seq<Byte>, t: nat, k: nat)
    requires |m| == RAM_SIZE && t < PAGES && k < 1024
    ensures t * 4096 + 4 * k + 4 <= RAM_SIZE && SetWord(m, t * 4096 + 4 * k, 0) == SetEntry(m, t, k, 0)
  {
  }

  lemma EntryPlace(s0: Snap, s: Snap, sp: Space, i: nat, v: nat, pte: nat)
    requires TornDown(s0, s, sp, i, v) && EntryAt(sp, v, pte)
    ensures |s.m| == RAM_SIZE && pte + 4 <= RAM_SIZE && v / 1024 in sp.tables && sp.tables[v / 1024] < PAGES
    ensures pte == sp.tables[v / 1024] * 4096 + 4 * (v % 1024)
  {
  }

  lemma EntryOfTable(s0: Snap, s: Snap, sp: Space, i: nat, j: nat)
    requires TornDown(s0, s, sp, i, 1024 * i + j) && i in sp.tables && j < 1024
    ensures EntryAt(sp, 1024 * i + j, sp.tables[i] * 4096 + 4 * j)
  {
    assert (1024 * i + j) / 1024 == i && (1024 * i + j) % 1024 == j;
  }

  lemma DirectoryFits(s0: Snap, s: Snap, sp: Space, i: nat, v: nat)
    requires TornDown(s0, s, sp, i, v)
    ensures |s.m| == RAM_SIZE && sp.dir < PAGES && sp.dir * 4096 + 4096 <= RAM_SIZE
  {
  }

  /** What teardown leaves in the directory and the tables of the space: the user half of the directory
      and every entry that was present read zero, all others are as before. */
  ghost predicate Wiped(m: seq<Byte>, m': seq<Byte>, sp: Space) {
    && |m| == RAM_SIZE && |m'| == RAM_SIZE && Shaped(sp)
    && (forall k: nat {:trigger Entry(m', sp.dir, k)} :: k < 1024 ==>
          Entry(m', sp.dir, k) == if k < 256 then Entry(m, sp.dir, k) else 0)
    && (forall u: nat {:trigger PageWord(m', sp, u)} :: u / 1024 in sp.tables ==>
          PageWord(m', sp, u) == if PageWord(m, sp, u) % 2 == 1 then 0 else PageWord(m, sp, u))
  }

  lemma AllWiped(s0: Snap, s: Snap, sp: Space)
    requires TornDown(s0, s, sp, 1024, 1024 * 1024)
    ensures Wiped(s0.m, s.m, sp)
  {
    TornDownParts(s0, s, sp, 1024, 1024 * 1024);
    hide InPlace, Freed, SameOutside, PageWord, Separate;
    forall u: nat | u / 1024 in sp.tables
      ensures PageWord(s.m, sp, u) == if PageWord(s0.m, sp, u) % 2 == 1 then 0 else PageWord(s0.m, sp, u)
    {
      assert sp.tables[u / 1024] == sp.tables[u / 1024];
    }
  }

  lemma TornDownFrame(s0: Snap, m: seq<Byte>, s: Snap, sp: Space, i: nat, v: nat)
    requires TornDown(s0, s, sp, i, v) && m == s.m
    ensures SameOutside(s0.m, m, Structure(sp))
  {
  }

  /** Free the frame of one entry, if it is present, and clear it. */
  method FreeOnePage(mc: Machine, pte: nat, ghost s0: Snap, ghost sp: Space, ghost i: nat, ghost v: nat)
    requires mc.Sane() && TornDown(s0, mc.Now(), sp, i, v) && EntryAt(sp, v, pte)
    modifies mc.ram, mc.bits.base
    ensures mc.Sane() && TornDown(s0, mc.Now(), sp, i, v + 1)
  {
    hide *;
    EntryPlace(s0, mc.Now(), sp, i, v, pte);
    var w := mc.Load(pte);
    PageNow(s0, mc.Now(), sp, i, v, w);
    HasPageIs(s0.m, sp, v);
    if !Present(w) {
      SkipPage(s0, mc.Now(), sp, i, v);
      return;
    }
    PageGone(s0, mc.Now(), sp, i, v);
    ZeroEntry(mc.Now().m, sp.tables[v / 1024], v % 1024);
    mc.FreePage(AlignDown(w));
    mc.Store(pte, 0);
  }

  lemma HasPageIs(m: seq<Byte>, sp: Space, u: nat)
    requires |m| == RAM_SIZE && Shaped(sp) && u / 1024 in sp.tables
    ensures HasPage(m, sp, u) <==> Present(PageWord(m, sp, u))
  {
  }

  /** Free what the entries of one table lead to, then the table, and clear its directory slot. */
  method FreeOneTable(mc: Machine, pd: nat, pte: nat, i: nat, ghost s0: Snap, ghost sp: Space)
    requires mc.Sane() && TornDown(s0, mc.Now(), sp, i, 1024 * i) && USER_FIRST <= i < 1024
    requires pd == sp.dir * 4096 && i in sp.tables && pte == sp.tables[i] * 4096
    modifies mc.ram, mc.bits.base
    ensures mc.Sane() && TornDown(s0, mc.Now(), sp, i + 1, 1024 * (i + 1))
  {
    hide *;
    var j := 0;
    while j < 1024
      invariant 0 <= j <= 1024 && mc.Sane() && TornDown(s0, mc.Now(), sp, i, 1024 * i + j)
    {
      EntryOfTable(s0, mc.Now(), sp, i, j);
      FreeOnePage(mc, pte + 4 * j, s0, sp, i, 1024 * i + j);
      j := j + 1;
    }
    DirectoryFits(s0, mc.Now(), sp, i, 1024 * (i + 1));
    var w := mc.Load(pd + 4 * i);
    SlotNow(s0, mc.Now(), sp, i, 1024 * (i + 1), w);
    TableGone(s0, mc.Now(), sp, i, 1024 * (i + 1));
    ZeroEntry(mc.Now().m, sp.dir, i);
    mc.FreePage(AlignDown(w));
    mc.Store(pd + 4 * i, 0);
  }

  /** Release a directory with its tables and all that their present entries lead to. The frames of
      the space are free afterwards, and those behind stale entries, be they in use elsewhere;
      no other page changes hands, and no byte outside the page tables changes; in these the user half
      of the directory and all present entries are cleared. */
  method DestroyPde(mc: Machine, page_dir: nat, ghost sp: Space)
    requires mc.Has(sp) && page_dir == sp.dir * 4096
    modifies mc.ram, mc.bits.base
    ensures mc.Sane() && |old(mc.Now()).m| == RAM_SIZE && Shaped(sp)
    ensures mc.Now().used == old(mc.Now()).used - Owned(sp) - StaleFrames(old(mc.Now()).m, sp)
    ensures SameOutside(old(mc.Now()).m, mc.Now().m, Structure(sp)) && Wiped(old(mc.Now()).m, mc.Now().m, sp)
  {
    hide *;
    ghost var s0 := mc.Now();
    mc.HasParts(sp);
    TornDownStart(s0, sp);
    UserStart();
    var i := PdeIndex(USER_MEMORY_BEGIN);
    while i < 1024
      invariant USER_FIRST <= i <= 1024 && mc.Sane() && TornDown(s0, mc.Now(), sp, i, 1024 * i)
    {
      DirectoryFits(s0, mc.Now(), sp, i, 1024 * i);
      var w := mc.Load(page_dir + 4 * i);
      SlotNow(s0, mc.Now(), sp, i, 1024 * i, w);
      if Present(w) {
        FreeOneTable(mc, page_dir, AlignDown(w), i, s0, sp);
      } else {
        SkipSlot(s0, mc.Now(), sp, i);
      }
      i := i + 1;
    }
    DirectoryFits(s0, mc.Now(), sp, 1024, 1024 * 1024);
    AllVisited(s0, mc.Now(), sp);
    AllWiped(s0, mc.Now(), sp);
    TornDownFrame(s0, mc.Now().m, mc.Now(), sp, 1024, 1024 * 1024);
    mc.FreePage(page_dir);
  }
}
