/** Address spaces whose tables lie in recycled frames, which still hold what they held before. */
module Recycled {
  import opened PhysMem
  import opened Bitmap
  import opened Paging
  import opened Spaces

  /** A space built since `m0`, whatever its frames held: what it says is in memory, its other
      directory slots are empty, and the entries of its tables without a page still hold what
      the frames held before. */
  ghost predicate Carries(m0: seq<Byte>, m: seq<Byte>, sp: Space) {
    && |m0| == RAM_SIZE && InMemory(m, sp)
    && (forall v: nat {:trigger PageWord(m, sp, v)} :: v / 1024 in sp.tables && v !in sp.pages ==>
          PageWord(m, sp, v) == PageWord(m0, sp, v))
  }

  /** Linking a table writes only the directory: every table entry is as before. */
  lemma TableEntry(m: seq<Byte>, sp: Space, i: nat, t: nat, v: nat)
    requires |m| == RAM_SIZE && Shaped(sp) && Separate(sp) && i !in sp.tables && USER_FIRST <= i < 1024
    requires 1 <= t < PAGES && t !in Owned(sp) && v / 1024 in AddTable(sp, i, t).tables
    ensures var m', sp' := SetEntry(m, sp.dir, i, EntryFor(t)), AddTable(sp, i, t);
      && |m'| == RAM_SIZE && Shaped(sp')
      && PageWord(m', sp', v) == (if v / 1024 == i then Entry(m, t, v % 1024) else PageWord(m, sp, v))
  {
    hide EntryFor, SetEntry;
    var m', sp' := SetEntry(m, sp.dir, i, EntryFor(t)), AddTable(sp, i, t);
    EntrySet(m, sp.dir, i, EntryFor(t));
    var u := sp'.tables[v / 1024];
    assert u != sp.dir && SameFrame(m, m', u);
    forall j | j in sp'.tables ensures USER_FIRST <= j < 1024 && 1 <= sp'.tables[j] < PAGES {
      if j != i { assert sp.tables[j] == sp.tables[j]; }
    }
    forall w | w in sp'.pages ensures w / 1024 in sp'.tables && 1 <= sp'.pages[w] < PAGES {
      assert sp.pages[w] == sp'.pages[w];
    }
    EntrySame(m, m', u, v % 1024);
  }

  lemma LeadsTable(m: seq<Byte>, sp: Space, i: nat, t: nat)
    requires Leads(m, sp) && Separate(sp) && USER_FIRST <= i < 1024 && i !in sp.tables && 1 <= t < PAGES
    requires t !in Owned(sp)
    ensures Leads(SetEntry(m, sp.dir, i, EntryFor(t)), AddTable(sp, i, t))
  {
    var m', sp' := SetEntry(m, sp.dir, i, EntryFor(t)), AddTable(sp, i, t);
    TableEntry(m, sp, i, t, 1024 * i);
    EntryLinks(t);
    hide EntryFor, SetEntry, Links, Separate, Owned, Shaped;
    EntrySet(m, sp.dir, i, EntryFor(t));
    forall j: nat | j in sp'.tables ensures SlotLeads(m', sp', j) {
      SlotRange(sp', j);
      if j != i { assert SlotLeads(m, sp, j); }
    }
    forall v: nat | v in sp'.pages ensures PageLeads(m', sp', v) {
      assert PageLeads(m, sp, v);
      PageHasTable(sp, v);
      TableEntry(m, sp, i, t, v);
    }
  }

  lemma CarriesTable(m0: seq<Byte>, m: seq<Byte>, sp: Space, i: nat, t: nat)
    requires Carries(m0, m, sp) && Separate(sp) && USER_FIRST <= i < 1024 && i !in sp.tables
    requires 1 <= t < PAGES && t !in Owned(sp) && SameFrame(m0, m, t)
    ensures Carries(m0, SetEntry(m, sp.dir, i, EntryFor(t)), AddTable(sp, i, t))
  {
    LeadsTable(m, sp, i, t);
    LeadsParts(m, sp);
    LeadsParts(SetEntry(m, sp.dir, i, EntryFor(t)), AddTable(sp, i, t));
    hide EntryFor, SetEntry, Leads, Separate, Owned, SameFrame, Shaped;
    var m', sp' := SetEntry(m, sp.dir, i, EntryFor(t)), AddTable(sp, i, t);
    EntrySet(m, sp.dir, i, EntryFor(t));
    forall v: nat | v / 1024 in sp'.tables && v !in sp'.pages ensures PageWord(m', sp', v) == PageWord(m0, sp', v) {
      TableEntry(m, sp, i, t, v);
      if v / 1024 == i {
        EntrySame(m0, m, t, v % 1024);
      } else {
        assert PageWord(m, sp, v) == PageWord(m0, sp, v);
      }
    }
  }

  lemma SlotRange(sp: Space, j: nat)
    requires Shaped(sp) && j in sp.tables
    ensures USER_FIRST <= j < 1024 && 1 <= sp.tables[j] < PAGES
  {
  }

  lemma PageHasTable(sp: Space, v: nat)
    requires Shaped(sp) && v in sp.pages
    ensures v / 1024 in sp.tables && 1 <= sp.pages[v] < PAGES
  {
  }

  /** Entering a page writes one table entry: every other one, and every slot, is as before. */
  lemma PageEntry(m: seq<Byte>, sp: Space, v: nat, f: nat, u: nat)
    requires |m| == RAM_SIZE && Shaped(sp) && Separate(sp) && v / 1024 in sp.tables && u / 1024 in sp.tables
    requires 1 <= f < PAGES
    requires sp.tables[v / 1024] < PAGES
    ensures var m', sp' := SetEntry(m, sp.tables[v / 1024], v % 1024, EntryFor(f)), AddPage(sp, v, f);
      && |m'| == RAM_SIZE && Shaped(sp')
      && PageWord(m', sp', u) == (if u == v then EntryFor(f) else PageWord(m, sp, u))
  {
    hide EntryFor, SetEntry;
    var x, t := sp.tables[u / 1024], sp.tables[v / 1024];
    var m', sp' := SetEntry(m, t, v % 1024, EntryFor(f)), AddPage(sp, v, f);
    EntrySet(m, t, v % 1024, EntryFor(f));
    forall w | w in sp'.pages ensures w / 1024 in sp'.tables && 1 <= sp'.pages[w] < PAGES {
      if w != v { assert sp.pages[w] == sp'.pages[w]; }
    }
    if x != t {
      assert SameFrame(m, m', x);
      EntrySame(m, m', x, u % 1024);
    } else if u != v {
      assert u / 1024 == v / 1024 && u % 1024 != v % 1024;
    }
  }

  lemma SlotKept(m: seq<Byte>, sp: Space, v: nat, f: nat, i: nat)
    requires |m| == RAM_SIZE && Shaped(sp) && Separate(sp) && v / 1024 in sp.tables && 1 <= f < PAGES && i < 1024
    requires sp.tables[v / 1024] < PAGES
    ensures Entry(SetEntry(m, sp.tables[v / 1024], v % 1024, EntryFor(f)), sp.dir, i) == Entry(m, sp.dir, i)
  {
    hide EntryFor, SetEntry;
    var t := sp.tables[v / 1024];
    var m' := SetEntry(m, t, v % 1024, EntryFor(f));
    EntrySet(m, t, v % 1024, EntryFor(f));
    assert SameFrame(m, m', sp.dir);
    EntrySame(m, m', sp.dir, i);
  }

  lemma LeadsPage(m: seq<Byte>, sp: Space, v: nat, f: nat)
    requires Leads(m, sp) && v / 1024 in sp.tables && Separate(sp) && 1 <= f < PAGES && sp.tables[v / 1024] < PAGES
    ensures Leads(SetEntry(m, sp.tables[v / 1024], v % 1024, EntryFor(f)), AddPage(sp, v, f))
  {
    PageEntry(m, sp, v, f, v);
    EntryLinks(f);
    hide EntryFor, SetEntry, Links, Separate, Shaped;
    var m', sp' := SetEntry(m, sp.tables[v / 1024], v % 1024, EntryFor(f)), AddPage(sp, v, f);
    forall i: nat | i in sp'.tables ensures SlotLeads(m', sp', i) {
      SlotRange(sp, i);
      assert SlotLeads(m, sp, i);
      SlotKept(m, sp, v, f, i);
    }
    forall u: nat | u in sp'.pages ensures PageLeads(m', sp', u) {
      PageHasTable(sp', u);
      PageEntry(m, sp, v, f, u);
      if u != v { assert PageLeads(m, sp, u); }
    }
  }

  lemma CarriesPage(m0: seq<Byte>, m: seq<Byte>, sp: Space, v: nat, f: nat)
    requires Carries(m0, m, sp) && v / 1024 in sp.tables && Separate(sp) && 1 <= f < PAGES
    requires sp.tables[v / 1024] < PAGES
    ensures Carries(m0, SetEntry(m, sp.tables[v / 1024], v % 1024, EntryFor(f)), AddPage(sp, v, f))
  {
    LeadsPage(m, sp, v, f);
    LeadsParts(m, sp);
    LeadsParts(SetEntry(m, sp.tables[v / 1024], v % 1024, EntryFor(f)), AddPage(sp, v, f));
    hide EntryFor, SetEntry, Leads, Separate, Shaped;
    var m', sp' := SetEntry(m, sp.tables[v / 1024], v % 1024, EntryFor(f)), AddPage(sp, v, f);
    forall i: nat | USER_FIRST <= i < 1024 && i !in sp'.tables ensures Entry(m', sp'.dir, i) == 0 {
      SlotKept(m, sp, v, f, i);
    }
    forall u: nat | u / 1024 in sp'.tables && u !in sp'.pages ensures PageWord(m', sp', u) == PageWord(m0, sp', u) {
      PageEntry(m, sp, v, f, u);
      assert PageWord(m, sp, u) == PageWord(m0, sp, u);
    }
  }

  lemma EntryLinks(f: nat)
    requires 1 <= f < PAGES
    ensures Links(EntryFor(f), f)
  {
  }

  lemma CarriesSelf(m: seq<Byte>, sp: Space)
    requires InMemory(m, sp)
    ensures Carries(m, m, sp)
  {
  }

  lemma CarriesSame(m0: seq<Byte>, m: seq<Byte>, m': seq<Byte>, sp: Space, fs: set<nat>)
    requires Carries(m0, m, sp) && SameOutside(m, m', fs) && fs !! Structure(sp)
    ensures Carries(m0, m', sp)
  {
    InMemorySame(m, m', sp, fs);
    hide InMemory;
    InMemoryShape(m, sp);
    forall v: nat | v / 1024 in sp.tables && v !in sp.pages ensures PageWord(m', sp, v) == PageWord(m0, sp, v) {
      PageWordSame(m, m', sp, fs, v);
      assert PageWord(m, sp, v) == PageWord(m0, sp, v);
    }
  }

  /** The entries without a page were below `bound` in `m0`. */
  ghost predicate StaleBelow(m0: seq<Byte>, sp: Space, bound: int)
    requires |m0| == RAM_SIZE && Shaped(sp)
  {
    forall v: nat {:trigger PageWord(m0, sp, v)} :: v / 1024 in sp.tables && v !in sp.pages ==>
        PageWord(m0, sp, v) < bound
  }

  /** Memory holds exactly the space if and only if those entries were zero. */
  lemma CarriesMapsIff(m0: seq<Byte>, m: seq<Byte>, sp: Space)
    requires Carries(m0, m, sp)
    ensures Maps(m, sp) <==> StaleBelow(m0, sp, 1)
  {
    if StaleBelow(m0, sp, 1) {
      forall i: nat | USER_FIRST <= i < 1024 ensures SlotOk(m, sp, i) {
        assert SlotLeads(m, sp, i) || Entry(m, sp.dir, i) == 0;
      }
      forall v: nat | v / 1024 in sp.tables ensures PageOk(m, sp, v) {
        assert PageLeads(m, sp, v) || PageWord(m, sp, v) == PageWord(m0, sp, v);
      }
    }
    if Maps(m, sp) {
      forall v: nat | v / 1024 in sp.tables && v !in sp.pages ensures PageWord(m0, sp, v) < 1 {
        assert PageOk(m, sp, v);
        assert PageWord(m, sp, v) == PageWord(m0, sp, v);
      }
    }
  }

  /** The page walk translates a user address past page zero if and only if the space has its
      page or the stale entry leads there. */
  lemma CarriesMapped(m0: seq<Byte>, m: seq<Byte>, sp: Space, a: int)
    requires Carries(m0, m, sp) && USER_MEMORY_BEGIN <= a < RAM_SIZE
    ensures var v := a / PAGE_SIZE;
      Mapped(m, sp.dir, a) <==> v in sp.pages || (v / 1024 in sp.tables && PageWord(m0, sp, v) >= PAGE_SIZE)
  {
    hide InMemory, Mapped;
    InMemoryMapped(m, sp, a);
    InMemoryShape(m, sp);
    var v := a / PAGE_SIZE;
    assert v / 1024 in sp.tables && v !in sp.pages ==> PageWord(m, sp, v) == PageWord(m0, sp, v);
  }

  /** The entry of page `u` is present. */
  ghost predicate HasPage(m: seq<Byte>, sp: Space, u: nat) {
    |m| == RAM_SIZE && Shaped(sp) && u / 1024 in sp.tables && Present(PageWord(m, sp, u))
  }

  /** The frame that a present entry leads to. */
  ghost function Source(m: seq<Byte>, sp: Space, u: nat): (f: nat)
    ensures f < PAGES
  {
    if HasPage(m, sp, u) then PageWord(m, sp, u) / 4096 else 0
  }

  /** The pages with a present entry. */
  ghost function SeenPages(m: seq<Byte>, sp: Space): set<nat> {
    set u: nat | u < 1024 * 1024 && HasPage(m, sp, u)
  }

  lemma SeenIff(m: seq<Byte>, sp: Space, u: nat)
    ensures u in SeenPages(m, sp) <==> HasPage(m, sp, u)
  {
    if HasPage(m, sp, u) { assert sp.tables[u / 1024] == sp.tables[u / 1024]; }
  }

  /** Every page of a space has a present entry, which leads to the page's frame. */
  lemma PageSeen(m: seq<Byte>, sp: Space, u: nat)
    requires Leads(m, sp) && u in sp.pages
    ensures HasPage(m, sp, u) && Source(m, sp, u) == sp.pages[u] && u < 1024 * 1024
  {
    assert PageLeads(m, sp, u) && sp.pages[u] == sp.pages[u];
    assert sp.tables[u / 1024] == sp.tables[u / 1024];
  }

  /** When memory holds exactly the space these are its pages. */
  lemma ResidentSeen(s: Snap, sp: Space)
    requires Resident(s, sp)
    ensures SeenPages(s.m, sp) == sp.pages.Keys
  {
    MapsLeads(s.m, sp);
    forall u: nat ensures u in SeenPages(s.m, sp) <==> u in sp.pages {
      SeenIff(s.m, sp, u);
      assert HasPage(s.m, sp, u) ==> PageOk(s.m, sp, u);
      if u in sp.pages { PageSeen(s.m, sp, u); }
    }
  }

  /** The entry of page `v`, which the space does not have, is present. */
  ghost predicate Stale(m: seq<Byte>, sp: Space, v: nat) {
    v !in sp.pages && HasPage(m, sp, v)
  }

  /** The frames that such entries lead to. */
  ghost function StaleFrames(m: seq<Byte>, sp: Space): set<nat> {
    set v: nat | v < 1024 * 1024 && Stale(m, sp, v) :: Source(m, sp, v)
  }

  /** The stale entries of a space are those of the frames it got for its tables. */
  lemma CarriesStale(m0: seq<Byte>, m: seq<Byte>, sp: Space)
    requires Carries(m0, m, sp)
    ensures StaleFrames(m, sp) == StaleFrames(m0, sp)
  {
    InMemoryShape(m, sp);
    hide InMemory;
    forall v: nat ensures Stale(m, sp, v) <==> Stale(m0, sp, v)
      ensures Stale(m, sp, v) ==> Source(m, sp, v) == Source(m0, sp, v)
    {
      assert v / 1024 in sp.tables && v !in sp.pages ==> PageWord(m, sp, v) == PageWord(m0, sp, v);
    }
  }

  /** When memory holds exactly the space there are none. */
  lemma ResidentStale(s: Snap, sp: Space)
    requires Resident(s, sp)
    ensures StaleFrames(s.m, sp) == {}
  {
    forall v: nat ensures !Stale(s.m, sp, v) {
      assert v / 1024 in sp.tables ==> PageOk(s.m, sp, v);
    }
  }

  /** The frames of a space built since `s0` are its own and are marked used. */
  ghost predicate Copied(m0: seq<Byte>, s: Snap, sp: Space) {
    Carries(m0, s.m, sp) && Separate(sp) && Owned(sp) <= s.used && KERNEL_DIR !in Owned(sp)
  }

  lemma CopiedParts(m0: seq<Byte>, s: Snap, sp: Space)
    requires Copied(m0, s, sp)
    ensures Carries(m0, s.m, sp) && Separate(sp) && Owned(sp) <= s.used && KERNEL_DIR !in Owned(sp)
  {
  }

  lemma CopiedFrom(m0: seq<Byte>, s: Snap, sp: Space)
    requires Carries(m0, s.m, sp) && Separate(sp) && Owned(sp) <= s.used && KERNEL_DIR !in Owned(sp)
    ensures Copied(m0, s, sp)
  {
  }

  lemma CopiedInPlace(m0: seq<Byte>, s: Snap, sp: Space)
    requires Copied(m0, s, sp)
    ensures InPlace(s, sp)
  {
  }

  lemma InPlaceCopied(s: Snap, sp: Space)
    requires InPlace(s, sp)
    ensures Copied(s.m, s, sp)
  {
  }

  lemma CopiedResidentIff(m0: seq<Byte>, s: Snap, sp: Space)
    requires Copied(m0, s, sp)
    ensures |m0| == RAM_SIZE && Shaped(sp)
    ensures Resident(s, sp) <==> StaleBelow(m0, sp, 1)
  {
    CarriesMapsIff(m0, s.m, sp);
  }
}
