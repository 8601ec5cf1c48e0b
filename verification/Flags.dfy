/** The flags of the entries that alloc_vpages and copy_memory write: present, writable, user,
    accessed and copy-on-write, and not dirty. */
module Flags {
  import opened PhysMem
  import opened Bitmap
  import opened Paging
  import opened Spaces
  import opened Recycled
  import opened Growth
  import opened Frames
  import opened MapSteps

  /** The directory entries of the tables `ts` and the table entries of the pages `us` read the address
      of their frame with these flags: 1 + 2 + 4 + 0x20 + 0x200. */
  ghost predicate Flagged(m: seq<Byte>, sp: Space, ts: set<nat>, us: set<nat>) {
    && |m| == RAM_SIZE && Shaped(sp)
    && (forall i {:trigger i in ts} :: i in ts ==>
          i in sp.tables && i < 1024 && sp.dir < PAGES && Entry(m, sp.dir, i) == sp.tables[i] * 4096 + 0x227)
    && (forall u {:trigger u in us} :: u in us ==>
          u in sp.pages && u / 1024 in sp.tables && PageWord(m, sp, u) == sp.pages[u] * 4096 + 0x227)
  }

  lemma FlaggedNone(m: seq<Byte>, sp: Space)
    requires |m| == RAM_SIZE && Shaped(sp)
    ensures Flagged(m, sp, {}, {})
  {
  }

  lemma FlaggedAt(m: seq<Byte>, sp: Space, ts: set<nat>, us: set<nat>, u: nat)
    requires Flagged(m, sp, ts, us) && u in us
    ensures |m| == RAM_SIZE && Shaped(sp) && u in sp.pages && u / 1024 in sp.tables && sp.tables[u / 1024] < PAGES
    ensures Entry(m, sp.tables[u / 1024], u % 1024) == sp.pages[u] * 4096 + 0x227
  {
    assert sp.tables[u / 1024] == sp.tables[u / 1024];
    assert PageWord(m, sp, u) == sp.pages[u] * 4096 + 0x227;
  }

  lemma EntryForIs(f: nat)
    requires 1 <= f < PAGES
    ensures EntryFor(f) == f * 4096 + 0x227
  {
  }

  lemma FlaggedTable(m: seq<Byte>, sp: Space, ts: set<nat>, us: set<nat>, i: nat, t: nat)
    requires Flagged(m, sp, ts, us) && Separate(sp) && i !in sp.tables && USER_FIRST <= i < 1024 && sp.dir < PAGES
    requires 1 <= t < PAGES && t !in Owned(sp)
    ensures Flagged(SetEntry(m, sp.dir, i, EntryFor(t)), AddTable(sp, i, t), ts + {i}, us)
  {
    var m', sp' := SetEntry(m, sp.dir, i, EntryFor(t)), AddTable(sp, i, t);
    EntryForIs(t);
    TableEntry(m, sp, i, t, 1024 * i);
    hide EntryFor, SetEntry, Separate, Owned, Shaped, PageWord, SameOutside;
    EntrySet(m, sp.dir, i, EntryFor(t));
    forall j | j in ts + {i}
      ensures j in sp'.tables && j < 1024 && Entry(m', sp'.dir, j) == sp'.tables[j] * 4096 + 0x227
    {
    }
    forall u | u in us
      ensures u in sp'.pages && u / 1024 in sp'.tables && PageWord(m', sp', u) == sp'.pages[u] * 4096 + 0x227
    {
      TableEntry(m, sp, i, t, u);
    }
  }

  lemma FlaggedPage(m: seq<Byte>, sp: Space, ts: set<nat>, us: set<nat>, v: nat, f: nat)
    requires Flagged(m, sp, ts, us) && Separate(sp) && v / 1024 in sp.tables && sp.tables[v / 1024] < PAGES
    requires 1 <= f < PAGES
    ensures Flagged(SetEntry(m, sp.tables[v / 1024], v % 1024, EntryFor(f)), AddPage(sp, v, f), ts, us + {v})
  {
    var m', sp' := SetEntry(m, sp.tables[v / 1024], v % 1024, EntryFor(f)), AddPage(sp, v, f);
    EntryForIs(f);
    PageEntry(m, sp, v, f, v);
    hide EntryFor, SetEntry, Separate;
    forall j | j in ts
      ensures j in sp'.tables && j < 1024 && Entry(m', sp'.dir, j) == sp'.tables[j] * 4096 + 0x227
    {
      SlotKept(m, sp, v, f, j);
    }
    forall u | u in us + {v}
      ensures u in sp'.pages && u / 1024 in sp'.tables && PageWord(m', sp', u) == sp'.pages[u] * 4096 + 0x227
    {
      PageEntry(m, sp, v, f, u);
    }
  }

  lemma FlaggedSame(m: seq<Byte>, m': seq<Byte>, sp: Space, ts: set<nat>, us: set<nat>, fs: set<nat>)
    requires Flagged(m, sp, ts, us) && SameOutside(m, m', fs) && fs !! Structure(sp)
    ensures Flagged(m', sp, ts, us)
  {
    assert sp.dir in Structure(sp);
    forall i | i in ts
      ensures i in sp.tables && i < 1024 && Entry(m', sp.dir, i) == sp.tables[i] * 4096 + 0x227
    {
      assert SameFrame(m, m', sp.dir);
      EntrySame(m, m', sp.dir, i);
    }
    hide SameOutside, Structure;
    forall u | u in us
      ensures u in sp.pages && u / 1024 in sp.tables && PageWord(m', sp, u) == sp.pages[u] * 4096 + 0x227
    {
      PageWordSame(m, m', sp, fs, u);
    }
  }

  // ---------------------------------------------------------------- what a call writes

  /** The directory slot that a call fills, if any. */
  ghost function MadeSlot(sp: Space, sp': Space, i: nat): set<nat> {
    if i !in sp.tables && i in sp'.tables then {i} else {}
  }

  lemma TableFlagged(s: Snap, sp: Space, v: nat, nbits: int)
    requires InPlace(s, sp) && 0 in s.used && KERNEL_DIR in s.used && nbits <= PAGES
    requires USER_FIRST <= v / 1024 < 1024
    ensures var r := TableStep(s, sp, v / 1024, nbits); Flagged(r.s.m, r.sp, MadeSlot(sp, r.sp, v / 1024), {})
  {
    hide *;
    InPlaceParts(s, sp);
    TableStepIs(s, sp, v / 1024, nbits);
    FlaggedNone(s.m, sp);
    MadeIs(sp, sp, v / 1024);
    if v / 1024 !in sp.tables {
      ReadyFrame(s, sp, v / 1024, nbits);
      var f := NextFrame(s.used, nbits);
      if f != -1 {
        FreeNotOwned(s, sp, f);
        FlaggedTable(s.m, sp, {}, {}, v / 1024, f);
        AddTableSlot(sp, v / 1024, f);
        MadeIs(sp, AddTable(sp, v / 1024, f), v / 1024);
      }
    }
  }

  lemma MadeIs(sp: Space, sp': Space, i: nat)
    ensures MadeSlot(sp, sp', i) == if i !in sp.tables && i in sp'.tables then {i} else {}
    ensures {} + {i} == {i}
  {
  }

  lemma AddTableSlot(sp: Space, i: nat, t: nat)
    ensures i in AddTable(sp, i, t).tables && ENOMEM == 9
  {
  }

  lemma FreeNotOwned(s: Snap, sp: Space, f: nat)
    requires InPlace(s, sp) && f !in s.used
    ensures f !in Owned(sp)
  {
  }

  /** The words that the loop wrote are those of the pages in order. */
  lemma WordsOfPages(s1: Snap, sp1: Space, s: Snap, sp: Space, v: nat, k: nat, used: set<nat>, nbits: int)
    requires |s.m| == RAM_SIZE && |s1.m| == RAM_SIZE && Leads(s.m, sp) && sp.tables == sp1.tables && sp.dir == sp1.dir
    requires Separate(sp)
    requires v / 1024 in sp.tables && v % 1024 + k <= 1024
    requires forall u: nat :: v <= u < v + k ==> u in sp.pages
    requires var pte := EntryAddress(sp1, v);
      && pte + 4 * k <= RAM_SIZE
      && (forall x {:trigger s.m[x]} :: 0 <= x < RAM_SIZE && !(pte <= x < pte + 4 * k) ==> s.m[x] == s1.m[x])
      && (forall j: nat {:trigger EntryGets(used, nbits, j)} :: j < k ==>
            Word(s.m, pte + 4 * j) == EntryGets(used, nbits, j) * 4096 + 0x227)
    ensures forall u: nat :: v <= u < v + k ==>
        u in sp.pages && u / 1024 in sp.tables && Shaped(sp) && PageWord(s.m, sp, u) == sp.pages[u] * 4096 + 0x227
    ensures sp.dir < PAGES && SameFrame(s1.m, s.m, sp.dir)
  {
    LeadsParts(s.m, sp);
    TableAddress(sp, v);
    hide Word, EntryGets, Separate, Shaped;
    forall u: nat | v <= u < v + k
      ensures u / 1024 in sp.tables && PageWord(s.m, sp, u) == sp.pages[u] * 4096 + 0x227
    {
      var j := u - v;
      assert u / 1024 == v / 1024 && u % 1024 == v % 1024 + j;
      var g := EntryGets(used, nbits, j);
      assert Word(s.m, EntryAddress(sp1, v) + 4 * j) == g * 4096 + 0x227;
      assert EntryAddress(sp1, v) + 4 * j == sp.tables[u / 1024] * 4096 + 4 * (u % 1024);
      assert PageLeads(s.m, sp, u);
      assert PageWord(s.m, sp, u) == g * 4096 + 0x227;
      LinkedWord(PageWord(s.m, sp, u), sp.pages[u], g);
    }
  }

  lemma LinkedWord(w: int, f: nat, g: int)
    requires Links(w, f) && w == g * 4096 + 0x227
    ensures g == f
  {
  }

  lemma TableAddress(sp: Space, v: nat)
    requires Shaped(sp) && Separate(sp) && v / 1024 in sp.tables
    ensures 1 <= sp.tables[v / 1024] < PAGES && sp.tables[v / 1024] != sp.dir
    ensures EntryAddress(sp, v) == sp.tables[v / 1024] * 4096 + 4 * (v % 1024)
  {
  }

  lemma FlaggedFrom(s1: Snap, sp1: Space, s: Snap, sp: Space, ts: set<nat>, v: nat, k: nat)
    requires Flagged(s1.m, sp1, ts, {}) && |s.m| == RAM_SIZE && Shaped(sp)
    requires sp.tables == sp1.tables && sp.dir == sp1.dir && SameFrame(s1.m, s.m, sp.dir)
    requires forall u: nat :: v <= u < v + k ==>
        u in sp.pages && u / 1024 in sp.tables && PageWord(s.m, sp, u) == sp.pages[u] * 4096 + 0x227
    ensures Flagged(s.m, sp, ts, Run(v, k))
  {
    hide PageWord, SameFrame;
    forall i | i in ts
      ensures i in sp.tables && i < 1024 && sp.dir < PAGES && Entry(s.m, sp.dir, i) == sp.tables[i] * 4096 + 0x227
    {
      EntrySame(s1.m, s.m, sp.dir, i);
    }
  }

  /** After a call every page entered, and the table made for them, is entered with exactly these
      flags, whatever the frames held and whether or not the call succeeded. */
  lemma CallFlags(s: Snap, sp: Space, addr: nat, size: nat, nbits: int)
    requires InPlace(s, sp) && 0 in s.used && KERNEL_DIR in s.used && nbits <= PAGES && InOneTable(addr, size)
    ensures var r, v := AllocStep(s, sp, addr, size, nbits), addr / 4096;
      Flagged(r.s.m, r.sp, MadeSlot(sp, r.sp, v / 1024), Run(v, Written(s, sp, addr, size, nbits)))
  {
    hide *;
    var v, n, k := addr / 4096, PageCount(size), Written(s, sp, addr, size, nbits);
    RequestPages(addr, size);
    InPlaceParts(s, sp);
    AllocStepIs(s, sp, addr, size, nbits);
    AllocMeaning(s, sp, addr, size, nbits);
    WrittenIs(s, sp, addr, size, nbits);
    NoRange(v);
    TableFlagged(s, sp, v, nbits);
    TableGrown(s, sp, v, nbits);
    var t, r := TableStep(s, sp, v / 1024, nbits), AllocStep(s, sp, addr, size, nbits);
    if t.err == 0 && !Refused(s, sp, v, nbits) {
      MinIs(n, |FreeFrames(t.s.used, nbits)|);
      GrownParts(s, sp, t.s, t.sp);
      InPlaceParts(t.s, t.sp);
      MeansEntered(s, sp, addr, size, nbits, r);
      InPlaceParts(r.s, r.sp);
      TableAddress(t.sp, v);
      RawIsPages(t.s, t.sp, v, n, nbits);
      PagesKeepTables(t.s, t.sp, v, n, nbits);
      PagesKeepDir(t.s, t.sp, v, n, nbits);
      EntriesFitTable(t.sp.tables[v / 1024], v, n, k);
      RawWrites(t.s, EntryAddress(t.sp, v), n, nbits);
      WordsOfPages(t.s, t.sp, r.s, r.sp, v, k, t.s.used, nbits);
      FlaggedFrom(t.s, t.sp, r.s, r.sp, MadeSlot(sp, t.sp, v / 1024), v, k);
      MadeIs(sp, t.sp, v / 1024);
      MadeIs(sp, r.sp, v / 1024);
    }
  }

  lemma NoRange(v: nat)
    ensures Run(v, 0) == {}
  {
  }

  lemma EntriesFitTable(t: nat, v: nat, n: nat, k: nat)
    requires t < PAGES && v % 1024 + n <= 1024 && k <= n
    ensures t * 4096 + 4 * (v % 1024) + 4 * k <= RAM_SIZE
  {
  }

  lemma MeansEntered(s: Snap, sp: Space, addr: nat, size: nat, nbits: int, r: Mapping)
    requires AllocMeans(s, sp, addr, size, nbits, r)
    requires addr / 4096 / 1024 in sp.tables || |FreeFrames(s.used, nbits)| > 0
    ensures var v, k := addr / 4096, Written(s, sp, addr, size, nbits);
      && InPlace(r.s, r.sp) && (forall u: nat :: v <= u < v + k ==> u in r.sp.pages)
  {
    GrownParts(s, Cleared(sp, addr / 4096, Written(s, sp, addr, size, nbits)), r.s, r.sp);
    hide Grown, Cleared, Written, Refused, FramesNeeded, FreeFrames, InPlace;
  }

  lemma {:induction false} PagesKeepDir(s: Snap, sp: Space, v: nat, n: nat, nbits: int)
    ensures PagesStep(s, sp, v, n, nbits).sp.dir == sp.dir
    decreases n
  {
    if n > 0 {
      var r := PageStep(s, sp, v, nbits);
      if r.err == 0 { PagesKeepDir(r.s, r.sp, v + 1, n - 1, nbits); }
    }
  }
}
