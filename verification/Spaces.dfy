/** Growing an address space by one table or one page. */
module Spaces {
  import opened PhysMem
  import opened Bitmap
  import opened Paging

  function AddTable(sp: Space, i: nat, t: nat): Space {
    sp.(tables := sp.tables[i := t])
  }

  function AddPage(sp: Space, v: nat, f: nat): Space {
    sp.(pages := sp.pages[v := f])
  }

  /** A page-aligned frame address with the flags or-ed in is a present entry. */
  function EntryFor(f: nat): (w: int)
    requires 1 <= f < PAGES
    ensures Links(w, f) && 0 < w < RAM_SIZE && AlignDown(w) == f * 4096
  {
    f * 4096 + PAGE_SHARED
  }

  /** Everything the first space says, the second says. */
  ghost predicate Extends(sp: Space, sp': Space) {
    && sp'.dir == sp.dir
    && (forall i {:trigger sp'.tables[i]} {:trigger sp.tables[i]} :: i in sp.tables ==>
        i in sp'.tables && sp'.tables[i] == sp.tables[i])
    && (forall v {:trigger sp'.pages[v]} {:trigger sp.pages[v]} :: v in sp.pages ==>
        v in sp'.pages && sp'.pages[v] == sp.pages[v])
  }

  lemma SeparateAddTable(sp: Space, i: nat, t: nat)
    requires Separate(sp) && i !in sp.tables && t !in Owned(sp)
    ensures Separate(AddTable(sp, i, t)) && Extends(sp, AddTable(sp, i, t))
  {
    assert forall j :: j in sp.tables ==> sp.tables[j] in Owned(sp);
    assert forall v :: v in sp.pages ==> sp.pages[v] in Owned(sp);
  }

  lemma SeparateAddPage(sp: Space, v: nat, f: nat)
    requires Separate(sp) && v !in sp.pages && f !in Owned(sp)
    ensures Separate(AddPage(sp, v, f)) && Extends(sp, AddPage(sp, v, f))
  {
    assert forall j :: j in sp.tables ==> sp.tables[j] in Owned(sp);
    assert forall u :: u in sp.pages ==> sp.pages[u] in Owned(sp);
  }

  lemma AddTableMaps(m: seq<Byte>, sp: Space, i: nat, t: nat)
    requires Maps(m, sp) && Separate(sp) && USER_FIRST <= i < 1024 && i !in sp.tables
    requires 1 <= t < PAGES && t !in Owned(sp) && ZeroFrame(m, t)
    ensures Maps(SetEntry(m, sp.dir, i, EntryFor(t)), AddTable(sp, i, t))
  {
    hide EntryFor, SetEntry, Links;
    var m', sp' := SetEntry(m, sp.dir, i, EntryFor(t)), AddTable(sp, i, t);
    EntrySet(m, sp.dir, i, EntryFor(t));
    forall j: nat | USER_FIRST <= j < 1024 ensures SlotOk(m', sp', j) { assert SlotOk(m, sp, j); }
    forall v: nat | v / 1024 in sp'.tables ensures PageOk(m', sp', v) {
      var u := sp'.tables[v / 1024];
      assert u != sp.dir && SameFrame(m, m', u);
      EntrySame(m, m', u, v % 1024);
      if v / 1024 == i {
        assert v !in sp.pages;
      } else {
        assert PageOk(m, sp, v);
      }
    }
  }

  /** Putting a new table into an empty directory slot. The result is the same space with an
      empty table exactly when the frame taken for the table read as zero. */
  lemma AddTableMapsIff(m: seq<Byte>, sp: Space, i: nat, t: nat)
    requires Maps(m, sp) && Separate(sp) && USER_FIRST <= i < 1024 && i !in sp.tables
    requires 1 <= t < PAGES && t !in Owned(sp)
    ensures Maps(SetEntry(m, sp.dir, i, EntryFor(t)), AddTable(sp, i, t)) <==> ZeroFrame(m, t)
  {
    hide EntryFor, SetEntry, Links;
    var m', sp' := SetEntry(m, sp.dir, i, EntryFor(t)), AddTable(sp, i, t);
    EntrySet(m, sp.dir, i, EntryFor(t));
    if ZeroFrame(m, t) { AddTableMaps(m, sp, i, t); }
    if Maps(m', sp') {
      forall k: nat | k < 1024 ensures Entry(m, t, k) == 0 {
        assert SameFrame(m, m', t);
        EntrySame(m, m', t, k);
        var v := 1024 * i + k;
        assert v / 1024 == i && v % 1024 == k && v !in sp.pages;
        assert PageOk(m', sp', v);
      }
    }
  }

  lemma OwnedAddTable(sp: Space, i: nat, t: nat)
    requires i !in sp.tables
    ensures Owned(AddTable(sp, i, t)) == Owned(sp) + {t} && Structure(AddTable(sp, i, t)) == Structure(sp) + {t}
  {
    var sp' := AddTable(sp, i, t);
    assert sp'.tables.Values == sp.tables.Values + {t} by {
      assert sp'.tables[i] == t;
      forall x | x in sp.tables.Values ensures x in sp'.tables.Values {
        var j :| j in sp.tables && sp.tables[j] == x;
        assert sp'.tables[j] == x;
      }
    }
  }

  lemma OwnedAddPage(sp: Space, v: nat, f: nat)
    requires v !in sp.pages
    ensures Owned(AddPage(sp, v, f)) == Owned(sp) + {f} && Structure(AddPage(sp, v, f)) == Structure(sp)
  {
    var sp' := AddPage(sp, v, f);
    assert sp'.pages.Values == sp.pages.Values + {f} by {
      assert sp'.pages[v] == f;
      forall x | x in sp.pages.Values ensures x in sp'.pages.Values {
        var u :| u in sp.pages && sp.pages[u] == x;
        assert sp'.pages[u] == x;
      }
    }
  }

  /** Writing a table entry maps one page, whether or not the entry was in use. */
  lemma AddPageMaps(m: seq<Byte>, sp: Space, v: nat, f: nat)
    requires Maps(m, sp) && v / 1024 in sp.tables
    requires Separate(sp) && 1 <= f < PAGES
    ensures Maps(SetEntry(m, sp.tables[v / 1024], v % 1024, EntryFor(f)), AddPage(sp, v, f))
  {
    hide SetEntry, Links;
    var w, t := EntryFor(f), sp.tables[v / 1024];
    var m', sp' := SetEntry(m, t, v % 1024, w), AddPage(sp, v, f);
    EntrySet(m, t, v % 1024, w);
    forall i: nat | USER_FIRST <= i < 1024 ensures SlotOk(m', sp', i) {
      assert SlotOk(m, sp, i) && SameFrame(m, m', sp.dir);
      EntrySame(m, m', sp.dir, i);
    }
    forall u: nat | u / 1024 in sp'.tables ensures PageOk(m', sp', u) {
      assert PageOk(m, sp, u);
      var x := sp.tables[u / 1024];
      if x != t {
        assert SameFrame(m, m', x);
        EntrySame(m, m', x, u % 1024);
      } else {
        assert u / 1024 == v / 1024;
        assert u != v ==> u % 1024 != v % 1024;
      }
    }
  }

  // ---------------------------------------------------------------- pages given up

  /** The space without page `v`. */
  function Dropped(sp: Space, v: nat): Space {
    sp.(pages := map u | u in sp.pages && u != v :: sp.pages[u])
  }

  /** The space without the pages `v`, ..., `v + n - 1`. */
  function Cleared(sp: Space, v: nat, n: nat): Space {
    sp.(pages := map u | u in sp.pages && !(v <= u < v + n) :: sp.pages[u])
  }

  /** The frames of the pages `v`, ..., `v + n - 1`. */
  ghost function Lost(sp: Space, v: nat, n: nat): set<nat> {
    set u | u in sp.pages && v <= u < v + n :: sp.pages[u]
  }

  ghost predicate Absent(sp: Space, v: int, n: int) {
    forall u {:trigger u in sp.pages} :: v <= u < v + n ==> u !in sp.pages
  }

  lemma ClearedStep(sp: Space, v: nat, n: nat)
    ensures Cleared(sp, v, 0) == sp && Cleared(sp, v, n + 1) == Dropped(Cleared(sp, v, n), v + n)
  {
    assert Cleared(sp, v, 0).pages == sp.pages;
    assert Cleared(sp, v, n + 1).pages == Dropped(Cleared(sp, v, n), v + n).pages;
  }

  lemma DroppedOwned(sp: Space, v: nat)
    requires Separate(sp)
    ensures Owned(Dropped(sp, v)) == Owned(sp) - (if v in sp.pages then {sp.pages[v]} else {})
    ensures Structure(Dropped(sp, v)) == Structure(sp) && Separate(Dropped(sp, v))
  {
    var sp' := Dropped(sp, v);
    assert sp'.pages.Values == sp.pages.Values - (if v in sp.pages then {sp.pages[v]} else {}) by {
      forall u | u in sp'.pages ensures sp'.pages[u] == sp.pages[u] {}
      forall x | x in sp.pages.Values && !(v in sp.pages && x == sp.pages[v]) ensures x in sp'.pages.Values {
        var u :| u in sp.pages && sp.pages[u] == x;
        assert sp'.pages[u] == x;
      }
    }
  }

  /** Giving up a range of pages gives up exactly their frames. */
  lemma {:induction false} ClearedOwned(sp: Space, v: nat, n: nat)
    requires Separate(sp)
    ensures Separate(Cleared(sp, v, n)) && Structure(Cleared(sp, v, n)) == Structure(sp)
    ensures Owned(Cleared(sp, v, n)) == Owned(sp) - Lost(sp, v, n) && Lost(sp, v, n) <= Owned(sp)
  {
    hide *;
    LostStep(sp, v, 0);
    ClearedStep(sp, v, 0);
    if n > 0 {
      ClearedOwned(sp, v, n - 1);
      ClearedStep(sp, v, n - 1);
      DroppedOwned(Cleared(sp, v, n - 1), v + n - 1);
      LostStep(sp, v, n - 1);
    }
  }

  lemma LostStep(sp: Space, v: nat, n: nat)
    ensures var c := Cleared(sp, v, n);
      && Lost(sp, v, n + 1) == Lost(sp, v, n) + (if v + n in c.pages then {c.pages[v + n]} else {})
      && (v + n in c.pages ==> c.pages[v + n] in Owned(sp))
    ensures Lost(sp, v, 0) == {}
  {
  }

  /** Nothing is given up exactly when the range is absent. */
  lemma LostNone(sp: Space, v: nat, n: nat)
    ensures Lost(sp, v, n) == {} <==> Absent(sp, v, n)
    ensures Absent(sp, v, n) ==> Cleared(sp, v, n) == sp
  {
    if !Absent(sp, v, n) {
      var u :| u in sp.pages && v <= u < v + n;
      assert sp.pages[u] in Lost(sp, v, n);
    } else {
      assert Cleared(sp, v, n).pages == sp.pages;
    }
  }

  // ---------------------------------------------------------------- growth with its frames

  /** Physical memory and the set of pages marked used. */
  datatype Snap = Snap(m: seq<Byte>, used: set<nat>)

  /** The space is in memory, and its frames are marked used. */
  ghost predicate Resident(s: Snap, sp: Space) {
    Maps(s.m, sp) && Separate(sp) && Owned(sp) <= s.used && KERNEL_DIR !in Owned(sp)
  }

  /** The same, whatever the entries without a page hold. */
  ghost predicate InPlace(s: Snap, sp: Space) {
    InMemory(s.m, sp) && Separate(sp) && Owned(sp) <= s.used && KERNEL_DIR !in Owned(sp)
  }

  lemma ResidentInPlace(s: Snap, sp: Space)
    requires Resident(s, sp)
    ensures InPlace(s, sp)
  {
    MapsInMemory(s.m, sp);
  }

  lemma InPlaceParts(s: Snap, sp: Space)
    requires InPlace(s, sp)
    ensures InMemory(s.m, sp) && Leads(s.m, sp) && Shaped(sp) && Separate(sp) && Owned(sp) <= s.used
    ensures KERNEL_DIR !in Owned(sp) && |s.m| == RAM_SIZE && 1 <= sp.dir < PAGES
    ensures forall i {:trigger sp.tables[i]} :: i in sp.tables ==> sp.tables[i] < PAGES
  {
  }

  lemma InPlaceFrom(s: Snap, sp: Space)
    requires InMemory(s.m, sp) && Separate(sp) && Owned(sp) <= s.used && KERNEL_DIR !in Owned(sp)
    ensures InPlace(s, sp)
  {
  }

  /** A page's frame is in use, and is not one the page walk reads. */
  lemma PagesAside(s: Snap, sp: Space, u: nat)
    requires InPlace(s, sp) && u in sp.pages
    ensures sp.pages[u] in Owned(sp) && sp.pages[u] in s.used && sp.pages[u] !in Structure(sp) && sp.pages[u] < PAGES
  {
    assert sp.pages[u] == sp.pages[u];
  }

  lemma SameOutsideMore(m: seq<Byte>, m': seq<Byte>, fs: set<nat>, gs: set<nat>)
    requires SameOutside(m, m', fs) && fs <= gs
    ensures SameOutside(m, m', gs)
  {
  }

  lemma TableInStructure(sp: Space, i: nat)
    requires i in sp.tables
    ensures sp.tables[i] in Structure(sp)
  {
  }

}
