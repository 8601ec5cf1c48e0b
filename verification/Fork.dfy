/** copy_memory: the address space of a forked child. */
module Fork {
  import opened PhysMem
  import opened Bitmap
  import opened Paging
  import opened Spaces
  import opened Frames
  import opened MapSteps
  import opened Flags
  import opened Recycled
  import opened Growth
  import opened AddressSpace

  function ByteIn(m: seq<Byte>, f: nat, k: nat): Byte
    requires |m| == RAM_SIZE && f < PAGES && k < 4096
  {
    m[f * 4096 + k]
  }

  /** Frames `f` and `g` hold the same 4096 bytes. */
  ghost predicate SamePage(m: seq<Byte>, f: nat, g: nat) {
    && |m| == RAM_SIZE && f < PAGES && g < PAGES
    && forall k: nat {:trigger ByteIn(m, f, k)} {:trigger ByteIn(m, g, k)} :: k < 4096 ==>
        ByteIn(m, f, k) == ByteIn(m, g, k)
  }

  // ---------------------------------------------------------------- copying

  /** The frame `g` was in use at `s0`, and is neither page zero nor the child's directory. */
  ghost predicate Settled(s0: Snap, csp: Space, g: nat) {
    g in s0.used && g != 0 && g != csp.dir
  }

  /** The child's page `u` holds what the parent's entry of `u` leads to, if that is settled. */
  ghost predicate PageFrom(s0: Snap, psp: Space, m: seq<Byte>, csp: Space, u: nat) {
    u in csp.pages && (Settled(s0, csp, Source(s0.m, psp, u)) ==>
                         SamePage(m, csp.pages[u], Source(s0.m, psp, u)))
  }

  /** The child `csp` has copies of the parent's tables below slot `i`, and of what its present
      entries below page `v` lead to; its frames, besides its directory, were free at `s0`, and
      no other frame has been written since. */
  ghost predicate Cloning(s0: Snap, psp: Space, s: Snap, csp: Space, i: nat, v: nat) {
    && Copied(s0.m, s, csp) && InPlace(s0, psp) && csp.dir !in Owned(psp)
    && s.used == s0.used + Owned(csp) && Owned(csp) * s0.used == {csp.dir}
    && SameOutside(s0.m, s.m, Owned(csp))
    && (forall k {:trigger k in csp.tables} :: k in csp.tables <==> k in psp.tables && k < i)
    && (forall u: nat {:trigger u in csp.pages} :: u in csp.pages <==> HasPage(s0.m, psp, u) && u < v)
    && (forall u {:trigger csp.pages[u]} :: u in csp.pages ==> PageFrom(s0, psp, s.m, csp, u))
    && AllFlagged(s.m, csp)
  }

  /** Every entry of the space has the flags that alloc_vpages gives its entries. */
  ghost predicate AllFlagged(m: seq<Byte>, sp: Space) {
    Flagged(m, sp, sp.tables.Keys, sp.pages.Keys)
  }

  lemma CloningStart(s: Snap, psp: Space, f: nat)
    requires InPlace(s, psp) && InPlace(s, EmptySpace(f)) && f !in Owned(psp)
    ensures Cloning(s, psp, s, EmptySpace(f), USER_FIRST, 1024 * USER_FIRST) && EmptySpace(f).dir == f
  {
    hide *;
    var csp := EmptySpace(f);
    InPlaceParts(s, psp);
    InPlaceParts(s, csp);
    InPlaceCopied(s, csp);
    EmptyOwned(s, f);
    NoneFlagged(s.m, csp);
    forall k {:trigger k in csp.tables} ensures k in csp.tables <==> k in psp.tables && k < USER_FIRST {
      UserTable(psp, k);
    }
    forall u: nat {:trigger u in csp.pages}
      ensures u in csp.pages <==> HasPage(s.m, psp, u) && u < 1024 * USER_FIRST
    {
      SeenTable(s.m, psp, u);
      UserTable(psp, u / 1024);
    }
    CloningFrom(s, psp, s, csp, USER_FIRST, 1024 * USER_FIRST);
  }

  lemma UserTable(sp: Space, k: int)
    requires Shaped(sp)
    ensures k in sp.tables ==> k >= USER_FIRST
  {
    assert k in sp.tables ==> sp.tables[k] == sp.tables[k];
  }

  lemma EmptyOwned(s: Snap, f: nat)
    requires |s.m| == RAM_SIZE && Owned(EmptySpace(f)) <= s.used
    ensures var csp := EmptySpace(f);
      && csp.dir == f && csp.tables == map[] && csp.pages == map[] && Owned(csp) == {f}
      && s.used == s.used + Owned(csp) && Owned(csp) * s.used == {csp.dir} && SameOutside(s.m, s.m, Owned(csp))
  {
    assert Owned(EmptySpace(f)) == {f};
  }

  lemma NoneFlagged(m: seq<Byte>, sp: Space)
    requires |m| == RAM_SIZE && Shaped(sp) && sp.tables == map[] && sp.pages == map[]
    ensures AllFlagged(m, sp)
  {
    FlaggedNone(m, sp);
  }

  lemma CloningParts(s0: Snap, psp: Space, s: Snap, csp: Space, i: nat, v: nat)
    requires Cloning(s0, psp, s, csp, i, v)
    ensures Carries(s0.m, s.m, csp) && Separate(csp) && Owned(csp) <= s.used && KERNEL_DIR !in Owned(csp)
    ensures Copied(s0.m, s, csp) && InPlace(s0, psp) && Owned(csp) * s0.used == {csp.dir} && csp.dir !in Owned(psp)
    ensures s0.used <= s.used && s.used == s0.used + Owned(csp) && SameOutside(s0.m, s.m, Owned(csp))
    ensures |s0.m| == RAM_SIZE && |s.m| == RAM_SIZE && Shaped(psp) && Owned(psp) <= s0.used && AllFlagged(s.m, csp)
  {
    InPlaceParts(s0, psp);
  }

  /** The parent is in memory as it was. */
  lemma ParentStays(s0: Snap, psp: Space, s: Snap, csp: Space, i: nat, v: nat)
    requires Cloning(s0, psp, s, csp, i, v)
    ensures InPlace(s, psp) && Owned(csp) !! Structure(psp)
  {
    hide *;
    CloningParts(s0, psp, s, csp, i, v);
    InPlaceParts(s0, psp);
    Apart(psp, csp, s0.used);
    InMemorySame(s0.m, s.m, psp, Owned(csp));
    InPlaceFrom(s, psp);
  }

  /** Parent and child share no frame. */
  lemma Apart(psp: Space, csp: Space, used: set<nat>)
    requires Owned(psp) <= used && Owned(csp) * used == {csp.dir} && csp.dir !in Owned(psp)
    ensures Owned(psp) !! Owned(csp) && Owned(csp) !! Structure(psp)
  {
    hide Owned, Structure;
    ApartSets(Owned(psp), Owned(csp), used, csp.dir);
    StructureOwned(psp);
  }

  /** What the walk over the parent reads. */
  lemma ParentSlot(m: seq<Byte>, sp: Space, i: nat, w: int)
    requires InMemory(m, sp) && USER_FIRST <= i < 1024 && sp.dir * 4096 + 4 * i + 4 <= |m|
    requires w == Word(m, sp.dir * 4096 + 4 * i)
    ensures Present(w) <==> i in sp.tables
    ensures i in sp.tables ==> AlignDown(w) == sp.tables[i] * 4096 && sp.tables[i] * 4096 + 4096 <= RAM_SIZE
  {
    assert w == Entry(m, sp.dir, i);
    if i in sp.tables { assert SlotLeads(m, sp, i) && sp.tables[i] == sp.tables[i]; }
  }

  lemma CloningKeys(s0: Snap, psp: Space, s: Snap, csp: Space, i: nat, v: nat)
    requires Cloning(s0, psp, s, csp, i, v)
    ensures forall k {:trigger k in csp.tables} :: k in csp.tables <==> k in psp.tables && k < i
    ensures forall u: nat {:trigger u in csp.pages} :: u in csp.pages <==> HasPage(s0.m, psp, u) && u < v
    ensures forall u {:trigger csp.pages[u]} :: u in csp.pages ==> PageFrom(s0, psp, s.m, csp, u)
  {
    hide InPlace, Copied, Owned, SameOutside, PageFrom, HasPage, AllFlagged;
  }

  lemma SkipSlot(s0: Snap, psp: Space, s: Snap, csp: Space, i: nat)
    requires Cloning(s0, psp, s, csp, i, 1024 * i) && i !in psp.tables
    ensures Cloning(s0, psp, s, csp, i + 1, 1024 * (i + 1))
  {
    hide *;
    CloningParts(s0, psp, s, csp, i, 1024 * i);
    CloningKeys(s0, psp, s, csp, i, 1024 * i);
    forall u: nat {:trigger u in csp.pages} ensures u in csp.pages <==> HasPage(s0.m, psp, u) && u < 1024 * (i + 1) {
      SeenTable(s0.m, psp, u);
    }
    CloningFrom(s0, psp, s, csp, i + 1, 1024 * (i + 1));
  }

  lemma SeenTable(m: seq<Byte>, sp: Space, u: nat)
    ensures HasPage(m, sp, u) ==> u / 1024 in sp.tables
  {
  }

  lemma SkipPage(s0: Snap, psp: Space, s: Snap, csp: Space, i: nat, v: nat)
    requires Cloning(s0, psp, s, csp, i, v) && !HasPage(s0.m, psp, v)
    ensures Cloning(s0, psp, s, csp, i, v + 1)
  {
    hide InPlace, Copied, Owned, SameOutside, PageFrom, HasPage, AllFlagged;
  }

  lemma SameByte(m: seq<Byte>, m': seq<Byte>, f: nat, k: nat)
    requires |m| == RAM_SIZE && |m'| == RAM_SIZE && f < PAGES && k < 4096 && SameFrame(m, m', f)
    ensures ByteIn(m', f, k) == ByteIn(m, f, k)
  {
  }

  lemma SamePageKept(m: seq<Byte>, m': seq<Byte>, f: nat, g: nat)
    requires SamePage(m, f, g) && |m'| == RAM_SIZE && SameFrame(m, m', f) && SameFrame(m, m', g)
    ensures SamePage(m', f, g)
  {
    forall k: nat | k < 4096 ensures ByteIn(m', f, k) == ByteIn(m', g, k) {
      SameByte(m, m', f, k);
      SameByte(m, m', g, k);
      assert ByteIn(m, f, k) == ByteIn(m, g, k);
    }
  }

  lemma ChildFrames(s0: Snap, psp: Space, s: Snap, csp: Space, i: nat, v: nat, s': Snap, csp': Space, x: nat)
    requires Cloning(s0, psp, s, csp, i, v) && Owned(csp') == Owned(csp) + {x} && x !in s.used
    requires s'.used == s.used + {x}
    requires SameOutside(s.m, s'.m, Structure(csp) + {x}) && csp'.dir == csp.dir
    ensures s'.used == s0.used + Owned(csp') && Owned(csp') * s0.used == {csp'.dir}
    ensures SameOutside(s0.m, s'.m, Owned(csp'))
  {
    CloningParts(s0, psp, s, csp, i, v);
    hide Cloning, InPlace, Copied, Owned, Structure, SameOutside, Carries;
    StructureOwned(csp);
    SameOutsideMore(s.m, s'.m, Structure(csp) + {x}, Owned(csp'));
    SameOutsideMore(s0.m, s.m, Owned(csp), Owned(csp'));
    SameTransitive(s0.m, s.m, s'.m, Owned(csp'));
    assert Owned(csp') * s0.used == Owned(csp) * s0.used;
  }

  lemma ChildPageKept(s0: Snap, psp: Space, s: Snap, csp: Space, i: nat, v: nat, s': Snap, csp': Space, x: nat, u: nat)
    requires Cloning(s0, psp, s, csp, i, v) && x !in s.used && u in csp.pages
    requires SameOutside(s.m, s'.m, Structure(csp) + {x}) && Extends(csp, csp')
    ensures PageFrom(s0, psp, s'.m, csp', u)
  {
    CloningParts(s0, psp, s, csp, i, v);
    assert HasPage(s0.m, psp, u) && PageFrom(s0, psp, s.m, csp, u);
    CopyAside(s0.m, s, csp, u);
    assert csp'.pages[u] == csp.pages[u];
    var g := Source(s0.m, psp, u);
    if Settled(s0, csp, g) {
      SettledAside(s0, s, csp, g);
      hide Cloning, InPlace, Copied, Owned, Structure, Carries, SamePage;
      assert SameFrame(s.m, s'.m, csp.pages[u]) && SameFrame(s.m, s'.m, g);
      SamePageKept(s.m, s'.m, csp.pages[u], g);
    }
  }

  lemma SettledAside(s0: Snap, s: Snap, csp: Space, g: nat)
    requires Settled(s0, csp, g) && Owned(csp) * s0.used == {csp.dir} && s0.used <= s.used
    ensures g !in Owned(csp) && g !in Structure(csp) && g in s.used
  {
    hide Owned, Structure;
    StructureOwned(csp);
    assert g in Owned(csp) ==> g in Owned(csp) * s0.used;
  }

  /** One more frame for the child: its other pages are as they were. */
  lemma ChildGrows(s0: Snap, psp: Space, s: Snap, csp: Space, i: nat, v: nat, s': Snap, csp': Space, x: nat,
                   i': nat, v': nat)
    requires Cloning(s0, psp, s, csp, i, v) && Copied(s0.m, s', csp') && Extends(csp, csp')
    requires Owned(csp') == Owned(csp) + {x} && x !in s.used && s'.used == s.used + {x}
    requires SameOutside(s.m, s'.m, Structure(csp) + {x}) && AllFlagged(s'.m, csp')
    requires forall k {:trigger k in csp'.tables} :: k in csp'.tables <==> k in psp.tables && k < i'
    requires forall u: nat {:trigger u in csp'.pages} :: u in csp'.pages <==> HasPage(s0.m, psp, u) && u < v'
    requires forall u {:trigger csp'.pages[u]} :: u in csp'.pages && u !in csp.pages ==>
        PageFrom(s0, psp, s'.m, csp', u)
    ensures Cloning(s0, psp, s', csp', i', v')
  {
    hide *;
    SameDirectory(csp, csp');
    ChildFrames(s0, psp, s, csp, i, v, s', csp', x);
    CloningParts(s0, psp, s, csp, i, v);
    forall u | u in csp'.pages
      ensures PageFrom(s0, psp, s'.m, csp', u)
    {
      if u in csp.pages {
        ChildPageKept(s0, psp, s, csp, i, v, s', csp', x, u);
      } else {
        assert csp'.pages[u] == csp'.pages[u];
      }
    }
    CloningFrom(s0, psp, s', csp', i', v');
  }

  lemma SameDirectory(sp: Space, sp': Space)
    requires Extends(sp, sp')
    ensures sp'.dir == sp.dir
  {
  }

  lemma CloningFrom(s0: Snap, psp: Space, s: Snap, csp: Space, i: nat, v: nat)
    requires Copied(s0.m, s, csp) && InPlace(s0, psp) && csp.dir !in Owned(psp)
    requires s.used == s0.used + Owned(csp) && Owned(csp) * s0.used == {csp.dir}
    requires SameOutside(s0.m, s.m, Owned(csp)) && AllFlagged(s.m, csp)
    requires forall k {:trigger k in csp.tables} :: k in csp.tables <==> k in psp.tables && k < i
    requires forall u: nat {:trigger u in csp.pages} :: u in csp.pages <==> HasPage(s0.m, psp, u) && u < v
    requires forall u {:trigger csp.pages[u]} :: u in csp.pages ==>
        PageFrom(s0, psp, s.m, csp, u)
    ensures Cloning(s0, psp, s, csp, i, v)
  {
    hide InPlace, Copied, Owned, SameOutside, PageFrom, HasPage, AllFlagged;
  }

  lemma CopyAside(m0: seq<Byte>, s: Snap, sp: Space, u: nat)
    requires Copied(m0, s, sp) && u in sp.pages
    ensures sp.pages[u] in Owned(sp) && sp.pages[u] in s.used && sp.pages[u] !in Structure(sp) && sp.pages[u] < PAGES
  {
    assert sp.pages[u] == sp.pages[u];
  }

  /** A table for slot `i` of the child, whatever the frame held. */
  lemma TableCloned(s0: Snap, psp: Space, s: Snap, csp: Space, i: nat, t: nat)
    requires Cloning(s0, psp, s, csp, i, 1024 * i) && i in psp.tables && KERNEL_DIR in s0.used
    requires 1 <= t < PAGES && t !in s.used && USER_FIRST <= i < 1024 && csp.dir < PAGES && |s.m| == RAM_SIZE
    ensures Cloning(s0, psp, Snap(SetEntry(s.m, csp.dir, i, EntryFor(t)), s.used + {t}), AddTable(csp, i, t),
        i + 1, 1024 * i)
  {
    hide *;
    var m', csp' := SetEntry(s.m, csp.dir, i, EntryFor(t)), AddTable(csp, i, t);
    CloningParts(s0, psp, s, csp, i, 1024 * i);
    NewFrame(s0, psp, s, csp, i, 1024 * i, t);
    TableKeys(s0, psp, s, csp, i, t);
    CarriesTable(s0.m, s.m, csp, i, t);
    SeparateAddTable(csp, i, t);
    OwnedAddTable(csp, i, t);
    DirInStructure(csp);
    EntrySet(s.m, csp.dir, i, EntryFor(t));
    SameOutsideMore(s.m, m', {csp.dir}, Structure(csp) + {t});
    CopiedFrom(s0.m, Snap(m', s.used + {t}), csp');
    FlaggedFields(s.m, csp);
    FlaggedTable(s.m, csp, csp.tables.Keys, csp.pages.Keys, i, t);
    AddTableFields(csp, i, t);
    FlaggedFields(m', csp');
    ChildGrows(s0, psp, s, csp, i, 1024 * i, Snap(m', s.used + {t}), csp', t, i + 1, 1024 * i);
  }

  lemma FlaggedFields(m: seq<Byte>, sp: Space)
    ensures AllFlagged(m, sp) <==> Flagged(m, sp, sp.tables.Keys, sp.pages.Keys)
  {
  }

  /** A frame that is free now was free before and has not been written. */
  lemma NewFrame(s0: Snap, psp: Space, s: Snap, csp: Space, i: nat, v: nat, t: nat)
    requires Cloning(s0, psp, s, csp, i, v) && t !in s.used && t < PAGES && KERNEL_DIR in s0.used
    ensures t !in Owned(csp) && |s0.m| == RAM_SIZE && |s.m| == RAM_SIZE && SameFrame(s0.m, s.m, t) && t != KERNEL_DIR
  {
  }

  lemma TableKeys(s0: Snap, psp: Space, s: Snap, csp: Space, i: nat, t: nat)
    requires Cloning(s0, psp, s, csp, i, 1024 * i) && i in psp.tables
    ensures var csp' := AddTable(csp, i, t);
      && i !in csp.tables && csp'.dir == csp.dir && csp'.pages == csp.pages
      && (forall k {:trigger k in csp'.tables} :: k in csp'.tables <==> k in psp.tables && k < i + 1)
      && (forall u: nat {:trigger u in csp'.pages} :: u in csp'.pages <==> HasPage(s0.m, psp, u) && u < 1024 * i)
  {
    hide Copied, InPlace, SameOutside, PageFrom, HasPage, Owned, AllFlagged;
  }

  lemma PageKeys(s0: Snap, psp: Space, s: Snap, csp: Space, i: nat, v: nat, f: nat)
    requires Cloning(s0, psp, s, csp, i, v) && HasPage(s0.m, psp, v)
    ensures var csp' := AddPage(csp, v, f);
      && v !in csp.pages && csp'.dir == csp.dir && csp'.tables == csp.tables && v in csp'.pages && csp'.pages[v] == f
      && (forall k {:trigger k in csp'.tables} :: k in csp'.tables <==> k in psp.tables && k < i)
      && (forall u: nat {:trigger u in csp'.pages} :: u in csp'.pages <==> HasPage(s0.m, psp, u) && u < v + 1)
      && (forall u {:trigger csp'.pages[u]} :: u in csp'.pages && u !in csp.pages ==> u == v)
  {
    hide Copied, InPlace, SameOutside, PageFrom, Owned, AllFlagged;
  }

  /** Memory after kmemcpy of one page: from address zero it copies nothing. */
  function PageInto(m: seq<Byte>, f: nat, g: nat): (r: seq<Byte>)
    requires |m| == RAM_SIZE && f < PAGES && g < PAGES
    ensures |r| == RAM_SIZE
  {
    if g == 0 then m else Copy(m, f * 4096, g * 4096, 4096)
  }

  /** A page for virtual page `v` of the child, with what the parent's entry leads to. */
  lemma PageCloned(s0: Snap, psp: Space, s: Snap, csp: Space, i: nat, v: nat, f: nat)
    requires Cloning(s0, psp, s, csp, i, v) && HasPage(s0.m, psp, v)
    requires v / 1024 in csp.tables && KERNEL_DIR in s0.used && |s.m| == RAM_SIZE
    requires 1 <= f < PAGES && f !in s.used && csp.tables[v / 1024] < PAGES
    ensures var m1 := SetEntry(s.m, csp.tables[v / 1024], v % 1024, EntryFor(f));
      Cloning(s0, psp, Snap(PageInto(m1, f, Source(s0.m, psp, v)), s.used + {f}), AddPage(csp, v, f), i, v + 1)
  {
    hide *;
    PageKeys(s0, psp, s, csp, i, v, f);
    var t, g := csp.tables[v / 1024], Source(s0.m, psp, v);
    var m1, csp' := SetEntry(s.m, t, v % 1024, EntryFor(f)), AddPage(csp, v, f);
    CloningParts(s0, psp, s, csp, i, v);
    NewFrame(s0, psp, s, csp, i, v, f);
    CarriesPage(s0.m, s.m, csp, v, f);
    SeparateAddPage(csp, v, f);
    OwnedAddPage(csp, v, f);
    EntrySet(s.m, t, v % 1024, EntryFor(f));
    PageCopied(m1, f, g);
    var m2 := PageInto(m1, f, g);
    TableInStructure(csp, v / 1024);
    SameOutsideMore(s.m, m1, {t}, Structure(csp) + {f});
    SameOutsideMore(m1, m2, {f}, Structure(csp) + {f});
    SameTransitive(s.m, m1, m2, Structure(csp) + {f});
    StructureApart(csp, f);
    CarriesSame(s0.m, m1, m2, csp', {f});
    CopiedFrom(s0.m, Snap(m2, s.used + {f}), csp');
    FlaggedFields(s.m, csp);
    FlaggedPage(s.m, csp, csp.tables.Keys, csp.pages.Keys, v, f);
    AddPageFields(csp, v, f);
    FlaggedSame(m1, m2, csp', csp'.tables.Keys, csp'.pages.Keys, {f});
    FlaggedFields(m2, csp');
    NewPageFrom(s0, psp, s, m2, csp', v, f);
    ChildGrows(s0, psp, s, csp, i, v, Snap(m2, s.used + {f}), csp', f, i, v + 1);
  }

  lemma NewPageFrom(s0: Snap, psp: Space, s: Snap, m: seq<Byte>, csp: Space, v: nat, f: nat)
    requires s0.used <= s.used && f !in s.used
    requires v in csp.pages && csp.pages[v] == f
    requires var g := Source(s0.m, psp, v); g != 0 && g != f ==> SamePage(m, f, g)
    ensures PageFrom(s0, psp, m, csp, v)
  {
  }

  lemma StructureApart(sp: Space, f: nat)
    requires f !in Owned(sp)
    ensures {f} !! Structure(sp)
  {
  }

  /** Copying one whole frame onto another, or onto itself, writes only that frame. */
  lemma PageCopied(m: seq<Byte>, f: nat, g: nat)
    requires |m| == RAM_SIZE && f < PAGES && g < PAGES
    ensures SameOutside(m, PageInto(m, f, g), {f}) && (g != 0 && g != f ==> SamePage(PageInto(m, f, g), f, g))
  {
    var m' := PageInto(m, f, g);
    forall h: nat | h < PAGES && h !in {f} ensures SameFrame(m, m', h) {
      assert h < f || h > f;
    }
    if g != 0 && g != f {
      CopyDisjoint(m, f * 4096, g * 4096, 4096);
      forall k: nat | k < 4096 ensures ByteIn(m', f, k) == ByteIn(m', g, k) {
        assert SameFrame(m, m', g);
        SameByte(m, m', g, k);
        var x := f * 4096 + k;
        assert m'[x] == m[x - f * 4096 + g * 4096];
        assert x - f * 4096 + g * 4096 == g * 4096 + k;
        assert ByteIn(m, g, k) == m[g * 4096 + k];
      }
    }
  }

  // ---------------------------------------------------------------- which frames the child gets

  /** How many frames the copy takes before the table of slot `i`. */
  ghost function Rank(psp: Space, seen: set<nat>, i: nat): nat {
    |set k | k in psp.tables && k < i| + |set u | u in seen && u < 1024 * i|
  }

  /** The frame the copy takes for the table of slot `i`, by first fit. */
  ghost function TableFrame(used: set<nat>, nbits: int, psp: Space, seen: set<nat>, i: nat): int {
    NextFrame(Taken(used, nbits, Rank(psp, seen, i)), nbits)
  }

  ghost predicate InOrder(used0: set<nat>, psp: Space, seen: set<nat>, csp: Space, nbits: int) {
    forall k {:trigger csp.tables[k]} :: k in csp.tables ==> csp.tables[k] == TableFrame(used0, nbits, psp, seen, k)
  }

  /** The frames came from below `nbits`, one by one in the order of the copy. */
  ghost predicate Paced(s0: Snap, psp: Space, used: set<nat>, csp: Space, nbits: int) {
    && FromPool(s0.used, used, nbits) && used == Taken(s0.used, nbits, |csp.tables| + |csp.pages|)
    && InOrder(s0.used, psp, SeenPages(s0.m, psp), csp, nbits)
  }

  lemma PacedStart(s: Snap, psp: Space, f: nat, nbits: int)
    ensures Paced(s, psp, s.used, EmptySpace(f), nbits)
  {
  }

  lemma PacedParts(s0: Snap, psp: Space, used: set<nat>, csp: Space, nbits: int)
    requires Paced(s0, psp, used, csp, nbits)
    ensures FromPool(s0.used, used, nbits) && InOrder(s0.used, psp, SeenPages(s0.m, psp), csp, nbits)
    ensures used == Taken(s0.used, nbits, |csp.tables| + |csp.pages|)
  {
  }

  lemma PacedFrom(s0: Snap, psp: Space, used: set<nat>, csp: Space, nbits: int)
    requires FromPool(s0.used, used, nbits) && InOrder(s0.used, psp, SeenPages(s0.m, psp), csp, nbits)
    requires used == Taken(s0.used, nbits, |csp.tables| + |csp.pages|)
    ensures Paced(s0, psp, used, csp, nbits)
  {
  }

  lemma TakenNext(used0: set<nat>, used: set<nat>, nbits: int, n: nat, f: nat)
    requires used == Taken(used0, nbits, n) && f == NextFrame(used, nbits)
    ensures used + {f} == Taken(used0, nbits, n + 1)
  {
    hide NextFrame;
  }

  lemma OneMoreTable(csp: Space, k: nat, f: nat)
    requires k !in csp.tables
    ensures |AddTable(csp, k, f).tables| + |AddTable(csp, k, f).pages| == |csp.tables| + |csp.pages| + 1
  {
    var m, m' := csp.tables, AddTable(csp, k, f).tables;
    assert m'.Keys == m.Keys + {k};
    assert |m'| == |m'.Keys| && |m| == |m.Keys|;
  }

  lemma OneMorePage(csp: Space, k: nat, f: nat)
    requires k !in csp.pages
    ensures |AddPage(csp, k, f).tables| + |AddPage(csp, k, f).pages| == |csp.tables| + |csp.pages| + 1
  {
    var m, m' := csp.pages, AddPage(csp, k, f).pages;
    assert m'.Keys == m.Keys + {k};
    assert |m'| == |m'.Keys| && |m| == |m.Keys|;
  }

  lemma RankIs(s0: Snap, psp: Space, s: Snap, csp: Space, i: nat)
    requires Cloning(s0, psp, s, csp, i, 1024 * i)
    ensures |csp.tables| + |csp.pages| == Rank(psp, SeenPages(s0.m, psp), i)
  {
    hide InPlace, Copied, SameOutside, PageFrom, HasPage, SeenPages, AllFlagged;
    var seen := SeenPages(s0.m, psp);
    CountBelow(csp.tables, psp.tables.Keys, i);
    forall u: nat {:trigger u in csp.pages} ensures u in csp.pages <==> u in seen && u < 1024 * i {
      if u in csp.pages || u in seen { SeenIff(s0.m, psp, u); }
    }
    CountBelow(csp.pages, seen, 1024 * i);
    assert (set k | k in psp.tables.Keys && k < i) == (set k | k in psp.tables && k < i);
  }

  lemma CountBelow(m: map<nat, nat>, keys: set<nat>, n: nat)
    requires forall k {:trigger k in m} :: k in m <==> k in keys && k < n
    ensures |m| == |set k | k in keys && k < n|
  {
    assert m.Keys == set k | k in keys && k < n;
    assert |m| == |m.Keys|;
  }

  lemma NotYetCloned(s0: Snap, psp: Space, s: Snap, csp: Space, i: nat)
    requires Cloning(s0, psp, s, csp, i, 1024 * i)
    ensures i !in csp.tables
  {
  }

  lemma PageNotCloned(s0: Snap, psp: Space, s: Snap, csp: Space, i: nat, v: nat)
    requires Cloning(s0, psp, s, csp, i, v)
    ensures v !in csp.pages
  {
  }

  lemma OrderTable(used0: set<nat>, psp: Space, seen: set<nat>, csp: Space, i: nat, f: nat, nbits: int)
    requires InOrder(used0, psp, seen, csp, nbits) && f == TableFrame(used0, nbits, psp, seen, i)
    ensures InOrder(used0, psp, seen, AddTable(csp, i, f), nbits)
  {
    hide TableFrame;
    var csp' := AddTable(csp, i, f);
    forall k | k in csp'.tables ensures csp'.tables[k] == TableFrame(used0, nbits, psp, seen, k) {
      if k != i { assert csp'.tables[k] == csp.tables[k]; }
    }
  }

  lemma TableFrameIs(used0: set<nat>, used: set<nat>, psp: Space, seen: set<nat>, i: nat, nbits: int)
    requires used == Taken(used0, nbits, Rank(psp, seen, i))
    ensures TableFrame(used0, nbits, psp, seen, i) == NextFrame(used, nbits)
  {
    hide NextFrame, Rank;
  }

  lemma PacedTable(s0: Snap, psp: Space, s: Snap, csp: Space, i: nat, f: nat, nbits: int)
    requires Cloning(s0, psp, s, csp, i, 1024 * i) && i in psp.tables && f == NextFrame(s.used, nbits) && f < nbits
    requires Paced(s0, psp, s.used, csp, nbits)
    ensures Paced(s0, psp, s.used + {f}, AddTable(csp, i, f), nbits)
  {
    hide *;
    var seen := SeenPages(s0.m, psp);
    PacedParts(s0, psp, s.used, csp, nbits);
    NotYetCloned(s0, psp, s, csp, i);
    RankIs(s0, psp, s, csp, i);
    TableFrameIs(s0.used, s.used, psp, seen, i, nbits);
    TakenNext(s0.used, s.used, nbits, |csp.tables| + |csp.pages|, f);
    OneMoreTable(csp, i, f);
    OrderTable(s0.used, psp, seen, csp, i, f, nbits);
    FromPoolOne(s0.used, s.used, s.used + {f}, f, nbits);
    PacedFrom(s0, psp, s.used + {f}, AddTable(csp, i, f), nbits);
  }

  lemma OrderPage(used0: set<nat>, psp: Space, seen: set<nat>, csp: Space, v: nat, f: nat, nbits: int)
    requires InOrder(used0, psp, seen, csp, nbits)
    ensures InOrder(used0, psp, seen, AddPage(csp, v, f), nbits)
  {
    hide TableFrame;
    forall k | k in csp.tables ensures csp.tables[k] == TableFrame(used0, nbits, psp, seen, k) {}
  }

  lemma PacedPage(s0: Snap, psp: Space, s: Snap, csp: Space, i: nat, v: nat, f: nat, nbits: int)
    requires Cloning(s0, psp, s, csp, i, v) && HasPage(s0.m, psp, v) && f == NextFrame(s.used, nbits) && f < nbits
    requires Paced(s0, psp, s.used, csp, nbits)
    ensures Paced(s0, psp, s.used + {f}, AddPage(csp, v, f), nbits)
  {
    hide *;
    var seen := SeenPages(s0.m, psp);
    PacedParts(s0, psp, s.used, csp, nbits);
    PageNotCloned(s0, psp, s, csp, i, v);
    TakenNext(s0.used, s.used, nbits, |csp.tables| + |csp.pages|, f);
    OneMorePage(csp, v, f);
    OrderPage(s0.used, psp, seen, csp, v, f, nbits);
    FromPoolOne(s0.used, s.used, s.used + {f}, f, nbits);
    PacedFrom(s0, psp, s.used + {f}, AddPage(csp, v, f), nbits);
  }

  lemma KernelUsed(s0: Snap, psp: Space, s: Snap, csp: Space, i: nat, v: nat)
    requires Cloning(s0, psp, s, csp, i, v) && KERNEL_DIR in s.used
    ensures KERNEL_DIR in s0.used
  {
  }

  /** The parent's entry of page `v`. */
  lemma ParentEntry(s0: Snap, psp: Space, s: Snap, csp: Space, i: nat, v: nat, ppte: nat)
    requires Cloning(s0, psp, s, csp, i, v) && EntryAt(psp, v, ppte)
    ensures ppte + 4 <= RAM_SIZE && |s.m| == RAM_SIZE
    ensures Present(Word(s.m, ppte)) <==> HasPage(s0.m, psp, v)
    ensures HasPage(s0.m, psp, v) ==> AlignDown(Word(s.m, ppte)) == Source(s0.m, psp, v) * 4096
  {
    CloningParts(s0, psp, s, csp, i, v);
    ParentStays(s0, psp, s, csp, i, v);
    hide Cloning, InPlace, Copied, SameOutside, Carries, Owned, Structure, Separate;
    PageWordSame(s0.m, s.m, psp, Owned(csp), v);
    assert Word(s.m, ppte) == PageWord(s.m, psp, v);
  }

  /** Writing the child's entry leaves the parent's alone. */
  lemma ParentEntryKept(s0: Snap, psp: Space, s: Snap, csp: Space, i: nat, v: nat, ppte: nat, w: int)
    requires Cloning(s0, psp, s, csp, i, v) && EntryAt(psp, v, ppte) && v / 1024 in csp.tables
    requires csp.tables[v / 1024] < PAGES
    requires 0 <= w < RAM_SIZE
    ensures ppte + 4 <= RAM_SIZE && |s.m| == RAM_SIZE
    ensures Word(SetEntry(s.m, csp.tables[v / 1024], v % 1024, w), ppte) == Word(s.m, ppte)
  {
    CloningParts(s0, psp, s, csp, i, v);
    ParentStays(s0, psp, s, csp, i, v);
    hide Cloning, InPlace, Copied, Carries, Separate, SetEntry, SameOutside, Owned, Structure;
    var t := csp.tables[v / 1024];
    TableInStructure(csp, v / 1024);
    StructureOwned(csp);
    EntrySet(s.m, t, v % 1024, w);
    var m' := SetEntry(s.m, t, v % 1024, w);
    PageWordSame(s.m, m', psp, {t}, v);
    assert Word(m', ppte) == PageWord(m', psp, v);
    assert Word(s.m, ppte) == PageWord(s.m, psp, v);
  }

  lemma ChildEntry(s0: Snap, psp: Space, s: Snap, csp: Space, i: nat, v: nat, pte: nat)
    requires Cloning(s0, psp, s, csp, i, v) && EntryAt(csp, v, pte)
    ensures |s.m| == RAM_SIZE && v / 1024 in csp.tables && csp.tables[v / 1024] < PAGES
    ensures pte == csp.tables[v / 1024] * 4096 + 4 * (v % 1024) && pte + 4 <= RAM_SIZE
  {
  }

  lemma FrameFits(f: nat)
    requires 1 <= f < PAGES
    ensures 0 < f * 4096 && f * 4096 + 4096 <= RAM_SIZE
  {
  }

  /** Copy what the parent's entry at `ppte` leads to, if it is present, and enter it at `pte`. */
  method ClonePage(mc: Machine, ppte: nat, pte: nat, ghost s0: Snap, ghost psp: Space, ghost csp: Space,
                   ghost i: nat, ghost v: nat)
    returns (ok: bool, ghost csp': Space)
    requires mc.Valid() && Cloning(s0, psp, mc.Now(), csp, i, v) && EntryAt(psp, v, ppte) && EntryAt(csp, v, pte)
    requires Paced(s0, psp, mc.Now().used, csp, mc.bits.nbits)
    modifies mc.ram, mc.bits.base
    ensures mc.Valid() && Paced(s0, psp, mc.Now().used, csp', mc.bits.nbits) && csp'.tables == csp.tables
    ensures csp'.dir == csp.dir
    ensures ok ==> Cloning(s0, psp, mc.Now(), csp', i, v + 1)
    ensures !ok ==> csp' == csp && HasPage(s0.m, psp, v) && Cloning(s0, psp, mc.Now(), csp, i, v)
    ensures !ok ==> Exhausted(mc.Now().used, mc.bits.nbits)
  {
    hide *;
    ghost var s := mc.Now();
    mc.ValidFacts();
    csp' := csp;
    ParentEntry(s0, psp, s, csp, i, v, ppte);
    var w := mc.Load(ppte);
    if !Present(w) {
      SkipPage(s0, psp, s, csp, i, v);
      return true, csp;
    }
    var pg := mc.AllocPage();
    if pg == 0 {
      return false, csp;
    }
    ghost var f := pg / 4096;
    PacedPage(s0, psp, s, csp, i, v, f, mc.bits.nbits);
    KernelUsed(s0, psp, s, csp, i, v);
    ChildEntry(s0, psp, s, csp, i, v, pte);
    PageCloned(s0, psp, s, csp, i, v, f);
    StoresEntry(s.m, csp.tables[v / 1024], v % 1024, f);
    ParentEntryKept(s0, psp, s, csp, i, v, ppte, EntryFor(f));
    FrameFits(f);
    mc.Store(pte, pg + PAGE_SHARED);
    w := mc.Load(ppte);
    IntoIs(mc.Now().m, f, Source(s0.m, psp, v));
    mc.CopyBytes(pg, AlignDown(w), 4096);
    csp' := AddPage(csp, v, f);
    AddPageFields(csp, v, f);
    ok := true;
  }

  lemma IntoIs(m: seq<Byte>, f: nat, g: nat)
    requires |m| == RAM_SIZE && 1 <= f < PAGES && g < PAGES
    ensures f * 4096 + 4096 <= RAM_SIZE && g * 4096 + 4096 <= RAM_SIZE
    ensures PageInto(m, f, g) == if g * 4096 == 0 then m else Copy(m, f * 4096, g * 4096, 4096)
  {
  }

  lemma TwoEntries(s0: Snap, psp: Space, s: Snap, csp: Space, i: nat, j: nat)
    requires Cloning(s0, psp, s, csp, i + 1, 1024 * i + j) && i in psp.tables && j < 1024
    ensures i in csp.tables && EntryAt(psp, 1024 * i + j, psp.tables[i] * 4096 + 4 * j)
    ensures EntryAt(csp, 1024 * i + j, csp.tables[i] * 4096 + 4 * j)
  {
    hide *;
    CloningParts(s0, psp, s, csp, i + 1, 1024 * i + j);
    CloningKeys(s0, psp, s, csp, i + 1, 1024 * i + j);
    CopiedInPlace(s0.m, s, csp);
    InPlaceParts(s, csp);
    EntryOf(psp, i, j);
    EntryOf(csp, i, j);
  }

  lemma EntryOf(sp: Space, i: nat, j: nat)
    requires Shaped(sp) && i in sp.tables && j < 1024
    ensures EntryAt(sp, 1024 * i + j, sp.tables[i] * 4096 + 4 * j)
  {
    assert (1024 * i + j) / 1024 == i && (1024 * i + j) % 1024 == j;
    assert 1 <= sp.tables[i] < PAGES;
  }

  lemma Directories(s0: Snap, psp: Space, s: Snap, csp: Space, i: nat, v: nat)
    requires Cloning(s0, psp, s, csp, i, v)
    ensures |s.m| == RAM_SIZE && 1 <= psp.dir < PAGES && 1 <= csp.dir < PAGES
    ensures psp.dir * 4096 + 4096 <= RAM_SIZE && csp.dir * 4096 + 4096 <= RAM_SIZE
    ensures InMemory(s.m, psp)
  {
    ParentStays(s0, psp, s, csp, i, v);
    CloningParts(s0, psp, s, csp, i, v);
    CopiedInPlace(s0.m, s, csp);
    InPlaceParts(s, csp);
    InPlaceParts(s, psp);
  }

  /** Copy one table of the parent with its pages; false when out of memory. */
  method CloneTable(mc: Machine, ppde: nat, pde: nat, i: nat, ghost s0: Snap, ghost psp: Space, ghost csp: Space)
    returns (ok: bool, ghost csp': Space, ghost i': nat, ghost v: nat)
    requires mc.Valid() && Cloning(s0, psp, mc.Now(), csp, i, 1024 * i) && USER_FIRST <= i < 1024
    requires ppde == psp.dir * 4096 && pde == csp.dir * 4096 && i in psp.tables
    requires Paced(s0, psp, mc.Now().used, csp, mc.bits.nbits)
    modifies mc.ram, mc.bits.base
    ensures mc.Valid() && Paced(s0, psp, mc.Now().used, csp', mc.bits.nbits) && csp'.dir == csp.dir
    ensures Cloning(s0, psp, mc.Now(), csp', i', v)
    ensures if ok then i' == i + 1 && v == 1024 * (i + 1)
            else Missing(s0, psp, i', v) && Exhausted(mc.Now().used, mc.bits.nbits)
  {
    hide *;
    ghost var s := mc.Now();
    mc.ValidFacts();
    Directories(s0, psp, s, csp, i, 1024 * i);
    csp', i', v := csp, i, 1024 * i;

    var page := mc.AllocPage();
    if page == 0 {
      MissingTable(s0, psp, i, v);
      return false, csp, i, v;
    }
    ghost var t := page / 4096;
    PacedTable(s0, psp, s, csp, i, t, mc.bits.nbits);
    KernelUsed(s0, psp, s, csp, i, v);
    TableCloned(s0, psp, s, csp, i, t);
    StoresEntry(s.m, csp.dir, i, t);
    AddTableFields(csp, i, t);
    mc.Store(pde + 4 * i, page + PAGE_SHARED);
    csp', i' := AddTable(csp, i, t), i + 1;

    Directories(s0, psp, mc.Now(), csp', i', v);
    var w := mc.Load(ppde + 4 * i);
    ParentSlot(mc.Now().m, psp, i, w);
    var ppte, pte := AlignDown(w), page;
    var j := 0;
    while j < 1024
      invariant 0 <= j <= 1024 && mc.Valid() && Paced(s0, psp, mc.Now().used, csp', mc.bits.nbits)
      invariant v == 1024 * i + j && Cloning(s0, psp, mc.Now(), csp', i', v)
      invariant csp'.dir == csp.dir && i in csp'.tables && csp'.tables[i] == t
    {
      TwoEntries(s0, psp, mc.Now(), csp', i, j);
      ok, csp' := ClonePage(mc, ppte + 4 * j, pte + 4 * j, s0, psp, csp', i', v);
      if !ok {
        MissingPage(s0, psp, i', v);
        return;
      }
      j, v := j + 1, v + 1;
    }
    ok := true;
  }

  /** Some table from `i` on, or some present entry from page `v` on, has no copy yet. */
  ghost predicate Missing(s0: Snap, psp: Space, i: nat, v: nat) {
    || (exists k {:trigger k in psp.tables} :: k in psp.tables && k >= i)
    || (exists u: nat {:trigger HasPage(s0.m, psp, u)} :: HasPage(s0.m, psp, u) && u >= v)
  }

  lemma MissingTable(s0: Snap, psp: Space, i: nat, v: nat)
    requires i in psp.tables
    ensures Missing(s0, psp, i, v)
  {
  }

  lemma MissingPage(s0: Snap, psp: Space, i: nat, v: nat)
    requires HasPage(s0.m, psp, v)
    ensures Missing(s0, psp, i, v)
  {
  }

  // ---------------------------------------------------------------- running out of memory

  /** The first slot from `i` on that has a table, or 1024. */
  function FirstSlot(sp: Space, i: nat): (k: nat)
    requires i <= 1024
    ensures i <= k <= 1024 && (k < 1024 ==> k in sp.tables) && forall j: nat :: i <= j < k ==> j !in sp.tables
    decreases 1024 - i
  {
    if i == 1024 || i in sp.tables then i else FirstSlot(sp, i + 1)
  }

  /** The frames behind the odd words at `e`, `e + 4`, ... from the `i`-th to the `j`-th. */
  ghost function OddFrames(m: seq<Byte>, e: int, i: nat, j: nat): set<nat> {
    set k: nat | i <= k < j && 0 <= e && e + 4 * k + 4 <= |m| && Present(Word(m, e + 4 * k)) ::
      Word(m, e + 4 * k) / 4096
  }

  /** The frames that distory_memory frees. It takes the entry of the first slot with a table, flags
      and all, for the address of the table, and walks its words with the directory's index. */
  ghost function Misfreed(m: seq<Byte>, sp: Space): set<nat> {
    var i := FirstSlot(sp, USER_FIRST);
    if i == 1024 || |m| != RAM_SIZE || sp.dir >= PAGES then {} else OddFrames(m, Entry(m, sp.dir, i), i, 1024)
  }

  lemma OddNext(m: seq<Byte>, e: int, i: nat, k: nat)
    requires 0 <= e && e + 4 * k + 4 <= |m| && i <= k
    ensures OddFrames(m, e, i, i) == {}
    ensures OddFrames(m, e, i, k + 1) ==
        OddFrames(m, e, i, k) + if Present(Word(m, e + 4 * k)) then {Word(m, e + 4 * k) / 4096} else {}
  {
  }

  /** The words that distory_memory reads lie in memory: no table is in the last frame. */
  lemma WordsFit(s: Snap, sp: Space, i: nat)
    requires InPlace(s, sp) && i in sp.tables && sp.tables[i] + 1 < PAGES
    ensures |s.m| == RAM_SIZE && sp.dir < PAGES && i < 1024 && 0 <= Entry(s.m, sp.dir, i)
    ensures Entry(s.m, sp.dir, i) + 4096 <= RAM_SIZE && Entry(s.m, sp.dir, i) != 0
  {
    InPlaceParts(s, sp);
    assert SlotLeads(s.m, sp, i) && sp.tables[i] == sp.tables[i];
  }

  lemma MisfreedIs(m: seq<Byte>, sp: Space, i: nat)
    requires |m| == RAM_SIZE && sp.dir < PAGES && USER_FIRST <= i <= 1024 && (i < 1024 ==> i in sp.tables)
    requires forall j: nat :: USER_FIRST <= j < i ==> j !in sp.tables
    ensures Misfreed(m, sp) == if i == 1024 then {} else OddFrames(m, Entry(m, sp.dir, i), i, 1024)
  {
  }

  /** The `k`-th word from address `e` is odd and leads to frame `f`. */
  predicate OddTo(m: seq<Byte>, e: nat, k: nat, f: nat) {
    e + 4 * k + 4 <= |m| && Word(m, e + 4 * k) % 2 == 1 && Word(m, e + 4 * k) / 4096 == f
  }

  /** One of the words from the `i`-th to the 1023rd behind address `e` is odd and leads to frame `f`. */
  ghost predicate OddFrom(m: seq<Byte>, e: nat, i: nat, f: nat) {
    exists k: nat {:trigger OddTo(m, e, k, f)} :: i <= k < 1024 && OddTo(m, e, k, f)
  }

  lemma OddFramesHave(m: seq<Byte>, e: nat, i: nat, f: nat)
    ensures f in OddFrames(m, e, i, 1024) <==> OddFrom(m, e, i, f)
  {
    hide Word;
    if f in OddFrames(m, e, i, 1024) {
      var k: nat :|
        i <= k < 1024 && e + 4 * k + 4 <= |m| && Present(Word(m, e + 4 * k)) && Word(m, e + 4 * k) / 4096 == f;
      assert OddTo(m, e, k, f);
    }
    if k: nat :| i <= k < 1024 && OddTo(m, e, k, f) {
      assert Present(Word(m, e + 4 * k));
    }
  }

  /** In a child whose first table is in frame `t` for slot `i` the words taken for entries are those
      behind address t * 4096 + 0x227, none of them aligned. A child without a table loses nothing. */
  lemma MisfreedExact(m: seq<Byte>, sp: Space, i: nat, f: nat)
    requires |m| == RAM_SIZE && AllFlagged(m, sp) && sp.dir < PAGES
    requires sp.tables != map[] ==> i in sp.tables && forall j {:trigger j in sp.tables} :: j in sp.tables ==> i <= j
    ensures sp.tables == map[] ==> f !in Misfreed(m, sp)
    ensures i in sp.tables ==>
      (f in Misfreed(m, sp) <==> OddFrom(m, sp.tables[i] * 4096 + 0x227, i, f))
  {
    hide *;
    FlaggedFields(m, sp);
    UserStart();
    if i in sp.tables {
      SlotEntry(m, sp, i);
      MisfreedIs(m, sp, i);
      OddFramesHave(m, sp.tables[i] * 4096 + 0x227, i, f);
    } else {
      MisfreedIs(m, sp, 1024);
    }
  }

  lemma SlotEntry(m: seq<Byte>, sp: Space, i: nat)
    requires Flagged(m, sp, sp.tables.Keys, sp.pages.Keys) && i in sp.tables && sp.dir < PAGES
    ensures |m| == RAM_SIZE && USER_FIRST <= i < 1024 && Entry(m, sp.dir, i) == sp.tables[i] * 4096 + 0x227
  {
    assert i in sp.tables.Keys && sp.tables[i] == sp.tables[i];
  }

  /** distory_memory: what is freed, and that no byte is written. */
  method DistoryMemory(mc: Machine, pde: nat, ghost sp: Space)
    requires mc.Sane() && InPlace(mc.Now(), sp) && pde == sp.dir * 4096
    requires forall i {:trigger sp.tables[i]} :: i in sp.tables ==> sp.tables[i] + 1 < PAGES
    modifies mc.bits.base
    ensures mc.Sane() && mc.Now() == old(mc.Now()).(used := old(mc.Now()).used - Misfreed(old(mc.Now()).m, sp))
  {
    hide *;
    ghost var s := mc.Now();
    InPlaceParts(s, sp);
    UserStart();
    DirFits(sp.dir);
    var i := PdeIndex(USER_MEMORY_BEGIN);
    while i < 1024
      invariant USER_FIRST <= i <= 1024 && mc.Sane() && mc.Now() == s
      invariant forall j: nat :: USER_FIRST <= j < i ==> j !in sp.tables
    {
      var w := mc.Load(pde + 4 * i);
      ParentSlot(s.m, sp, i, w);
      if Present(w) {
        assert sp.tables[i] + 1 < PAGES;
        WordsFit(s, sp, i);
        SlotWord(s.m, sp.dir, i);
        MisfreedIs(s.m, sp, i);
        ghost var i0 := i;
        OddNext(s.m, w, i0, i0);
        while i < 1024
          invariant i0 <= i <= 1024 && mc.Sane() && mc.Now() == s.(used := s.used - OddFrames(s.m, w, i0, i))
        {
          var word := mc.Load(w + 4 * i);
          OddNext(s.m, w, i0, i);
          OddIsNotZero(word);
          if Present(word) {
            if word != 0 {
              mc.FreePage(word);
            }
          }
          i := i + 1;
        }
        return;
      }
      i := i + 1;
    }
    MisfreedIs(s.m, sp, 1024);
  }

  lemma DirFits(dir: nat)
    requires dir < PAGES
    ensures dir * 4096 + 4096 <= RAM_SIZE
  {
  }

  lemma SlotWord(m: seq<Byte>, f: nat, i: nat)
    requires |m| == RAM_SIZE && f < PAGES && i < 1024
    ensures f * 4096 + 4 * i + 4 <= RAM_SIZE && Entry(m, f, i) == Word(m, f * 4096 + 4 * i)
  {
  }

  lemma OddIsNotZero(w: int)
    ensures Present(w) ==> w != 0
    ensures RAM_SIZE == 4096 * PAGES
  {
  }

  /** The tables of the child lie below `nbits`. */
  lemma TablesBelow(s0: Snap, psp: Space, s: Snap, csp: Space, i: nat, v: nat, nbits: int)
    requires Cloning(s0, psp, s, csp, i, v) && FromPool(s0.used, s.used, nbits)
    ensures forall k {:trigger csp.tables[k]} :: k in csp.tables ==> csp.tables[k] < nbits
  {
    CloningParts(s0, psp, s, csp, i, v);
    hide InPlace, Copied, Carries, SameOutside, PageFrom, HasPage, AllFlagged;
    forall k | k in csp.tables ensures csp.tables[k] < nbits {
      assert csp.tables[k] in Owned(csp) && csp.tables[k] != csp.dir;
      assert csp.tables[k] !in Owned(csp) * s0.used;
    }
  }

  /** Some tables and pages of the parent have copies, in all of the frames that were free. */
  ghost predicate PartlyCloned(s0: Snap, psp: Space, m: seq<Byte>, csp: Space) {
    exists i: nat, v: nat {:trigger Cloning(s0, psp, Snap(m, s0.used + Owned(csp)), csp, i, v)} ::
      Cloning(s0, psp, Snap(m, s0.used + Owned(csp)), csp, i, v)
  }

  lemma PartlyFrom(s0: Snap, psp: Space, s: Snap, csp: Space, i: nat, v: nat)
    requires Cloning(s0, psp, s, csp, i, v)
    ensures PartlyCloned(s0, psp, s.m, csp) && s.used == s0.used + Owned(csp)
  {
    CloningParts(s0, psp, s, csp, i, v);
    hide Cloning, Owned;
    assert s == Snap(s.m, s0.used + Owned(csp));
  }

  // ---------------------------------------------------------------- the copy

  /** The child `csp` of the parent `psp`: the same tables, and a page for each present entry, in
      frames of its own that were free before, the pages holding the same bytes, and all entries
      with the flags of alloc_vpages. Nothing else was written, or changed hands. */
  ghost predicate Cloned(s0: Snap, psp: Space, s: Snap, csp: Space) {
    && Copied(s0.m, s, csp) && InPlace(s0, psp) && csp.dir !in Owned(psp)
    && s.used == s0.used + Owned(csp) && Owned(csp) * s0.used == {csp.dir}
    && SameOutside(s0.m, s.m, Owned(csp))
    && csp.tables.Keys == psp.tables.Keys && csp.pages.Keys == SeenPages(s0.m, psp)
    && (forall u {:trigger csp.pages[u]} :: u in csp.pages ==> PageFrom(s0, psp, s.m, csp, u))
    && AllFlagged(s.m, csp)
  }

  lemma AllCloned(s0: Snap, psp: Space, s: Snap, csp: Space)
    requires Cloning(s0, psp, s, csp, 1024, 1024 * 1024)
    ensures Cloned(s0, psp, s, csp)
  {
    CloningParts(s0, psp, s, csp, 1024, 1024 * 1024);
    hide InPlace, Copied, Carries, Owned, SameOutside, PageFrom, HasPage, SeenPages, AllFlagged;
    assert csp.tables.Keys == psp.tables.Keys by {
      forall k | k in psp.tables ensures k < 1024 { assert psp.tables[k] == psp.tables[k]; }
    }
    SeenKeys(s0, psp, csp);
  }

  lemma SeenKeys(s0: Snap, psp: Space, csp: Space)
    requires forall u: nat {:trigger u in csp.pages} :: u in csp.pages <==> HasPage(s0.m, psp, u) && u < 1024 * 1024
    ensures csp.pages.Keys == SeenPages(s0.m, psp)
  {
    hide HasPage, SeenPages;
    forall u: nat ensures u in csp.pages.Keys <==> u in SeenPages(s0.m, psp) {
      SeenIff(s0.m, psp, u);
      SeenBound(s0.m, psp, u);
    }
  }

  lemma SeenBound(m: seq<Byte>, sp: Space, u: nat)
    ensures HasPage(m, sp, u) ==> u < 1024 * 1024
  {
    assert HasPage(m, sp, u) ==> sp.tables[u / 1024] == sp.tables[u / 1024];
  }

  lemma CopiedFrames(s0: Snap, psp: Space, s: Snap, csp: Space, i: nat, v: nat, nbits: int)
    requires Cloning(s0, psp, s, csp, i, v) && FromPool(s0.used, s.used, nbits)
    ensures |csp.tables| + |csp.pages| <= |FreeFrames(s0.used, nbits)|
    ensures Exhausted(s.used, nbits) ==> |csp.tables| + |csp.pages| == |FreeFrames(s0.used, nbits)|
  {
    CloningParts(s0, psp, s, csp, i, v);
    hide *;
    OwnedCount(csp);
    DirOwned(csp);
    GainedCount(s0.used, {csp.dir}, s.used, Owned(csp), nbits);
  }

  lemma DirOwned(sp: Space)
    ensures {sp.dir} <= Owned(sp) && |{sp.dir}| == 1
  {
  }

  /** Copying ran out of memory because there was too little of it. */
  lemma TooFewFrames(s0: Snap, psp: Space, s: Snap, csp: Space, i: nat, v: nat, nbits: int)
    requires Cloning(s0, psp, s, csp, i, v) && FromPool(s0.used, s.used, nbits) && Exhausted(s.used, nbits)
    requires Missing(s0, psp, i, v)
    ensures |FreeFrames(s0.used, nbits)| < |psp.tables| + |SeenPages(s0.m, psp)|
  {
    hide InPlace, Copied, SameOutside, PageFrom, FromPool, Exhausted, FreeFrames, Owned, HasPage, SeenPages,
         AllFlagged;
    var seen := SeenPages(s0.m, psp);
    CopiedFrames(s0, psp, s, csp, i, v, nbits);
    forall u | u in csp.pages.Keys ensures u in seen { SeenIff(s0.m, psp, u); }
    SubsetCount(csp.tables.Keys, psp.tables.Keys);
    SubsetCount(csp.pages.Keys, seen);
    assert psp.tables.Keys - csp.tables.Keys != {} || seen - csp.pages.Keys != {} by {
      if k :| k in psp.tables && k >= i {
        assert k in psp.tables.Keys - csp.tables.Keys;
      } else {
        var u: nat :| HasPage(s0.m, psp, u) && u >= v;
        SeenIff(s0.m, psp, u);
        assert u in seen - csp.pages.Keys;
      }
    }
  }

  lemma EnoughFrames(s0: Snap, psp: Space, s: Snap, csp: Space, nbits: int)
    requires Cloning(s0, psp, s, csp, 1024, 1024 * 1024) && FromPool(s0.used, s.used, nbits)
    ensures |psp.tables| + |SeenPages(s0.m, psp)| <= |FreeFrames(s0.used, nbits)|
  {
    hide *;
    CopiedFrames(s0, psp, s, csp, 1024, 1024 * 1024, nbits);
    AllCloned(s0, psp, s, csp);
    SameKeys(s0, psp, s, csp);
  }

  lemma SameKeys(s0: Snap, psp: Space, s: Snap, csp: Space)
    requires Cloned(s0, psp, s, csp)
    ensures |csp.tables| == |psp.tables| && |csp.pages| == |SeenPages(s0.m, psp)|
  {
    hide InPlace, Copied, SameOutside, PageFrom, Owned, SeenPages, AllFlagged;
    assert |csp.tables.Keys| == |csp.tables| && |csp.pages.Keys| == |csp.pages|;
    assert |psp.tables.Keys| == |psp.tables|;
  }

  /** Copy the user half of the parent's address space, with whatever its tables lead to, for a
      child that has a fresh directory. It succeeds exactly when there is a free frame for every
      table and every present entry of the parent. Otherwise all frames that were free hold
      part of a copy, and those behind misread words are freed. */
  method CopyMemory(mc: Machine, ppde: nat, pde: nat, ghost psp: Space) returns (err: int, ghost csp: Space)
    requires mc.Has(psp) && mc.Has(EmptySpace(pde / 4096))
    requires ppde == psp.dir * 4096 && pde % 4096 == 0 && pde / 4096 !in Owned(psp)
    modifies mc.ram, mc.bits.base
    ensures mc.Sane() && (err == 0 || err == -1) && csp.dir == pde / 4096
    ensures err == 0 ==> mc.Valid() && Cloned(old(mc.Now()), psp, mc.Now(), csp)
    ensures err == 0 ==> Paced(old(mc.Now()), psp, mc.Now().used, csp, mc.bits.nbits)
    ensures err != 0 ==>
      && PartlyCloned(old(mc.Now()), psp, mc.Now().m, csp)
      && Exhausted(old(mc.Now()).used + Owned(csp), mc.bits.nbits)
      && mc.Now().used == old(mc.Now()).used + Owned(csp) - Misfreed(mc.Now().m, csp)
    ensures err == 0 <==>
      |psp.tables| + |SeenPages(old(mc.Now()).m, psp)| <= |FreeFrames(old(mc.Now()).used, mc.bits.nbits)|
  {
    hide *;
    ghost var s0 := mc.Now();
    csp := EmptySpace(pde / 4096);
    mc.HasParts(psp);
    mc.HasParts(csp);
    CloningStart(s0, psp, pde / 4096);
    PacedStart(s0, psp, pde / 4096, mc.bits.nbits);
    UserStart();
    var i := PdeIndex(USER_MEMORY_BEGIN);
    while i < 1024
      invariant USER_FIRST <= i <= 1024 && mc.Valid() && Paced(s0, psp, mc.Now().used, csp, mc.bits.nbits)
      invariant Cloning(s0, psp, mc.Now(), csp, i, 1024 * i) && csp.dir == pde / 4096
    {
      Directories(s0, psp, mc.Now(), csp, i, 1024 * i);
      var w := mc.Load(ppde + 4 * i);
      ParentSlot(mc.Now().m, psp, i, w);
      if Present(w) {
        var ok;
        ghost var i', v;
        ok, csp, i', v := CloneTable(mc, ppde, pde, i, s0, psp, csp);
        if !ok {
          PacedParts(s0, psp, mc.Now().used, csp, mc.bits.nbits);
          TooFewFrames(s0, psp, mc.Now(), csp, i', v, mc.bits.nbits);
          TablesBelow(s0, psp, mc.Now(), csp, i', v, mc.bits.nbits);
          CloningParts(s0, psp, mc.Now(), csp, i', v);
          CopiedInPlace(s0.m, mc.Now(), csp);
          PartlyFrom(s0, psp, mc.Now(), csp, i', v);
          mc.ValidFacts();
          DistoryMemory(mc, pde, csp);
          return -1, csp;
        }
      } else {
        SkipSlot(s0, psp, mc.Now(), csp, i);
      }
      i := i + 1;
    }
    AllCloned(s0, psp, mc.Now(), csp);
    PacedParts(s0, psp, mc.Now().used, csp, mc.bits.nbits);
    EnoughFrames(s0, psp, mc.Now(), csp, mc.bits.nbits);
    err := 0;
  }

  /** The byte that virtual address `a` stands for. */
  function Read(m: seq<Byte>, dir: nat, a: int): Byte
    requires |m| == RAM_SIZE && dir < PAGES && 0 <= a < RAM_SIZE
  {
    m[Walk(m, dir, a)]
  }

  lemma ClonedParts(s0: Snap, psp: Space, s: Snap, csp: Space)
    requires Cloned(s0, psp, s, csp)
    ensures Copied(s0.m, s, csp) && InPlace(s0, psp) && csp.dir !in Owned(psp)
    ensures s.used == s0.used + Owned(csp) && Owned(csp) * s0.used == {csp.dir}
    ensures SameOutside(s0.m, s.m, Owned(csp))
    ensures csp.tables.Keys == psp.tables.Keys && csp.pages.Keys == SeenPages(s0.m, psp)
  {
  }

  /** Parent and child after the copy. */
  lemma ClonedSpaces(s0: Snap, psp: Space, s: Snap, csp: Space)
    requires Cloned(s0, psp, s, csp)
    ensures Carries(s0.m, s.m, csp) && Leads(s.m, csp) && Separate(csp) && Shaped(csp) && InPlace(s, csp)
    ensures InMemory(s0.m, psp) && InMemory(s.m, psp) && InPlace(s, psp) && Shaped(psp)
    ensures |s0.m| == RAM_SIZE && |s.m| == RAM_SIZE && csp.dir < PAGES && psp.dir < PAGES
    ensures Owned(csp) !! Owned(psp) && Owned(csp) !! Structure(psp)
  {
    hide *;
    ClonedParts(s0, psp, s, csp);
    CopiedParts(s0.m, s, csp);
    CopiedInPlace(s0.m, s, csp);
    InPlaceParts(s, csp);
    InPlaceParts(s0, psp);
    Apart(psp, csp, s0.used);
    InMemorySame(s0.m, s.m, psp, Owned(csp));
    InPlaceFrom(s, psp);
  }

  lemma ApartSets(a: set<nat>, b: set<nat>, u: set<nat>, d: nat)
    requires a <= u && b * u == {d} && d !in a
    ensures b !! a
  {
    forall x | x in a ensures x !in b { assert x in b * u <==> x in b; }
  }

  lemma StructureOwned(sp: Space)
    ensures Structure(sp) <= Owned(sp)
  {
  }

  /** The parent's entry of address `a` is present, and leads to a frame that is in use, and is
      neither page zero nor the child's directory. */
  ghost predicate Inherits(s0: Snap, psp: Space, csp: Space, a: int) {
    0 <= a && HasPage(s0.m, psp, a / 4096) && Settled(s0, csp, Source(s0.m, psp, a / 4096))
  }

  /** So it is for every page of the parent, */
  lemma PagesInherit(s0: Snap, psp: Space, s: Snap, csp: Space, a: int)
    requires Cloned(s0, psp, s, csp) && 0 <= a && a / 4096 in psp.pages
    ensures Inherits(s0, psp, csp, a)
  {
    ClonedParts(s0, psp, s, csp);
    ClonedSpaces(s0, psp, s, csp);
    hide Cloned, Carries, Copied;
    PageSeen(s0.m, psp, a / 4096);
    PagesAside(s0, psp, a / 4096);
    assert 1 <= psp.pages[a / 4096];
  }

  /** and when memory holds exactly the parent's space, for every address that it maps. */
  lemma MappedInherit(s0: Snap, psp: Space, s: Snap, csp: Space, a: int)
    requires Resident(s0, psp) && Cloned(s0, psp, s, csp) && USER_MEMORY_BEGIN <= a < RAM_SIZE
    ensures Mapped(s0.m, psp.dir, a) ==> Inherits(s0, psp, csp, a)
  {
    MappedExactly(s0.m, psp, a);
    if Mapped(s0.m, psp.dir, a) { PagesInherit(s0, psp, s, csp, a); }
  }

  lemma ChildFrame(s0: Snap, psp: Space, s: Snap, csp: Space, v: nat)
    requires Cloned(s0, psp, s, csp) && HasPage(s0.m, psp, v) && Settled(s0, csp, Source(s0.m, psp, v))
    ensures v in csp.pages && 1 <= csp.pages[v] < PAGES && csp.pages[v] !in s0.used
    ensures Source(s0.m, psp, v) !in Owned(csp)
    ensures |s0.m| == RAM_SIZE && |s.m| == RAM_SIZE && SameFrame(s0.m, s.m, Source(s0.m, psp, v))
    ensures SamePage(s.m, csp.pages[v], Source(s0.m, psp, v))
  {
    ClonedParts(s0, psp, s, csp);
    ClonedSpaces(s0, psp, s, csp);
    SeenIff(s0.m, psp, v);
    assert v in csp.pages.Keys;
    assert PageFrom(s0, psp, s.m, csp, v) by { assert csp.pages[v] == csp.pages[v]; }
    SettledAside(s0, s, csp, Source(s0.m, psp, v));
    hide Cloned, Copied, Carries, InPlace, InMemory, Leads, SamePage, HasPage, Source, Owned, Structure;
    OtherFrame(s0.m, s.m, Owned(csp), Source(s0.m, psp, v));
    ChildPage(s, csp, v);
    assert csp.pages[v] !in Owned(csp) * s0.used;
  }

  lemma ChildPage(s: Snap, sp: Space, v: nat)
    requires InPlace(s, sp) && v in sp.pages
    ensures sp.pages[v] in Owned(sp) && sp.pages[v] != sp.dir && 1 <= sp.pages[v] < PAGES
  {
    PagesAside(s, sp, v);
    InPlaceParts(s, sp);
    assert 1 <= sp.pages[v];
  }

  lemma SameBytes(m0: seq<Byte>, g: nat, m: seq<Byte>, f: nat, k: nat)
    requires |m0| == RAM_SIZE && |m| == RAM_SIZE && f < PAGES && g < PAGES && k < 4096
    requires SameFrame(m0, m, g) && SamePage(m, f, g)
    ensures m[f * 4096 + k] == m[g * 4096 + k] == m0[g * 4096 + k]
    ensures (f * 4096 + k) / 4096 == f && (g * 4096 + k) / 4096 == g
  {
    SameByte(m0, m, g, k);
    assert ByteIn(m, f, k) == ByteIn(m, g, k);
  }

  /** Where the walk leads by a present entry. */
  lemma WalkSource(m: seq<Byte>, sp: Space, a: int)
    requires InMemory(m, sp) && USER_MEMORY_BEGIN <= a < RAM_SIZE && HasPage(m, sp, a / 4096)
    ensures Walk(m, sp.dir, a) == Source(m, sp, a / 4096) * 4096 + a % 4096
  {
    hide Walk, InMemory;
    WalkElsewhere(m, sp, a);
  }

  /** Fork isolation, whatever the free frames held. What the child inherits translates in it to
      the same byte as in the parent, in a frame that was free before the fork; the parent's own
      translations are all as they were, and those bytes too. */
  lemma ForkIsolation(s0: Snap, psp: Space, s: Snap, csp: Space, a: int)
    requires Cloned(s0, psp, s, csp) && USER_MEMORY_BEGIN <= a < RAM_SIZE
    ensures |s0.m| == RAM_SIZE && |s.m| == RAM_SIZE && psp.dir < PAGES && csp.dir < PAGES
    ensures Walk(s.m, psp.dir, a) == Walk(s0.m, psp.dir, a)
    ensures Inherits(s0, psp, csp, a) ==>
      && Mapped(s.m, csp.dir, a)
      && Read(s.m, csp.dir, a) == Read(s.m, psp.dir, a) == Read(s0.m, psp.dir, a)
      && Walk(s.m, csp.dir, a) / 4096 !in s0.used
      && Walk(s.m, psp.dir, a) / 4096 in s0.used
  {
    hide *;
    ClonedParts(s0, psp, s, csp);
    ClonedSpaces(s0, psp, s, csp);
    WalkSame(s0.m, s.m, psp, Owned(csp), a);
    if Inherits(s0, psp, csp, a) {
      InheritsIs(s0, psp, csp, a);
      ChildFrame(s0, psp, s, csp, a / 4096);
      WalkSource(s0.m, psp, a);
      LeadsToByte(s.m, csp, a);
      SameBytes(s0.m, Source(s0.m, psp, a / 4096), s.m, csp.pages[a / 4096], a % 4096);
      ReadIs(s0.m, psp.dir, a);
      ReadIs(s.m, psp.dir, a);
      ReadIs(s.m, csp.dir, a);
    }
  }

  lemma InheritsIs(s0: Snap, psp: Space, csp: Space, a: int)
    requires Inherits(s0, psp, csp, a)
    ensures 0 <= a / 4096 && HasPage(s0.m, psp, a / 4096) && Settled(s0, csp, Source(s0.m, psp, a / 4096))
    ensures Source(s0.m, psp, a / 4096) in s0.used
  {
  }

  lemma LeadsToByte(m: seq<Byte>, sp: Space, a: int)
    requires Leads(m, sp) && USER_MEMORY_BEGIN <= a < RAM_SIZE && a / 4096 in sp.pages
    ensures |m| == RAM_SIZE && sp.dir < PAGES && Walk(m, sp.dir, a) == sp.pages[a / 4096] * 4096 + a % 4096
    ensures Mapped(m, sp.dir, a)
  {
    WalkLeads(m, sp, a);
    assert 1 <= sp.pages[a / 4096];
  }

  lemma ReadIs(m: seq<Byte>, dir: nat, a: int)
    requires |m| == RAM_SIZE && dir < PAGES && USER_MEMORY_BEGIN <= a < RAM_SIZE
    ensures Read(m, dir, a) == m[Walk(m, dir, a)]
  {
  }

  /** Different pages of the parent lie in different frames of the child. */
  lemma ChildPagesDistinct(s0: Snap, psp: Space, s: Snap, csp: Space, a: int, b: int)
    requires Cloned(s0, psp, s, csp)
    requires 0 <= a < RAM_SIZE && 0 <= b < RAM_SIZE && a / 4096 != b / 4096
    requires HasPage(s0.m, psp, a / 4096) && HasPage(s0.m, psp, b / 4096)
    ensures |s.m| == RAM_SIZE && csp.dir < PAGES
    ensures Walk(s.m, csp.dir, a) / 4096 != Walk(s.m, csp.dir, b) / 4096
  {
    hide *;
    ClonedParts(s0, psp, s, csp);
    ClonedSpaces(s0, psp, s, csp);
    SeenIff(s0.m, psp, a / 4096);
    SeenIff(s0.m, psp, b / 4096);
    assert a / 4096 in csp.pages.Keys && b / 4096 in csp.pages.Keys;
    LeadsToPage(s.m, csp, a);
    LeadsToPage(s.m, csp, b);
    FramesDiffer(csp, a / 4096, b / 4096);
  }

  lemma LeadsToPage(m: seq<Byte>, sp: Space, a: int)
    requires Leads(m, sp) && 0 <= a < RAM_SIZE && a / 4096 in sp.pages
    ensures Walk(m, sp.dir, a) / 4096 == sp.pages[a / 4096]
  {
    WalkLeads(m, sp, a);
  }

  lemma FramesDiffer(sp: Space, u: nat, v: nat)
    requires Separate(sp) && u in sp.pages && v in sp.pages && u != v
    ensures sp.pages[u] != sp.pages[v]
  {
  }
}
