/** Growing an address space by tables and pages, with the frames they take. */
module Growth {
  import opened PhysMem
  import opened Bitmap
  import opened Paging
  import opened Spaces
  import opened Recycled

  /** From one space to a larger one: the frames it gained were free and are now used, no other
      page changed hands, and only page tables were written; what its entries without a page
      hold, they or their frame held before. */
  ghost predicate Grown(s: Snap, sp: Space, s': Snap, sp': Space) {
    && Copied(s.m, s', sp') && Extends(sp, sp')
    && Owned(sp) <= Owned(sp') && Structure(sp) <= Structure(sp')
    && SameOutside(s.m, s'.m, Structure(sp'))
    && s'.used == s.used + Owned(sp') && Owned(sp') * s.used == Owned(sp)
  }

  lemma GrownNone(s: Snap, sp: Space)
    requires InPlace(s, sp)
    ensures Grown(s, sp, s, sp)
  {
  }

  lemma GrownInPlace(s: Snap, sp: Space, s': Snap, sp': Space)
    requires Grown(s, sp, s', sp')
    ensures InPlace(s', sp') && s.used <= s'.used
  {
  }

  /** A new table, whatever its frame holds. */
  lemma GrowTable(s: Snap, sp: Space, i: nat, t: nat)
    requires InPlace(s, sp) && USER_FIRST <= i < 1024 && i !in sp.tables
    requires 1 <= t < PAGES && t !in s.used && KERNEL_DIR in s.used && |s.m| == RAM_SIZE && sp.dir < PAGES
    ensures Grown(s, sp, Snap(SetEntry(s.m, sp.dir, i, EntryFor(t)), s.used + {t}), AddTable(sp, i, t))
  {
    hide *;
    InPlaceParts(s, sp);
    var s', sp' := Snap(SetEntry(s.m, sp.dir, i, EntryFor(t)), s.used + {t}), AddTable(sp, i, t);
    CarriesSelf(s.m, sp);
    SameFrameSelf(s.m, t);
    CarriesTable(s.m, s.m, sp, i, t);
    SeparateAddTable(sp, i, t);
    OwnedAddTable(sp, i, t);
    EntrySet(s.m, sp.dir, i, EntryFor(t));
    DirInStructure(sp);
    SameOutsideMore(s.m, s'.m, {sp.dir}, Structure(sp'));
    CopiedFrom(s.m, s', sp');
    GrownFrom(s, sp, s', sp');
  }

  lemma SameFrameSelf(m: seq<Byte>, f: nat)
    requires |m| == RAM_SIZE
    ensures SameFrame(m, m, f)
  {
  }

  lemma DirInStructure(sp: Space)
    ensures sp.dir in Structure(sp)
  {
  }

  /** Entering the frame `f` for page `v`, which gives up the frame the page had, if any. */
  lemma EnterPage(m0: seq<Byte>, s: Snap, sp: Space, v: nat, f: nat)
    requires Copied(m0, s, sp) && v / 1024 in sp.tables
    requires 1 <= f < PAGES && f !in s.used && KERNEL_DIR in s.used && sp.tables[v / 1024] < PAGES && |s.m| == RAM_SIZE
    ensures var s', sp' := Snap(SetEntry(s.m, sp.tables[v / 1024], v % 1024, EntryFor(f)), s.used + {f}),
        AddPage(sp, v, f);
      && Copied(m0, s', sp') && Extends(Dropped(sp, v), sp') && SameOutside(s.m, s'.m, Structure(sp'))
      && Owned(sp') == Owned(Dropped(sp, v)) + {f} && Structure(sp') == Structure(sp)
  {
    hide *;
    CopiedParts(m0, s, sp);
    CarriesPage(m0, s.m, sp, v, f);
    DroppedOwned(sp, v);
    var d, t := Dropped(sp, v), sp.tables[v / 1024];
    DropThenAdd(sp, v, f);
    SeparateAddPage(d, v, f);
    OwnedAddPage(d, v, f);
    TableInStructure(sp, v / 1024);
    EntrySet(s.m, t, v % 1024, EntryFor(f));
    SameOutsideMore(s.m, SetEntry(s.m, t, v % 1024, EntryFor(f)), {t}, Structure(sp));
    CopiedFrom(m0, Snap(SetEntry(s.m, t, v % 1024, EntryFor(f)), s.used + {f}), AddPage(sp, v, f));
  }

  lemma DropThenAdd(sp: Space, v: nat, f: nat)
    ensures AddPage(Dropped(sp, v), v, f) == AddPage(sp, v, f) && v !in Dropped(sp, v).pages
  {
    assert AddPage(Dropped(sp, v), v, f).pages == AddPage(sp, v, f).pages;
  }

  /** One more page on the way from `c` to `sp`: a page of `c` that it replaces is given up. */
  lemma GrowPage(s0: Snap, c: Space, s: Snap, sp: Space, v: nat, f: nat)
    requires Grown(s0, c, s, sp) && Separate(c) && v / 1024 in sp.tables && (v in sp.pages ==> v in c.pages)
    requires 1 <= f < PAGES && f !in s.used && KERNEL_DIR in s.used && sp.tables[v / 1024] < PAGES && |s.m| == RAM_SIZE
    ensures Grown(s0, Dropped(c, v), Snap(SetEntry(s.m, sp.tables[v / 1024], v % 1024, EntryFor(f)), s.used + {f}),
        AddPage(sp, v, f))
  {
    hide *;
    var s', sp' := Snap(SetEntry(s.m, sp.tables[v / 1024], v % 1024, EntryFor(f)), s.used + {f}), AddPage(sp, v, f);
    GrownParts(s0, c, s, sp);
    EnterPage(s0.m, s, sp, v, f);
    DroppedOwned(c, v);
    DroppedOwned(sp, v);
    DroppedExtends(c, sp, v, f);
    SameTransitive(s0.m, s.m, s'.m, Structure(sp'));
    GrowSets(s0.used, Owned(sp), Owned(c), if v in c.pages then {c.pages[v]} else {}, f);
    GrownFrom(s0, Dropped(c, v), s', sp');
  }

  lemma DroppedExtends(c: Space, sp: Space, v: nat, f: nat)
    requires Extends(c, sp) && (v in sp.pages ==> v in c.pages)
    ensures Extends(Dropped(c, v), AddPage(sp, v, f)) && (v in sp.pages <==> v in c.pages)
    ensures v in c.pages ==> c.pages[v] == sp.pages[v] && c.pages[v] in Owned(c)
  {
    assert v in c.pages ==> c.pages[v] == c.pages[v];
  }

  lemma GrowSets(u: set<nat>, o: set<nat>, c: set<nat>, g: set<nat>, f: nat)
    requires o * u == c && c <= u && c <= o && g <= c && f !in u + o
    ensures u + o + {f} == u + (o - g + {f}) && (o - g + {f}) * u == c - g && c - g <= o - g + {f}
  {
  }

  lemma GrownFrom(s: Snap, sp: Space, s': Snap, sp': Space)
    requires Copied(s.m, s', sp') && Extends(sp, sp') && Owned(sp) <= Owned(sp') && Structure(sp) <= Structure(sp')
    requires SameOutside(s.m, s'.m, Structure(sp'))
    requires s'.used == s.used + Owned(sp') && Owned(sp') * s.used == Owned(sp)
    ensures Grown(s, sp, s', sp')
  {
  }

  lemma GrownParts(s0: Snap, c: Space, s: Snap, sp: Space)
    requires Grown(s0, c, s, sp)
    ensures Copied(s0.m, s, sp) && InPlace(s, sp) && Separate(sp) && Extends(c, sp)
    ensures Structure(c) <= Structure(sp) && Owned(c) <= Owned(sp)
    ensures SameOutside(s0.m, s.m, Structure(sp)) && Owned(c) <= s0.used
    ensures s.used == s0.used + Owned(sp) && Owned(sp) * s0.used == Owned(c)
  {
  }
}
