/** Two-level page tables in physical memory (32-bit paging, section 4.3 of the Intel 64 and
    IA-32 SDM, volume 3A), and the address spaces they represent. */
module Paging {
  import opened PhysMem
  import opened Bitmap

  const PAGE_SIZE: int := 4096
  const USER_MEMORY_BEGIN: int := 0x4000_0000
  const USER_FIRST: nat := 256                 // pde_index(USER_MEMORY_BEGIN)
  const KERNEL_DIR: nat := 0x200               // the frame of KERNEL_PAGE_DIR

  /** present, read-write, user, accessed, copy-on-write */
  const PAGE_SHARED: int := 1 + 2 + 4 + 32 + 512

  function PdeIndex(v: int): int { v / 0x40_0000 }
  function PteIndex(v: int): int { v / 0x1000 % 0x400 }
  function AlignDown(a: int): int { a - a % PAGE_SIZE }
  function Present(w: int): bool { w % 2 == 1 }
  function Dirty(w: int): bool { w / 64 % 2 == 1 }

  /** Virtual page `v` is entry v % 1024 of the table in directory slot v / 1024. */
  lemma Indices(a: int)
    requires 0 <= a < RAM_SIZE
    ensures PdeIndex(a) == a / PAGE_SIZE / 1024 && PteIndex(a) == a / PAGE_SIZE % 1024
    ensures 0 <= PdeIndex(a) < 1024 && 0 <= PteIndex(a) < 1024
    ensures a == AlignDown(a) + a % PAGE_SIZE && AlignDown(a) == a / PAGE_SIZE * PAGE_SIZE
  {
  }

  /** Entry `k` of the page-sized table in frame `f`. */
  function Entry(m: seq<Byte>, f: nat, k: nat): (w: int)
    requires |m| == RAM_SIZE && f < PAGES && k < 1024
    ensures 0 <= w < RAM_SIZE
  {
    Word(m, f * 4096 + 4 * k)
  }

  /** A whole page fits behind an aligned address. */
  lemma AlignedFits(a: int)
    requires 0 <= a < RAM_SIZE
    ensures 0 <= AlignDown(a) && AlignDown(a) + 4096 <= RAM_SIZE && (a % PAGE_SIZE == 0 ==> AlignDown(a) == a)
  {
  }

  /** The software page walk: zero when the directory entry is empty. */
  function TransVtop(m: seq<Byte>, pd: nat, v: int): (p: int)
    requires |m| == RAM_SIZE && pd % PAGE_SIZE == 0 && pd < RAM_SIZE && 0 <= v < RAM_SIZE
    ensures 0 <= p < RAM_SIZE
  {
    Indices(v);
    AlignedFits(pd);
    var page := Word(m, pd + 4 * PdeIndex(v));
    if page == 0 then 0
    else
      AlignedFits(page);
      var entry := Word(m, AlignDown(page) + 4 * PteIndex(v));
      AlignedFits(entry);
      AlignDown(entry) + v % PAGE_SIZE
  }

  /** An address space: its directory's frame, its tables by directory slot, its pages by
      virtual page number, each as a physical frame. */
  datatype Space = Space(dir: nat, tables: map<nat, nat>, pages: map<nat, nat>)

  /** The entry is present and leads to frame `f`. */
  predicate Links(w: int, f: nat) {
    w / PAGE_SIZE == f && Present(w)
  }

  ghost predicate Shaped(sp: Space) {
    && 1 <= sp.dir < PAGES
    && (forall i {:trigger sp.tables[i]} :: i in sp.tables ==> USER_FIRST <= i < 1024 && 1 <= sp.tables[i] < PAGES)
    && (forall v {:trigger sp.pages[v]} :: v in sp.pages ==> v / 1024 in sp.tables && 1 <= sp.pages[v] < PAGES)
  }

  /** The table entry of virtual page `v`. */
  ghost function PageWord(m: seq<Byte>, sp: Space, v: nat): (w: int)
    requires |m| == RAM_SIZE && Shaped(sp) && v / 1024 in sp.tables
    ensures 0 <= w < RAM_SIZE
  {
    Entry(m, sp.tables[v / 1024], v % 1024)
  }

  /** Directory slot `i` holds what the space says. */
  ghost predicate SlotOk(m: seq<Byte>, sp: Space, i: nat)
    requires |m| == RAM_SIZE && Shaped(sp) && i < 1024
  {
    if i in sp.tables then Links(Entry(m, sp.dir, i), sp.tables[i]) else Entry(m, sp.dir, i) == 0
  }

  /** The table entry of virtual page `v` holds what the space says. */
  ghost predicate PageOk(m: seq<Byte>, sp: Space, v: nat)
    requires |m| == RAM_SIZE && Shaped(sp) && v / 1024 in sp.tables
  {
    var w := Entry(m, sp.tables[v / 1024], v % 1024);
    if v in sp.pages then Links(w, sp.pages[v]) else w == 0
  }

  /** Memory holds exactly this space in the user half of the directory. */
  ghost predicate Maps(m: seq<Byte>, sp: Space) {
    && |m| == RAM_SIZE && Shaped(sp)
    && (forall i: nat {:trigger SlotOk(m, sp, i)} :: USER_FIRST <= i < 1024 ==> SlotOk(m, sp, i))
    && (forall v: nat {:trigger PageOk(m, sp, v)} :: v / 1024 in sp.tables ==> PageOk(m, sp, v))
  }

  /** No frame is used twice. */
  ghost predicate Separate(sp: Space) {
    && (forall i :: i in sp.tables ==> sp.tables[i] != sp.dir)
    && (forall v :: v in sp.pages ==> sp.pages[v] != sp.dir)
    && (forall i, v :: i in sp.tables && v in sp.pages ==> sp.tables[i] != sp.pages[v])
    && (forall i, j :: i in sp.tables && j in sp.tables && sp.tables[i] == sp.tables[j] ==> i == j)
    && (forall u, v :: u in sp.pages && v in sp.pages && sp.pages[u] == sp.pages[v] ==> u == v)
  }

  /** The frames the page walk itself reads. */
  ghost function Structure(sp: Space): set<nat> {
    {sp.dir} + sp.tables.Values
  }

  ghost function Owned(sp: Space): set<nat> {
    {sp.dir} + sp.tables.Values + sp.pages.Values
  }

  // ---------------------------------------------------------------- frames and entries

  ghost predicate SameFrame(m: seq<Byte>, m': seq<Byte>, f: nat)
    requires |m| == RAM_SIZE && |m'| == RAM_SIZE
  {
    forall a {:trigger m'[a]} :: f * 4096 <= a < (f + 1) * 4096 && 0 <= a < RAM_SIZE ==> m'[a] == m[a]
  }

  /** Every byte outside the frames `fs` is the same. */
  ghost predicate SameOutside(m: seq<Byte>, m': seq<Byte>, fs: set<nat>) {
    && |m| == RAM_SIZE && |m'| == RAM_SIZE
    && forall f: nat {:trigger SameFrame(m, m', f)} :: f < PAGES && f !in fs ==> SameFrame(m, m', f)
  }

  ghost predicate ZeroFrame(m: seq<Byte>, f: nat)
    requires |m| == RAM_SIZE && f < PAGES
  {
    forall k: nat {:trigger Entry(m, f, k)} :: k < 1024 ==> Entry(m, f, k) == 0
  }

  lemma EntrySame(m: seq<Byte>, m': seq<Byte>, f: nat, k: nat)
    requires |m| == RAM_SIZE && |m'| == RAM_SIZE && f < PAGES && k < 1024 && SameFrame(m, m', f)
    ensures Entry(m', f, k) == Entry(m, f, k)
  {
  }

  lemma SameTransitive(m: seq<Byte>, m1: seq<Byte>, m2: seq<Byte>, fs: set<nat>)
    requires SameOutside(m, m1, fs) && SameOutside(m1, m2, fs)
    ensures SameOutside(m, m2, fs)
  {
    forall f: nat | f < PAGES && f !in fs ensures SameFrame(m, m2, f) {
      assert SameFrame(m, m1, f) && SameFrame(m1, m2, f);
      forall a | f * 4096 <= a < (f + 1) * 4096 && 0 <= a < RAM_SIZE ensures m2[a] == m[a] {
        assert m1[a] == m[a];
      }
    }
  }

  function SetEntry(m: seq<Byte>, f: nat, k: nat, w: int): (m': seq<Byte>)
    requires |m| == RAM_SIZE && f < PAGES && k < 1024 && 0 <= w < RAM_SIZE
    ensures |m'| == RAM_SIZE
  {
    SetWord(m, f * 4096 + 4 * k, w)
  }

  lemma EntrySet(m: seq<Byte>, f: nat, k: nat, w: int)
    requires |m| == RAM_SIZE && f < PAGES && k < 1024 && 0 <= w < RAM_SIZE
    ensures var m' := SetEntry(m, f, k, w);
      && Entry(m', f, k) == w && SameOutside(m, m', {f})
      && (forall j: nat {:trigger Entry(m', f, j)} :: j < 1024 && j != k ==> Entry(m', f, j) == Entry(m, f, j))
  {
    var m' := SetEntry(m, f, k, w);
    WordSet(m, f * 4096 + 4 * k, w, f * 4096 + 4 * k);
    forall j: nat | j < 1024 && j != k ensures Entry(m', f, j) == Entry(m, f, j) {
      WordSet(m, f * 4096 + 4 * k, w, f * 4096 + 4 * j);
    }
    forall g: nat | g < PAGES && g !in {f} ensures SameFrame(m, m', g) {
      assert g < f || g > f;
    }
  }

  /** The space is still there when the walk's own frames were not written. */
  lemma MapsSame(m: seq<Byte>, m': seq<Byte>, sp: Space, fs: set<nat>)
    requires Maps(m, sp) && SameOutside(m, m', fs) && fs !! Structure(sp)
    ensures Maps(m', sp)
  {
    assert sp.dir in Structure(sp);
    forall i: nat | USER_FIRST <= i < 1024 ensures SlotOk(m', sp, i) {
      assert SlotOk(m, sp, i) && SameFrame(m, m', sp.dir);
      EntrySame(m, m', sp.dir, i);
    }
    forall v: nat | v / 1024 in sp.tables ensures PageOk(m', sp, v) {
      var t := sp.tables[v / 1024];
      assert t in Structure(sp);
      assert PageOk(m, sp, v) && SameFrame(m, m', t);
      EntrySame(m, m', t, v % 1024);
    }
  }

  // ---------------------------------------------------------------- the page walk

  lemma FrameAligned(f: nat)
    requires f < PAGES
    ensures f * 4096 % PAGE_SIZE == 0 && f * 4096 < RAM_SIZE
  {
  }

  /** The page walk from the directory in frame `dir`. */
  function Walk(m: seq<Byte>, dir: nat, a: int): (p: int)
    requires |m| == RAM_SIZE && dir < PAGES && 0 <= a < RAM_SIZE
    ensures 0 <= p < RAM_SIZE
  {
    FrameAligned(dir);
    TransVtop(m, dir * 4096, a)
  }

  ghost predicate SlotLeads(m: seq<Byte>, sp: Space, i: nat)
    requires |m| == RAM_SIZE && Shaped(sp)
  {
    i in sp.tables && Links(Entry(m, sp.dir, i), sp.tables[i])
  }

  ghost predicate PageLeads(m: seq<Byte>, sp: Space, v: nat)
    requires |m| == RAM_SIZE && Shaped(sp)
  {
    v in sp.pages && Links(Entry(m, sp.tables[v / 1024], v % 1024), sp.pages[v])
  }

  /** What the space says is in memory, whatever else its tables hold. */
  ghost predicate Leads(m: seq<Byte>, sp: Space) {
    && |m| == RAM_SIZE && Shaped(sp)
    && (forall i: nat {:trigger SlotLeads(m, sp, i)} :: i in sp.tables ==> SlotLeads(m, sp, i))
    && (forall v: nat {:trigger PageLeads(m, sp, v)} :: v in sp.pages ==> PageLeads(m, sp, v))
  }

  /** It is in memory, and the directory has no other table in its user half. */
  ghost predicate InMemory(m: seq<Byte>, sp: Space) {
    && Leads(m, sp)
    && forall i: nat {:trigger Entry(m, sp.dir, i)} :: USER_FIRST <= i < 1024 && i !in sp.tables ==>
         Entry(m, sp.dir, i) == 0
  }

  lemma MapsInMemory(m: seq<Byte>, sp: Space)
    requires Maps(m, sp)
    ensures InMemory(m, sp)
  {
    MapsLeads(m, sp);
    forall i: nat | USER_FIRST <= i < 1024 && i !in sp.tables ensures Entry(m, sp.dir, i) == 0 {
      assert SlotOk(m, sp, i);
    }
  }

  lemma InMemorySame(m: seq<Byte>, m': seq<Byte>, sp: Space, fs: set<nat>)
    requires InMemory(m, sp) && SameOutside(m, m', fs) && fs !! Structure(sp)
    ensures InMemory(m', sp)
  {
    LeadsSame(m, m', sp, fs);
    hide Leads;
    LeadsParts(m, sp);
    assert sp.dir in Structure(sp) && SameFrame(m, m', sp.dir);
    forall i: nat | USER_FIRST <= i < 1024 && i !in sp.tables ensures Entry(m', sp.dir, i) == 0 {
      EntrySame(m, m', sp.dir, i);
      assert Entry(m, sp.dir, i) == 0;
    }
  }

  lemma LeadsParts(m: seq<Byte>, sp: Space)
    requires Leads(m, sp)
    ensures |m| == RAM_SIZE && Shaped(sp) && 1 <= sp.dir < PAGES
  {
  }

  lemma MapsLeads(m: seq<Byte>, sp: Space)
    requires Maps(m, sp)
    ensures Leads(m, sp)
  {
    forall i: nat | i in sp.tables ensures SlotLeads(m, sp, i) {
      assert sp.tables[i] == sp.tables[i];
      assert SlotOk(m, sp, i);
    }
    forall v: nat | v in sp.pages ensures PageLeads(m, sp, v) {
      assert sp.pages[v] == sp.pages[v];
      assert PageOk(m, sp, v);
    }
  }

  lemma LeadsSame(m: seq<Byte>, m': seq<Byte>, sp: Space, fs: set<nat>)
    requires Leads(m, sp) && SameOutside(m, m', fs) && fs !! Structure(sp)
    ensures Leads(m', sp)
  {
    assert sp.dir in Structure(sp);
    forall i: nat | i in sp.tables ensures SlotLeads(m', sp, i) {
      assert SlotLeads(m, sp, i) && SameFrame(m, m', sp.dir);
      assert sp.tables[i] == sp.tables[i];
      EntrySame(m, m', sp.dir, i);
    }
    forall v: nat | v in sp.pages ensures PageLeads(m', sp, v) {
      assert sp.pages[v] == sp.pages[v];
      var t := sp.tables[v / 1024];
      assert t in Structure(sp);
      assert PageLeads(m, sp, v) && SameFrame(m, m', t);
      EntrySame(m, m', t, v % 1024);
    }
  }

  /** The page walk finds the space's pages. */
  lemma WalkLeads(m: seq<Byte>, sp: Space, a: int)
    requires Leads(m, sp) && 0 <= a < RAM_SIZE && a / PAGE_SIZE in sp.pages
    ensures Walk(m, sp.dir, a) == sp.pages[a / PAGE_SIZE] * 4096 + a % PAGE_SIZE
  {
    Indices(a);
    var v := a / PAGE_SIZE;
    assert PageLeads(m, sp, v) && sp.pages[v] == sp.pages[v];
    assert SlotLeads(m, sp, v / 1024);
    var page := Entry(m, sp.dir, v / 1024);
    assert page == Word(m, sp.dir * 4096 + 4 * PdeIndex(a));
    assert page != 0;
    assert AlignDown(page) == sp.tables[v / 1024] * 4096;
  }

  lemma WalkFinds(m: seq<Byte>, sp: Space, a: int)
    requires Maps(m, sp) && 0 <= a < RAM_SIZE && a / PAGE_SIZE in sp.pages
    ensures Walk(m, sp.dir, a) == sp.pages[a / PAGE_SIZE] * 4096 + a % PAGE_SIZE
  {
    MapsLeads(m, sp);
    WalkLeads(m, sp, a);
  }

  /** The page walk leads past page zero: that is how a mapped user address shows. */
  predicate Mapped(m: seq<Byte>, dir: nat, a: int)
    requires |m| == RAM_SIZE && dir < PAGES && 0 <= a < RAM_SIZE
  {
    Walk(m, dir, a) >= PAGE_SIZE
  }

  /** On a page that the space does not have the walk answers with whatever the entry holds. */
  lemma WalkElsewhere(m: seq<Byte>, sp: Space, a: int)
    requires InMemory(m, sp) && USER_MEMORY_BEGIN <= a < RAM_SIZE
    ensures var v := a / PAGE_SIZE;
      Walk(m, sp.dir, a) == if v / 1024 in sp.tables then AlignDown(PageWord(m, sp, v)) + a % PAGE_SIZE else 0
  {
    Indices(a);
    var v := a / PAGE_SIZE;
    var page := Entry(m, sp.dir, v / 1024);
    assert page == Word(m, sp.dir * 4096 + 4 * PdeIndex(a));
    if v / 1024 in sp.tables {
      assert SlotLeads(m, sp, v / 1024) && sp.tables[v / 1024] == sp.tables[v / 1024];
      assert AlignDown(page) == sp.tables[v / 1024] * 4096;
    } else {
      assert USER_FIRST <= v / 1024 < 1024;
    }
  }

  /** The page walk translates a user address past page zero if and only if the space has its
      page, or the entry holds a word that leads there. */
  lemma InMemoryMapped(m: seq<Byte>, sp: Space, a: int)
    requires InMemory(m, sp) && USER_MEMORY_BEGIN <= a < RAM_SIZE
    ensures var v := a / PAGE_SIZE;
      Mapped(m, sp.dir, a) <==> v in sp.pages || (v / 1024 in sp.tables && PageWord(m, sp, v) >= PAGE_SIZE)
  {
    var v := a / PAGE_SIZE;
    WalkElsewhere(m, sp, a);
    if v in sp.pages {
      WalkLeads(m, sp, a);
      assert sp.pages[v] == sp.pages[v];
    }
  }

  /** The pages of a space are exactly the user addresses that the page walk translates. */
  lemma MappedExactly(m: seq<Byte>, sp: Space, a: int)
    requires Maps(m, sp) && USER_MEMORY_BEGIN <= a < RAM_SIZE
    ensures Mapped(m, sp.dir, a) <==> a / PAGE_SIZE in sp.pages
  {
    MapsInMemory(m, sp);
    InMemoryMapped(m, sp, a);
    var v := a / PAGE_SIZE;
    if v !in sp.pages && v / 1024 in sp.tables { assert PageOk(m, sp, v); }
  }

  /** The page walk gives the same address when the frames it reads were not written. */
  lemma WalkSame(m: seq<Byte>, m': seq<Byte>, sp: Space, fs: set<nat>, a: int)
    requires InMemory(m, sp) && SameOutside(m, m', fs) && fs !! Structure(sp) && USER_MEMORY_BEGIN <= a < RAM_SIZE
    ensures Walk(m', sp.dir, a) == Walk(m, sp.dir, a)
  {
    hide Walk, InMemory, SameOutside;
    InMemorySame(m, m', sp, fs);
    WalkElsewhere(m, sp, a);
    WalkElsewhere(m', sp, a);
    InMemoryShape(m, sp);
    var v := a / PAGE_SIZE;
    if v / 1024 in sp.tables { PageWordSame(m, m', sp, fs, v); }
  }

  lemma InMemoryShape(m: seq<Byte>, sp: Space)
    requires InMemory(m, sp)
    ensures |m| == RAM_SIZE && Shaped(sp) && 1 <= sp.dir < PAGES
  {
  }

  lemma PageWordSame(m: seq<Byte>, m': seq<Byte>, sp: Space, fs: set<nat>, v: nat)
    requires |m| == RAM_SIZE && Shaped(sp) && v / 1024 in sp.tables
    requires SameOutside(m, m', fs) && fs !! Structure(sp)
    ensures |m'| == RAM_SIZE && PageWord(m', sp, v) == PageWord(m, sp, v)
  {
    var t := sp.tables[v / 1024];
    assert t in Structure(sp) && SameFrame(m, m', t);
    EntrySame(m, m', t, v % 1024);
  }
}
