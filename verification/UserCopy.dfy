/** Copies between kernel buffers and a process: page-chunked loops against flat virtual memory. */
module UserCopy {
  import opened PhysMem
  import opened Bitmap
  import opened Paging
  import opened Spaces
  import opened Recycled
  import opened AddressSpace
  import opened Fork

  /** Reference: copy `n` bytes to virtual address `to`, one at a time through the page walk. */
  function FlatTo(m: seq<Byte>, dir: nat, to: nat, from: nat, n: nat): (r: seq<Byte>)
    requires |m| == RAM_SIZE && dir < PAGES && to + n <= RAM_SIZE && from + n <= RAM_SIZE
    ensures |r| == |m|
  {
    if n == 0 then m
    else
      var m1 := FlatTo(m, dir, to, from, n - 1);
      m1[Walk(m1, dir, to + n - 1) := m1[from + n - 1]]
  }

  /** Reference: copy `n` bytes from virtual address `from`, one at a time. */
  function FlatFrom(m: seq<Byte>, dir: nat, to: nat, from: nat, n: nat): (r: seq<Byte>)
    requires |m| == RAM_SIZE && dir < PAGES && to + n <= RAM_SIZE && from + n <= RAM_SIZE
    ensures |r| == |m|
  {
    if n == 0 then m
    else
      var m1 := FlatFrom(m, dir, to, from, n - 1);
      m1[to + n - 1 := m1[Walk(m1, dir, from + n - 1)]]
  }

  predicate OnPage(sp: Space, a: nat) {
    a / 4096 in sp.pages
  }

  /** The space maps all of the `n` addresses from `a`. */
  ghost predicate UserRange(sp: Space, a: nat, n: nat) {
    && USER_MEMORY_BEGIN <= a && a + n <= RAM_SIZE
    && forall x: nat {:trigger OnPage(sp, x)} :: a <= x < a + n ==> OnPage(sp, x)
  }

  /** On the pages of the range that the space does not have no stale word leads anywhere. */
  ghost predicate Plain(m: seq<Byte>, sp: Space, a: nat, n: nat) {
    && |m| == RAM_SIZE && Shaped(sp)
    && forall x: nat {:trigger OnPage(sp, x)} :: a <= x < a + n && !OnPage(sp, x) && x / 4096 / 1024 in sp.tables ==>
         PageWord(m, sp, x / 4096) == 0
  }

  /** So it is for every range when memory holds exactly the space, and for a mapped one. */
  lemma AlwaysPlain(s: Snap, sp: Space, a: nat, n: nat)
    requires InPlace(s, sp) && (Resident(s, sp) || UserRange(sp, a, n))
    ensures Plain(s.m, sp, a, n)
  {
    InPlaceParts(s, sp);
    hide InPlace, Separate, Owned;
    forall x: nat | a <= x < a + n && !OnPage(sp, x) && x / 4096 / 1024 in sp.tables
      ensures PageWord(s.m, sp, x / 4096) == 0
    {
      assert PageOk(s.m, sp, x / 4096);
    }
  }

  lemma PlainAt(m: seq<Byte>, sp: Space, a: nat, n: nat, x: nat)
    requires Plain(m, sp, a, n) && a <= x < a + n && !OnPage(sp, x) && x / 4096 / 1024 in sp.tables
    ensures |m| == RAM_SIZE && Shaped(sp) && PageWord(m, sp, x / 4096) == 0
  {
  }

  lemma PlainSame(m: seq<Byte>, m': seq<Byte>, sp: Space, fs: set<nat>, a: nat, n: nat)
    requires Plain(m, sp, a, n) && SameOutside(m, m', fs) && fs !! Structure(sp)
    ensures Plain(m', sp, a, n)
  {
    assert |m'| == RAM_SIZE;
    hide SameOutside, Structure, Shaped;
    forall x: nat | a <= x < a + n && !OnPage(sp, x) && x / 4096 / 1024 in sp.tables
      ensures PageWord(m', sp, x / 4096) == 0
    {
      PageWordSame(m, m', sp, fs, x / 4096);
    }
  }

  /** No byte of the buffer lies in one of the frames. */
  ghost predicate BufferOutside(a: nat, n: nat, fs: set<nat>) {
    a + n <= RAM_SIZE && forall f {:trigger f in fs} :: f in fs ==> a + n <= f * 4096 || (f + 1) * 4096 <= a
  }

  /** The physical address of a byte of a page, by the space. */
  function Phys(sp: Space, a: nat): int {
    if OnPage(sp, a) then sp.pages[a / 4096] * 4096 + a % 4096 else 0
  }

  // ---------------------------------------------------------------- small facts

  lemma ByteWritten(m: seq<Byte>, x: nat, b: Byte, f: nat)
    requires |m| == RAM_SIZE && x / 4096 == f && x < RAM_SIZE
    ensures SameOutside(m, m[x := b], {f})
  {
    var m' := m[x := b];
    forall g: nat | g < PAGES && g !in {f} ensures SameFrame(m, m', g) {
      assert x < g * 4096 || (g + 1) * 4096 <= x;
    }
  }

  lemma PhysFrame(m: seq<Byte>, sp: Space, a: nat)
    requires Leads(m, sp) && OnPage(sp, a)
    ensures 4096 <= Phys(sp, a) < RAM_SIZE && Phys(sp, a) / 4096 == sp.pages[a / 4096]
    ensures sp.pages[a / 4096] in sp.pages.Values
  {
    assert sp.pages[a / 4096] == sp.pages[a / 4096];
  }

  lemma PagesApart(sp: Space)
    requires Separate(sp)
    ensures sp.pages.Values !! Structure(sp)
  {
  }

  lemma WalkPhys(m: seq<Byte>, sp: Space, a: nat)
    requires Leads(m, sp) && a < RAM_SIZE && OnPage(sp, a)
    ensures sp.dir < PAGES && |m| == RAM_SIZE && Walk(m, sp.dir, a) == Phys(sp, a)
  {
    WalkLeads(m, sp, a);
  }

  lemma LeadsLength(m: seq<Byte>, sp: Space)
    requires Leads(m, sp)
    ensures |m| == RAM_SIZE && sp.dir < PAGES && RAM_SIZE == PAGES * 4096
  {
  }

  lemma InUserRange(sp: Space, a: nat, n: nat, x: nat)
    requires UserRange(sp, a, n) && a <= x < a + n
    ensures OnPage(sp, x) && x < RAM_SIZE
  {
  }

  lemma RangeFits(sp: Space, a: nat, n: nat)
    requires UserRange(sp, a, n)
    ensures USER_MEMORY_BEGIN <= a && a + n <= RAM_SIZE
  {
  }

  lemma SubRange(sp: Space, a: nat, n: nat, n': nat)
    requires UserRange(sp, a, n) && n' <= n
    ensures UserRange(sp, a, n')
  {
  }

  lemma SamePageOffset(a: nat, j: nat)
    requires a % 4096 + j < 4096
    ensures (a + j) / 4096 == a / 4096 && (a + j) % 4096 == a % 4096 + j
  {
  }

  lemma BufferFits(a: nat, n: nat, fs: set<nat>)
    requires BufferOutside(a, n, fs)
    ensures a + n <= RAM_SIZE
  {
  }

  lemma SubBuffer(a: nat, n: nat, n': nat, fs: set<nat>, gs: set<nat>)
    requires BufferOutside(a, n, fs) && n' <= n && gs <= fs
    ensures BufferOutside(a, n', gs)
  {
  }

  lemma InBuffer(a: nat, n: nat, fs: set<nat>, x: nat)
    requires BufferOutside(a, n, fs) && a <= x < a + n
    ensures x / 4096 !in fs && x < RAM_SIZE
  {
  }

  lemma NotInBuffer(a: nat, n: nat, fs: set<nat>, x: nat)
    requires BufferOutside(a, n, fs) && x / 4096 in fs
    ensures !(a <= x < a + n)
  {
  }

  lemma OutsideByte(m: seq<Byte>, m': seq<Byte>, fs: set<nat>, x: nat)
    requires SameOutside(m, m', fs) && x < RAM_SIZE && x / 4096 !in fs
    ensures m'[x] == m[x]
  {
    assert SameFrame(m, m', x / 4096);
  }

  lemma SameSelf(m: seq<Byte>, fs: set<nat>)
    requires |m| == RAM_SIZE
    ensures SameOutside(m, m, fs)
  {
  }

  // ---------------------------------------------------------------- where a byte lands

  /** The physical address that a chunked copy uses for virtual address `a` when it starts at
      `start`, or -1 for none. A mapped byte lands in its page. On an unmapped page the walk
      answers with zero, and nothing is copied, or, when the page has a table and the copy
      starts inside it, with an offset into physical page zero. */
  function Landing(sp: Space, start: nat, a: nat): (x: int)
    ensures x >= -1
  {
    if OnPage(sp, a) then Phys(sp, a)
    else if a / 4096 / 1024 in sp.tables && a / 4096 == start / 4096 && start % 4096 != 0 then a % 4096
    else -1
  }

  /** The frames the bytes can land in. */
  ghost function LandFrames(sp: Space, start: nat): set<nat> {
    sp.pages.Values + if start % 4096 != 0 && !OnPage(sp, start) then {0} else {}
  }

  /** Copy `n` bytes to where they land, one at a time. */
  function LandTo(m: seq<Byte>, sp: Space, to: nat, from: nat, n: nat): (r: seq<Byte>)
    requires |m| == RAM_SIZE && to + n <= RAM_SIZE && from + n <= RAM_SIZE
    ensures |r| == |m|
  {
    if n == 0 then m
    else
      var m1, x := LandTo(m, sp, to, from, n - 1), Landing(sp, to, to + n - 1);
      if 0 <= x < RAM_SIZE then m1[x := m1[from + n - 1]] else m1
  }

  /** Copy `n` bytes from where they land, one at a time. */
  function LandFrom(m: seq<Byte>, sp: Space, to: nat, from: nat, n: nat): (r: seq<Byte>)
    requires |m| == RAM_SIZE && to + n <= RAM_SIZE && from + n <= RAM_SIZE
    ensures |r| == |m|
  {
    if n == 0 then m
    else
      var m1, x := LandFrom(m, sp, to, from, n - 1), Landing(sp, from, from + n - 1);
      if 0 <= x < RAM_SIZE then m1[to + n - 1 := m1[x]] else m1
  }

  lemma LandingRange(m: seq<Byte>, sp: Space, start: nat, a: nat)
    requires Leads(m, sp)
    ensures var x := Landing(sp, start, a);
      x == -1 || (0 < x < RAM_SIZE && x / 4096 in LandFrames(sp, start)) || (a < start && 0 <= x < RAM_SIZE)
  {
    hide Leads;
    if OnPage(sp, a) { PhysFrame(m, sp, a); }
    LeadsLength(m, sp);
  }

  /** Every byte lands in a frame of the space if and only if the range is mapped. */
  lemma LandsInPagesIff(m: seq<Byte>, sp: Space, a: nat, n: nat)
    requires Leads(m, sp) && USER_MEMORY_BEGIN <= a && a + n <= RAM_SIZE
    ensures (forall x: nat {:trigger Landing(sp, a, x)} :: a <= x < a + n ==>
        Landing(sp, a, x) >= 4096) <==> UserRange(sp, a, n)
  {
    hide Leads;
    forall x: nat | a <= x < a + n ensures Landing(sp, a, x) >= 4096 <==> OnPage(sp, x) {
      if OnPage(sp, x) { PhysFrame(m, sp, x); }
    }
  }

  /** Different addresses land in different places. */
  lemma LandingDiffers(m: seq<Byte>, sp: Space, start: nat, a: nat, b: nat)
    requires Leads(m, sp) && Separate(sp) && a != b && Landing(sp, start, a) >= 0
    ensures Landing(sp, start, a) != Landing(sp, start, b)
  {
    hide Leads;
    assert a / 4096 != b / 4096 || a % 4096 != b % 4096;
    if OnPage(sp, a) { PhysFrame(m, sp, a); }
    if OnPage(sp, b) { PhysFrame(m, sp, b); }
  }

  lemma LandToStep(m: seq<Byte>, sp: Space, to: nat, from: nat, n: nat)
    requires |m| == RAM_SIZE && to + n <= RAM_SIZE && from + n <= RAM_SIZE
    ensures LandTo(m, sp, to, from, 0) == m
    ensures n > 0 ==> var m1, x := LandTo(m, sp, to, from, n - 1), Landing(sp, to, to + n - 1);
      LandTo(m, sp, to, from, n) == if 0 <= x < RAM_SIZE then m1[x := m1[from + n - 1]] else m1
  {
  }

  lemma LandFromStep(m: seq<Byte>, sp: Space, to: nat, from: nat, n: nat)
    requires |m| == RAM_SIZE && to + n <= RAM_SIZE && from + n <= RAM_SIZE
    ensures LandFrom(m, sp, to, from, 0) == m
    ensures n > 0 ==> var m1, x := LandFrom(m, sp, to, from, n - 1), Landing(sp, from, from + n - 1);
      LandFrom(m, sp, to, from, n) == if 0 <= x < RAM_SIZE then m1[to + n - 1 := m1[x]] else m1
  {
  }

  /** Writing touches only those frames. */
  lemma {:induction false} LandToKeeps(m: seq<Byte>, sp: Space, to: nat, from: nat, n: nat)
    requires Leads(m, sp) && to + n <= RAM_SIZE && from + n <= RAM_SIZE
    ensures |m| == RAM_SIZE && SameOutside(m, LandTo(m, sp, to, from, n), LandFrames(sp, to))
  {
    hide *;
    LeadsLength(m, sp);
    LandToStep(m, sp, to, from, n);
    SameSelf(m, LandFrames(sp, to));
    if n > 0 {
      LandToKeeps(m, sp, to, from, n - 1);
      LandingRange(m, sp, to, to + n - 1);
      var m1, x := LandTo(m, sp, to, from, n - 1), Landing(sp, to, to + n - 1);
      if x >= 0 {
        ByteWritten(m1, x, m1[from + n - 1], x / 4096);
        SameOutsideMore(m1, m1[x := m1[from + n - 1]], {x / 4096}, LandFrames(sp, to));
        SameTransitive(m, m1, m1[x := m1[from + n - 1]], LandFrames(sp, to));
      }
    }
  }

  /** A write puts the buffer's bytes, in order, where they land. */
  lemma {:induction false} LandToByte(m: seq<Byte>, sp: Space, to: nat, from: nat, n: nat, k: nat)
    requires Leads(m, sp) && Separate(sp) && to + n <= RAM_SIZE && BufferOutside(from, n, LandFrames(sp, to)) && k < n
    ensures |m| == RAM_SIZE && from + n <= RAM_SIZE
    ensures var x := Landing(sp, to, to + k); x >= 0 ==>
        0 < x < RAM_SIZE && LandTo(m, sp, to, from, n)[x] == m[from + k]
  {
    hide *;
    LeadsLength(m, sp);
    BufferFits(from, n, LandFrames(sp, to));
    LandingRange(m, sp, to, to + k);
    LandingRange(m, sp, to, to + n - 1);
    LandToStep(m, sp, to, from, n);
    if k < n - 1 {
      SubBuffer(from, n, n - 1, LandFrames(sp, to), LandFrames(sp, to));
      LandToByte(m, sp, to, from, n - 1, k);
      if Landing(sp, to, to + k) >= 0 { LandingDiffers(m, sp, to, to + k, to + n - 1); }
    } else {
      LandToKeeps(m, sp, to, from, n - 1);
      InBuffer(from, n, LandFrames(sp, to), from + k);
      OutsideByte(m, LandTo(m, sp, to, from, n - 1), LandFrames(sp, to), from + k);
    }
  }

  /** It leaves every other byte alone. */
  lemma {:induction false} LandToElsewhere(m: seq<Byte>, sp: Space, to: nat, from: nat, n: nat, x: nat)
    requires |m| == RAM_SIZE && to + n <= RAM_SIZE && from + n <= RAM_SIZE && x < RAM_SIZE
    requires forall a: nat {:trigger Landing(sp, to, a)} :: to <= a < to + n ==> Landing(sp, to, a) != x
    ensures LandTo(m, sp, to, from, n)[x] == m[x]
  {
    hide *;
    LandToStep(m, sp, to, from, n);
    if n > 0 {
      LandToElsewhere(m, sp, to, from, n - 1, x);
      assert Landing(sp, to, to + n - 1) != x;
    }
  }

  /** Over a mapped range, where a byte lands is where the page walk leads, at every moment. */
  lemma {:induction false} LandToIsFlat(m: seq<Byte>, sp: Space, to: nat, from: nat, n: nat)
    requires Leads(m, sp) && Separate(sp) && UserRange(sp, to, n) && from + n <= RAM_SIZE
    ensures |m| == RAM_SIZE && sp.dir < PAGES && to + n <= RAM_SIZE
    ensures LandTo(m, sp, to, from, n) == FlatTo(m, sp.dir, to, from, n)
    ensures Leads(LandTo(m, sp, to, from, n), sp) && SameOutside(m, LandTo(m, sp, to, from, n), sp.pages.Values)
  {
    hide Leads, Separate, Structure, Walk, Phys, OnPage, UserRange;
    LeadsLength(m, sp);
    RangeFits(sp, to, n);
    SameSelf(m, sp.pages.Values);
    if n > 0 {
      SubRange(sp, to, n, n - 1);
      LandToIsFlat(m, sp, to, from, n - 1);
      var m1, a := LandTo(m, sp, to, from, n - 1), to + n - 1;
      InUserRange(sp, to, n, a);
      PhysFrame(m, sp, a);
      WalkPhys(m1, sp, a);
      assert Landing(sp, to, a) == Phys(sp, a);
      var r, f := LandTo(m, sp, to, from, n), sp.pages[a / 4096];
      ByteWritten(m1, Phys(sp, a), m1[from + n - 1], f);
      PagesApart(sp);
      LeadsSame(m1, r, sp, {f});
      SameOutsideMore(m1, r, {f}, sp.pages.Values);
      SameTransitive(m, m1, r, sp.pages.Values);
    }
  }

  /** Reading writes only the buffer. */
  lemma {:induction false} LandFromKeeps(m: seq<Byte>, sp: Space, to: nat, from: nat, n: nat, x: nat)
    requires |m| == RAM_SIZE && to + n <= RAM_SIZE && from + n <= RAM_SIZE && x < RAM_SIZE && !(to <= x < to + n)
    ensures LandFrom(m, sp, to, from, n)[x] == m[x]
  {
    hide *;
    LandFromStep(m, sp, to, from, n);
    if n > 0 { LandFromKeeps(m, sp, to, from, n - 1, x); }
  }

  /** The frames that are not in `fs`. */
  ghost function Others(fs: set<nat>): set<nat> {
    set f: nat | f < PAGES && f !in fs
  }

  lemma LandFromFrames(m: seq<Byte>, sp: Space, to: nat, from: nat, n: nat, fs: set<nat>)
    requires |m| == RAM_SIZE && from + n <= RAM_SIZE && BufferOutside(to, n, fs)
    ensures to + n <= RAM_SIZE && SameOutside(m, LandFrom(m, sp, to, from, n), Others(fs))
  {
    hide LandFrom;
    var r := LandFrom(m, sp, to, from, n);
    forall f: nat | f < PAGES && f !in Others(fs) ensures SameFrame(m, r, f) {
      forall a | f * 4096 <= a < (f + 1) * 4096 && 0 <= a < RAM_SIZE ensures r[a] == m[a] {
        assert f in fs;
        LandFromKeeps(m, sp, to, from, n, a);
      }
    }
  }

  /** A read puts the bytes, in order, into the buffer; where nothing lands the buffer keeps its
      byte. */
  lemma {:induction false} LandFromByte(m: seq<Byte>, sp: Space, to: nat, from: nat, n: nat, k: nat)
    requires Leads(m, sp) && from + n <= RAM_SIZE && BufferOutside(to, n, LandFrames(sp, from)) && k < n
    ensures |m| == RAM_SIZE && to + n <= RAM_SIZE
    ensures var x := Landing(sp, from, from + k);
      (x >= 0 ==> 0 < x < RAM_SIZE) && LandFrom(m, sp, to, from, n)[to + k] == if x >= 0 then m[x] else m[to + k]
  {
    hide *;
    LeadsLength(m, sp);
    BufferFits(to, n, LandFrames(sp, from));
    LandingRange(m, sp, from, from + k);
    LandingRange(m, sp, from, from + n - 1);
    LandFromStep(m, sp, to, from, n);
    if k < n - 1 {
      SubBuffer(to, n, n - 1, LandFrames(sp, from), LandFrames(sp, from));
      LandFromByte(m, sp, to, from, n - 1, k);
    } else {
      var x := Landing(sp, from, from + k);
      LandFromKeeps(m, sp, to, from, n - 1, to + k);
      if x >= 0 {
        NotInBuffer(to, n, LandFrames(sp, from), x);
        LandFromKeeps(m, sp, to, from, n - 1, x);
      }
    }
  }

  lemma {:induction false} LandFromIsFlat(m: seq<Byte>, sp: Space, to: nat, from: nat, n: nat)
    requires Leads(m, sp) && UserRange(sp, from, n) && BufferOutside(to, n, Structure(sp))
    ensures |m| == RAM_SIZE && sp.dir < PAGES && to + n <= RAM_SIZE && from + n <= RAM_SIZE
    ensures LandFrom(m, sp, to, from, n) == FlatFrom(m, sp.dir, to, from, n)
  {
    hide Leads, Structure, Walk, Phys, OnPage, UserRange, BufferOutside;
    LeadsLength(m, sp);
    RangeFits(sp, from, n);
    BufferFits(to, n, Structure(sp));
    if n > 0 {
      SubRange(sp, from, n, n - 1);
      SubBuffer(to, n, n - 1, Structure(sp), Structure(sp));
      LandFromIsFlat(m, sp, to, from, n - 1);
      LandFromFrames(m, sp, to, from, n - 1, Structure(sp));
      OthersApart(sp);
      var m1, a := LandFrom(m, sp, to, from, n - 1), from + n - 1;
      LeadsSame(m, m1, sp, Others(Structure(sp)));
      InUserRange(sp, from, n, a);
      PhysFrame(m, sp, a);
      WalkPhys(m1, sp, a);
    }
  }

  lemma OthersApart(sp: Space)
    ensures Others(Structure(sp)) !! Structure(sp)
  {
  }

  // ---------------------------------------------------------------- chunks

  /** The bytes to the end of the page that holds `a`, but no more than `size`. */
  function ChunkSize(a: nat, size: nat): (c: nat)
    ensures c <= size && c <= 4096 - a % 4096 && (size > 0 ==> c > 0) && (c < size ==> (a + c) % 4096 == 0)
  {
    var rest := PAGE_SIZE - a % PAGE_SIZE;
    if size < rest then size else rest
  }

  /** A chunk starts where the copy starts or at a page, and keeps within its page. */
  predicate Chunk(start: nat, d: nat, c: nat) {
    0 < c <= 4096 - (start + d) % 4096 && (d == 0 || (start + d) % 4096 == 0)
  }

  /** What the walk answers at the start of a chunk: where its first byte lands, or zero. */
  lemma ChunkWalk(m: seq<Byte>, sp: Space, start: nat, n: nat, d: nat, c: nat)
    requires InMemory(m, sp) && Plain(m, sp, start, n) && Chunk(start, d, c) && d + c <= n
    requires USER_MEMORY_BEGIN <= start && start + d + c <= RAM_SIZE
    ensures |m| == RAM_SIZE && sp.dir < PAGES
    ensures var x := Landing(sp, start, start + d);
      && x != 0 && Walk(m, sp.dir, start + d) == (if x < 0 then 0 else x) && x + c <= RAM_SIZE
  {
    var a := start + d;
    InMemoryShape(m, sp);
    hide InMemory, Plain;
    Indices(a);
    if OnPage(sp, a) {
      ShapedLeads(m, sp);
      WalkLeads(m, sp, a);
      PhysFrame(m, sp, a);
      SamePageOffset(a, c - 1);
      PageEnd(sp, a, c);
    } else {
      UnmappedWalk(m, sp, start, n, a);
    }
  }

  lemma ShapedLeads(m: seq<Byte>, sp: Space)
    requires InMemory(m, sp)
    ensures Leads(m, sp)
  {
  }

  lemma PageEnd(sp: Space, a: nat, c: nat)
    requires OnPage(sp, a) && 0 < c <= 4096 - a % 4096 && sp.pages[a / 4096] < PAGES
    ensures Phys(sp, a) + c <= RAM_SIZE
  {
  }

  /** The walk on a page of the range that is not mapped: zero without a table, else the offset. */
  lemma UnmappedWalk(m: seq<Byte>, sp: Space, start: nat, n: nat, a: nat)
    requires InMemory(m, sp) && Plain(m, sp, start, n) && start <= a < start + n
    requires !OnPage(sp, a) && USER_MEMORY_BEGIN <= a < RAM_SIZE
    ensures sp.dir < PAGES
    ensures Walk(m, sp.dir, a) == if a / 4096 / 1024 in sp.tables then a % 4096 else 0
  {
    InMemoryShape(m, sp);
    hide InMemory, Walk, Plain;
    WalkElsewhere(m, sp, a);
    if a / 4096 / 1024 in sp.tables { PlainAt(m, sp, start, n, a); }
  }

  /** Within a chunk the bytes land one behind the other, or all of them nowhere. */
  lemma ChunkLanding(sp: Space, start: nat, d: nat, c: nat, j: nat)
    requires Chunk(start, d, c) && j < c
    ensures var x := Landing(sp, start, start + d);
      Landing(sp, start, start + d + j) == if x < 0 then -1 else x + j
  {
    SamePageOffset(start + d, j);
  }

  lemma SubChunk(start: nat, d: nat, c: nat)
    requires Chunk(start, d, c) && c > 1
    ensures Chunk(start, d, c - 1)
  {
  }

  /** One chunk is its bytes one at a time. */
  lemma {:induction false} ChunkTo(m: seq<Byte>, sp: Space, to: nat, from: nat, d: nat, c: nat)
    requires |m| == RAM_SIZE && to + d + c <= RAM_SIZE && from + d + c <= RAM_SIZE && Chunk(to, d, c)
    requires Landing(sp, to, to + d) + c <= RAM_SIZE
    ensures var x := Landing(sp, to, to + d);
      LandTo(m, sp, to, from, d + c)
        == if x < 0 then LandTo(m, sp, to, from, d) else Copy(LandTo(m, sp, to, from, d), x, from + d, c)
  {
    hide Landing;
    LandToStep(m, sp, to, from, d + c);
    ChunkLanding(sp, to, d, c, c - 1);
    if c > 1 {
      SubChunk(to, d, c);
      ChunkTo(m, sp, to, from, d, c - 1);
    }
  }

  lemma {:induction false} ChunkFrom(m: seq<Byte>, sp: Space, to: nat, from: nat, d: nat, c: nat)
    requires |m| == RAM_SIZE && to + d + c <= RAM_SIZE && from + d + c <= RAM_SIZE && Chunk(from, d, c)
    requires Landing(sp, from, from + d) + c <= RAM_SIZE
    ensures var x := Landing(sp, from, from + d);
      LandFrom(m, sp, to, from, d + c)
        == if x < 0 then LandFrom(m, sp, to, from, d) else Copy(LandFrom(m, sp, to, from, d), to + d, x, c)
  {
    hide Landing;
    LandFromStep(m, sp, to, from, d + c);
    ChunkLanding(sp, from, d, c, c - 1);
    if c > 1 {
      SubChunk(from, d, c);
      ChunkFrom(m, sp, to, from, d, c - 1);
    }
  }

  // ---------------------------------------------------------------- the two copies

  /** The space is still there after a write, which lands in none of its tables. */
  lemma WriteKeepsSpace(s: Snap, sp: Space, to: nat, from: nat, n: nat, size: nat)
    requires InPlace(s, sp) && to + n <= RAM_SIZE && from + n <= RAM_SIZE && Plain(s.m, sp, to, size)
    ensures |s.m| == RAM_SIZE && InPlace(s.(m := LandTo(s.m, sp, to, from, n)), sp)
    ensures Plain(LandTo(s.m, sp, to, from, n), sp, to, size)
  {
    hide *;
    InPlaceParts(s, sp);
    LandToKeeps(s.m, sp, to, from, n);
    LandApart(s.m, sp, to);
    InMemorySame(s.m, LandTo(s.m, sp, to, from, n), sp, LandFrames(sp, to));
    PlainSame(s.m, LandTo(s.m, sp, to, from, n), sp, LandFrames(sp, to), to, size);
    InPlaceFrom(s.(m := LandTo(s.m, sp, to, from, n)), sp);
  }

  lemma LandApart(m: seq<Byte>, sp: Space, start: nat)
    requires Leads(m, sp) && Separate(sp)
    ensures LandFrames(sp, start) !! Structure(sp)
  {
    PagesApart(sp);
    hide Separate;
    assert 0 !in Structure(sp) by {
      forall i | i in sp.tables ensures sp.tables[i] != 0 { assert sp.tables[i] == sp.tables[i]; }
    }
  }

  lemma ReadKeepsSpace(s: Snap, sp: Space, to: nat, from: nat, n: nat, size: nat)
    requires InPlace(s, sp) && from + n <= RAM_SIZE && BufferOutside(to, n, Structure(sp)) && Plain(s.m, sp, from, size)
    ensures |s.m| == RAM_SIZE && to + n <= RAM_SIZE && InPlace(s.(m := LandFrom(s.m, sp, to, from, n)), sp)
    ensures Plain(LandFrom(s.m, sp, to, from, n), sp, from, size)
  {
    hide *;
    InPlaceParts(s, sp);
    BufferFits(to, n, Structure(sp));
    LandFromFrames(s.m, sp, to, from, n, Structure(sp));
    OthersApart(sp);
    InMemorySame(s.m, LandFrom(s.m, sp, to, from, n), sp, Others(Structure(sp)));
    PlainSame(s.m, LandFrom(s.m, sp, to, from, n), sp, Others(Structure(sp)), from, size);
    InPlaceFrom(s.(m := LandFrom(s.m, sp, to, from, n)), sp);
  }

  lemma ChunkNext(start: nat, d: nat, size: nat)
    requires d < size && (d == 0 || (start + d) % 4096 == 0)
    ensures var c := ChunkSize(start + d, size - d);
      Chunk(start, d, c) && d + c <= size && (d + c < size ==> (start + d + c) % 4096 == 0)
  {
  }

  /** copy_to_user_n: -1 below the user half; otherwise each byte of the buffer goes where it
      lands, which over a mapped range is where the page walk leads. The kernel's buffer may
      not be at address zero. */
  method CopyToUserN(mc: Machine, pde: nat, to: nat, from: nat, size: nat, ghost sp: Space) returns (err: int)
    requires mc.Has(sp) && pde == sp.dir * 4096 && to + size <= RAM_SIZE && 0 < from && from + size <= RAM_SIZE
    requires Plain(mc.Now().m, sp, to, size)
    modifies mc.ram
    ensures mc.Has(sp) && Plain(mc.Now().m, sp, to, size) && sp.dir < PAGES && |old(mc.Now()).m| == RAM_SIZE
    ensures err == if to < USER_MEMORY_BEGIN then -1 else 0
    ensures err != 0 ==> mc.Now() == old(mc.Now())
    ensures err == 0 ==> mc.Now() == old(mc.Now()).(m := LandTo(old(mc.Now()).m, sp, to, from, size))
    ensures err == 0 && UserRange(sp, to, size) ==> mc.Now().m == FlatTo(old(mc.Now()).m, sp.dir, to, from, size)
  {
    hide *;
    ghost var s := mc.Now();
    mc.HasParts(sp);
    InPlaceParts(s, sp);
    UserStart();
    if to < USER_MEMORY_BEGIN {
      return -1;
    }
    LandToStep(s.m, sp, to, from, 0);
    var d := 0;
    while d < size
      invariant 0 <= d <= size && mc.Valid() && (d == 0 || d == size || (to + d) % 4096 == 0)
      invariant mc.Now() == s.(m := LandTo(s.m, sp, to, from, d))
    {
      var c := ChunkSize(to + d, size - d);
      ChunkNext(to, d, size);
      WriteKeepsSpace(s, sp, to, from, d, size);
      mc.StillHas(sp);
      mc.HasParts(sp);
      ChunkWalk(mc.Now().m, sp, to, size, d, c);
      ChunkTo(s.m, sp, to, from, d, c);
      var paddr := mc.Translate(pde, to + d, sp.dir);
      LandAtLeast(sp, to, d);
      mc.CopyBytes(paddr, from + d, c);
      d := d + c;
    }
    WriteKeepsSpace(s, sp, to, from, size, size);
    mc.StillHas(sp);
    if UserRange(sp, to, size) {
      LandToIsFlat(s.m, sp, to, from, size);
    }
    err := 0;
  }

  lemma LandAtLeast(sp: Space, start: nat, d: nat)
    ensures Landing(sp, start, start + d) >= -1
  {
  }

  /** The address as a signed 32-bit integer. */
  function Signed(a: int): int {
    if a < 0x8000_0000 then a else a - 0x1_0000_0000
  }

  /** copy_from_user_n: -1 unless the address is in the user half and not negative as a signed
      integer; otherwise each byte of the buffer comes from where the walk lands. The buffer may
      not overlap the page tables. */
  method CopyFromUserN(mc: Machine, pde: nat, to: nat, from: nat, size: nat, ghost sp: Space) returns (err: int)
    requires mc.Has(sp) && pde == sp.dir * 4096 && from < RAM_SIZE && from + size <= RAM_SIZE
    requires 0 < to && BufferOutside(to, size, Structure(sp)) && Plain(mc.Now().m, sp, from, size)
    modifies mc.ram
    ensures mc.Has(sp) && sp.dir < PAGES && |old(mc.Now()).m| == RAM_SIZE && to + size <= RAM_SIZE
    ensures err == if USER_MEMORY_BEGIN <= from < 0x8000_0000 then 0 else -1
    ensures err != 0 ==> mc.Now() == old(mc.Now())
    ensures err == 0 ==> mc.Now() == old(mc.Now()).(m := LandFrom(old(mc.Now()).m, sp, to, from, size))
    ensures err == 0 && UserRange(sp, from, size) ==> mc.Now().m == FlatFrom(old(mc.Now()).m, sp.dir, to, from, size)
  {
    hide *;
    ghost var s := mc.Now();
    mc.HasParts(sp);
    InPlaceParts(s, sp);
    UserStart();
    BufferFits(to, size, Structure(sp));
    SignedCheck(from);
    if Signed(from) < USER_MEMORY_BEGIN {
      return -1;
    }
    LandFromStep(s.m, sp, to, from, 0);
    var d := 0;
    while d < size
      invariant 0 <= d <= size && mc.Valid() && (d == 0 || d == size || (from + d) % 4096 == 0)
      invariant mc.Now() == s.(m := LandFrom(s.m, sp, to, from, d))
    {
      var c := ChunkSize(from + d, size - d);
      ChunkNext(from, d, size);
      SubBuffer(to, size, d, Structure(sp), Structure(sp));
      ReadKeepsSpace(s, sp, to, from, d, size);
      mc.StillHas(sp);
      mc.HasParts(sp);
      ChunkWalk(mc.Now().m, sp, from, size, d, c);
      ChunkFrom(s.m, sp, to, from, d, c);
      var paddr := mc.Translate(pde, from + d, sp.dir);
      LandAtLeast(sp, from, d);
      mc.CopyBytes(to + d, paddr, c);
      d := d + c;
    }
    ReadKeepsSpace(s, sp, to, from, size, size);
    mc.StillHas(sp);
    if UserRange(sp, from, size) {
      LandFromIsFlat(s.m, sp, to, from, size);
    }
    err := 0;
  }

  lemma SignedCheck(a: nat)
    requires a < RAM_SIZE
    ensures Signed(a) < USER_MEMORY_BEGIN <==> !(USER_MEMORY_BEGIN <= a < 0x8000_0000)
  {
  }

  // ---------------------------------------------------------------- what they mean

  lemma RangeLands(sp: Space, a: nat, n: nat)
    requires UserRange(sp, a, n) && n > 0
    ensures LandFrames(sp, a) == sp.pages.Values
    ensures forall x: nat {:trigger Landing(sp, a, x)} :: a <= x < a + n ==> Landing(sp, a, x) == Phys(sp, x)
  {
    assert OnPage(sp, a);
    forall x: nat | a <= x < a + n ensures OnPage(sp, x) {}
  }

  /** What a write to a mapped range does, by the page walk: the bytes of the buffer, in order,
      at the translations of the range, and every other byte as before. */
  lemma WriteExact(m: seq<Byte>, sp: Space, to: nat, from: nat, n: nat, k: nat, x: nat)
    requires Leads(m, sp) && Separate(sp) && UserRange(sp, to, n) && BufferOutside(from, n, sp.pages.Values)
    requires x < RAM_SIZE
    ensures to + n <= RAM_SIZE && from + n <= RAM_SIZE && |m| == RAM_SIZE && sp.dir < PAGES
    ensures k < n ==> FlatTo(m, sp.dir, to, from, n)[Walk(m, sp.dir, to + k)] == m[from + k]
    ensures (forall a: nat {:trigger Walk(m, sp.dir, a)} :: to <= a < to + n ==> Walk(m, sp.dir, a) != x)
              ==> FlatTo(m, sp.dir, to, from, n)[x] == m[x]
  {
    hide *;
    RangeFits(sp, to, n);
    BufferFits(from, n, sp.pages.Values);
    LeadsLength(m, sp);
    LandToIsFlat(m, sp, to, from, n);
    LandToStep(m, sp, to, from, 0);
    if n > 0 {
      RangeLands(sp, to, n);
      if k < n {
        LandToByte(m, sp, to, from, n, k);
        InUserRange(sp, to, n, to + k);
        PhysFrame(m, sp, to + k);
        WalkPhys(m, sp, to + k);
        assert Landing(sp, to, to + k) == Phys(sp, to + k);
      }
      if forall a: nat {:trigger Walk(m, sp.dir, a)} :: to <= a < to + n ==> Walk(m, sp.dir, a) != x {
        forall a: nat {:trigger Landing(sp, to, a)} | to <= a < to + n ensures Landing(sp, to, a) != x {
          InUserRange(sp, to, n, a);
          WalkPhys(m, sp, a);
          assert Walk(m, sp.dir, a) != x;
        }
        LandToElsewhere(m, sp, to, from, n, x);
      }
    }
  }

  /** Writing a buffer to mapped memory and reading it back gives the same bytes. */
  lemma RoundTrip(m: seq<Byte>, sp: Space, user: nat, b: nat, b': nat, n: nat, k: nat)
    requires Leads(m, sp) && Separate(sp) && UserRange(sp, user, n) && k < n
    requires BufferOutside(b, n, Owned(sp)) && BufferOutside(b', n, Owned(sp))
    ensures b + n <= RAM_SIZE && b' + n <= RAM_SIZE && user + n <= RAM_SIZE && |m| == RAM_SIZE && sp.dir < PAGES
    ensures FlatFrom(FlatTo(m, sp.dir, user, b, n), sp.dir, b', user, n)[b' + k] == m[b + k]
  {
    hide *;
    LeadsLength(m, sp);
    RangeFits(sp, user, n);
    BufferFits(b, n, Owned(sp));
    BufferFits(b', n, Owned(sp));
    OwnedParts(sp);
    SubBuffer(b, n, n, Owned(sp), sp.pages.Values);
    SubBuffer(b', n, n, Owned(sp), sp.pages.Values);
    SubBuffer(b', n, n, Owned(sp), Structure(sp));
    RangeLands(sp, user, n);
    LandToIsFlat(m, sp, user, b, n);
    LandToByte(m, sp, user, b, n, k);
    var m1 := LandTo(m, sp, user, b, n);
    LandFromIsFlat(m1, sp, b', user, n);
    LandFromByte(m1, sp, b', user, n, k);
    InUserRange(sp, user, n, user + k);
    PhysFrame(m, sp, user + k);
    assert Landing(sp, user, user + k) == Phys(sp, user + k);
  }

  lemma OwnedParts(sp: Space)
    ensures Structure(sp) <= Owned(sp) && sp.pages.Values <= Owned(sp)
  {
  }

  lemma RoundTripAll(m: seq<Byte>, sp: Space, user: nat, b: nat, b': nat, n: nat)
    requires Leads(m, sp) && Separate(sp) && UserRange(sp, user, n)
    requires BufferOutside(b, n, Owned(sp)) && BufferOutside(b', n, Owned(sp))
    ensures b + n <= RAM_SIZE && b' + n <= RAM_SIZE && user + n <= RAM_SIZE && |m| == RAM_SIZE && sp.dir < PAGES
    ensures FlatFrom(FlatTo(m, sp.dir, user, b, n), sp.dir, b', user, n)[b'..b' + n] == m[b..b + n]
  {
    hide *;
    BufferFits(b, n, Owned(sp));
    BufferFits(b', n, Owned(sp));
    RangeFits(sp, user, n);
    LeadsLength(m, sp);
    var r := FlatFrom(FlatTo(m, sp.dir, user, b, n), sp.dir, b', user, n)[b'..b' + n];
    forall k: nat {:trigger r[k]} | k < n ensures r[k] == m[b..b + n][k] {
      RoundTrip(m, sp, user, b, b', n, k);
    }
  }

  /** Writing to user memory and reading the range back into another buffer. Both calls accept it
      exactly from 1 GiB and below 2 GiB; then a mapped range gives back the original bytes, and
      any range what lands and is read from where it landed. */
  method WriteThenRead(mc: Machine, pde: nat, user: nat, b: nat, b': nat, size: nat, ghost sp: Space) returns (err: int)
    requires mc.Has(sp) && pde == sp.dir * 4096 && user < RAM_SIZE && user + size <= RAM_SIZE && 0 < b && 0 < b'
    requires BufferOutside(b, size, Owned(sp)) && BufferOutside(b', size, Owned(sp))
    requires Plain(mc.Now().m, sp, user, size)
    modifies mc.ram
    ensures mc.Has(sp) && b + size <= RAM_SIZE && b' + size <= RAM_SIZE
    ensures |old(mc.Now()).m| == RAM_SIZE && |mc.Now().m| == RAM_SIZE
    ensures err == 0 <==> USER_MEMORY_BEGIN <= user < 0x8000_0000
    ensures err == 0 ==>
      mc.Now().m == LandFrom(LandTo(old(mc.Now()).m, sp, user, b, size), sp, b', user, size)
    ensures err == 0 && UserRange(sp, user, size) ==>
      mc.Now().m[b'..b' + size] == old(mc.Now()).m[b..b + size]
  {
    hide *;
    ghost var s := mc.Now();
    BufferFits(b, size, Owned(sp));
    BufferFits(b', size, Owned(sp));
    OwnedParts(sp);
    SubBuffer(b', size, size, Owned(sp), Structure(sp));
    mc.HasParts(sp);
    InPlaceParts(s, sp);
    err := CopyToUserN(mc, pde, user, b, size, sp);
    err := CopyFromUserN(mc, pde, b', user, size, sp);
    if err == 0 && UserRange(sp, user, size) {
      RoundTripAll(s.m, sp, user, b, b', size);
    }
    mc.HasParts(sp);
  }

  /** After a fork, what the child writes to the memory it was given the parent does not see. */
  lemma ForkedWritesStayApart(s0: Snap, psp: Space, s: Snap, csp: Space, to: nat, from: nat, n: nat, a: int)
    requires Cloned(s0, psp, s, csp) && UserRange(csp, to, n) && from + n <= RAM_SIZE
    requires USER_MEMORY_BEGIN <= a < RAM_SIZE && Inherits(s0, psp, csp, a)
    ensures |s.m| == RAM_SIZE && csp.dir < PAGES && to + n <= RAM_SIZE && |s0.m| == RAM_SIZE && psp.dir < PAGES
    ensures var m' := FlatTo(s.m, csp.dir, to, from, n);
      Read(m', psp.dir, a) == Read(s0.m, psp.dir, a)
  {
    hide *;
    ClonedParts(s0, psp, s, csp);
    ClonedSpaces(s0, psp, s, csp);
    RangeFits(csp, to, n);
    LandToIsFlat(s.m, csp, to, from, n);
    ForkIsolation(s0, psp, s, csp, a);
    OwnedParts(csp);
    var m' := FlatTo(s.m, csp.dir, to, from, n);
    WalkSame(s.m, m', psp, csp.pages.Values, a);
    InheritsIs(s0, psp, csp, a);
    WalkSource(s0.m, psp, a);
    SettledAside(s0, s, csp, Source(s0.m, psp, a / 4096));
    var p := Walk(s.m, psp.dir, a);
    SourceByte(Source(s0.m, psp, a / 4096), a);
    OutsideByte(s.m, m', csp.pages.Values, p);
    ReadIs(s.m, psp.dir, a);
    ReadIs(m', psp.dir, a);
  }

  lemma SourceByte(g: nat, a: int)
    requires g < PAGES && USER_MEMORY_BEGIN <= a
    ensures 0 <= g * 4096 + a % 4096 < RAM_SIZE && (g * 4096 + a % 4096) / 4096 == g
  {
  }
}
