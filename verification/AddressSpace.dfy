/** The physical machine, and the operations on address spaces of source/mm/page.c. */
module AddressSpace {
  import opened PhysMem
  import opened Bitmap
  import opened Paging
  import opened Spaces
  import opened Frames
  import opened Recycled
  import opened Growth
  import opened MapSteps
  import PagePool

  /** `pte` is the address of the table entry of virtual page `v`. */
  predicate EntryAt(sp: Space, v: int, pte: nat) {
    0 <= v && v / 1024 in sp.tables && pte == sp.tables[v / 1024] * 4096 + 4 * (v % 1024) && 0 < pte
        && pte + 4 <= RAM_SIZE
  }

  class Machine {
    const ram: array<Byte>
    const bits: BitMap

    constructor ()
      ensures ram.Length == RAM_SIZE && fresh(ram) && fresh(bits) && fresh(bits.base)
      ensures bits.base.Length == MAP_BYTES && ram as object != bits.base as object
    {
      ram := new Byte[RAM_SIZE];
      bits := new BitMap();
    }

    /** What reading, writing and freeing take for granted. */
    ghost predicate Sane()
      reads this, bits, bits.base
    {
      ram.Length == RAM_SIZE && ram as object != bits.base as object && bits.Valid()
    }

    /** Page zero is never handed out, and the kernel's page directory is in use. */
    ghost predicate Valid()
      reads this, bits, bits.base
      ensures Valid() ==> Sane()
    {
      Sane() && 0 in bits.Used() && KERNEL_DIR in bits.Used()
    }

    ghost function Now(): Snap
      reads this, ram, bits, bits.base
    {
      Snap(ram[..], bits.Used())
    }

    ghost predicate Has(sp: Space)
      reads this, ram, bits, bits.base
    {
      Valid() && InPlace(Now(), sp)
    }

    method AllocPage() returns (addr: nat)
      requires Valid()
      modifies bits.base
      ensures Valid() && Now().m == old(Now()).m
      ensures if addr == 0 then Now() == old(Now()) && Exhausted(Now().used, bits.nbits)
              else var f := addr / 4096;
                && f == NextFrame(old(Now()).used, bits.nbits) && addr == f * 4096
                && 1 <= f < PAGES && f < bits.nbits && f !in old(Now()).used && Now().used == old(Now()).used + {f}
    {
      NextFrameIsFree(bits.Used(), bits.nbits);
      addr := PagePool.AllocPages(bits, 1);
    }

    /** alloc_pages(count). */
    method AllocRun(count: nat) returns (addr: nat)
      requires Valid() && count > 0
      modifies bits.base
      ensures Valid() && bits.nbits <= PAGES && Now().m == old(Now()).m
      ensures var r := FirstFit(old(Now()).used, bits.nbits, count, 0);
        && addr == (if r > 0 then r * 4096 else 0)
        && Now().used == old(Now()).used + if r == -1 then {} else Run(r, count)
    {
      addr := PagePool.AllocPages(bits, count);
    }

    /** free_pages(addr, 1), whatever page it is. */
    method FreePage(addr: nat)
      requires Sane() && addr < RAM_SIZE
      modifies bits.base
      ensures Sane() && Now() == old(Now()).(used := old(Now()).used - {addr / 4096})
    {
      PagePool.FreePages(bits, addr, 1);
      assert Run(addr / 4096, 1) == {addr / 4096};
    }

    method StoreByte(a: nat, b: Byte)
      requires Valid() && a < RAM_SIZE
      modifies ram
      ensures Valid() && Now() == old(Now()).(m := old(Now()).m[a := b])
    {
      ram[a] := b;
    }

    method Load(a: nat) returns (w: int)
      requires Sane() && a + 4 <= RAM_SIZE
      ensures w == Word(Now().m, a) && 0 <= w < RAM_SIZE
    {
      w := ReadWord(ram, a);
    }

    method Store(a: nat, w: int)
      requires Sane() && a + 4 <= RAM_SIZE && 0 <= w < RAM_SIZE
      modifies ram
      ensures Sane() && (old(Valid()) ==> Valid()) && Now() == old(Now()).(m := SetWord(old(Now()).m, a, w))
    {
      WriteWord(ram, a, w);
    }

    /** kmemcpy: a null pointer copies nothing. */
    method CopyBytes(dest: nat, src: nat, n: nat)
      requires Valid() && dest + n <= RAM_SIZE && src + n <= RAM_SIZE
      modifies ram
      ensures Valid()
      ensures Now() == if dest == 0 || src == 0 then old(Now()) else old(Now()).(m := Copy(old(Now()).m, dest, src, n))
    {
      KMemcpy(ram, dest, src, n);
    }

    /** trans_vtop */
    method Translate(pd: nat, v: nat, ghost dir: nat) returns (p: nat)
      requires Valid() && dir < PAGES && pd == dir * 4096 && v < RAM_SIZE
      ensures |Now().m| == RAM_SIZE && p == Walk(Now().m, dir, v)
    {
      Indices(v);
      FrameAligned(dir);
      var page := Load(pd + 4 * PdeIndex(v));
      if page == 0 {
        return 0;
      }
      var entry := Load(AlignDown(page) + 4 * PteIndex(v));
      p := AlignDown(entry) + v % PAGE_SIZE;
    }

    lemma StillHas(sp: Space)
      requires Valid() && InPlace(Now(), sp)
      ensures Has(sp)
    {
    }

    lemma HasParts(sp: Space)
      requires Has(sp)
      ensures Valid() && InPlace(Now(), sp) && InMemory(Now().m, sp) && Grown(Now(), sp, Now(), sp)
      ensures KERNEL_DIR in Now().used && bits.nbits < PAGES && |Now().m| == RAM_SIZE && 1 <= sp.dir < PAGES
    {
      GrownNone(Now(), sp);
    }

    lemma HasGrown(s: Snap, sp: Space, sp': Space)
      requires Valid() && Grown(s, sp, Now(), sp')
      ensures Has(sp')
    {
      GrownInPlace(s, sp, Now(), sp');
    }

    lemma SaneFacts()
      requires Sane()
      ensures |Now().m| == RAM_SIZE && bits.nbits < PAGES
      ensures Valid() <==> 0 in Now().used && KERNEL_DIR in Now().used
    {
    }

    /** The table of directory slot `i`, made if the slot is empty; zero when out of memory. */
    method TableFor(pd: nat, i: nat, ghost sp: Space) returns (page: nat, ghost r: Mapping)
      requires Has(sp) && pd == sp.dir * 4096 && USER_FIRST <= i < 1024
      modifies ram, bits.base
      ensures r == TableStep(old(Now()), sp, i, bits.nbits) && Has(r.sp) && r.s == Now()
      ensures if r.err == 0 then i in r.sp.tables && page == r.sp.tables[i] * 4096 && 0 < page
          && page + 4096 <= RAM_SIZE
              else page == 0
    {
      hide *;
      ghost var s := Now();
      HasParts(sp);
      SlotRead(s.m, sp, i);
      ValidFacts();
      SlotPages(i);
      TableGrown(s, sp, 1024 * i, bits.nbits);
      TableStepIs(s, sp, i, bits.nbits);
      r := TableStep(s, sp, i, bits.nbits);

      page := Load(pd + 4 * i);
      if page == 0 {
        page := AllocPage();
        if page == 0 {
          NoFrame(s, sp.dir, bits.nbits);
          StillHas(sp);
          return;
        }
        FrameWritable(s, sp.dir, page / 4096);
        StoresEntry(s.m, sp.dir, i, page / 4096);
        Store(pd + 4 * i, page + PAGE_SHARED);
        HasGrown(s, sp, r.sp);
        AddTableFields(sp, i, page / 4096);
      }
      AlignedFrame(page);
      page := AlignDown(page);
    }

    /** Store an entry with the next free frame at `pte`, wherever that is; false when out of memory. */
    method MapPage(pte: nat) returns (ok: bool)
      requires Valid() && (NextFrame(Now().used, bits.nbits) != -1 ==> pte + 4 <= RAM_SIZE)
      modifies ram, bits.base
      ensures Valid() && |old(Now()).m| == RAM_SIZE && (ok <==> NextFrame(old(Now()).used, bits.nbits) != -1)
      ensures !ok ==> Now() == old(Now())
      ensures ok ==>
        var f := NextFrame(old(Now()).used, bits.nbits);
        && 1 <= f < PAGES && f < bits.nbits && f !in old(Now()).used && pte + 4 <= RAM_SIZE
        && Now() == Snap(SetWord(old(Now()).m, pte, f * 4096 + PAGE_SHARED), old(Now()).used + {f})
    {
      hide *;
      ghost var s := Now();
      ValidFacts();
      NextFrameIsFree(s.used, bits.nbits);
      var pg := AllocPage();
      if pg == 0 {
        NoneLeft(s.used, bits.nbits);
        return false;
      }
      WordValue(pg / 4096);
      Store(pte, pg + PAGE_SHARED);
      return true;
    }

    /** Where the first target entry is, and whether it is present and clean. */
    method FindEntry(pd: nat, addr: nat, ghost sp: Space) returns (pte: nat, taken: bool, ghost r: Mapping)
      requires Has(sp) && pd == sp.dir * 4096 && USER_MEMORY_BEGIN <= addr < RAM_SIZE
      modifies ram, bits.base
      ensures addr / 4096 / 1024 < 1024
      ensures r == TableStep(old(Now()), sp, addr / 4096 / 1024, bits.nbits) && Has(r.sp) && r.s == Now()
      ensures taken <==> r.err == 0 && Refused(old(Now()), sp, addr / 4096, bits.nbits)
      ensures if r.err == 0 then EntryAt(r.sp, addr / 4096, pte) && pte != 0 else pte == 0
    {
      hide *;
      ghost var s := Now();
      Indices(addr);
      UserSlot(addr);
      HasParts(sp);
      TableStepIs(s, sp, PdeIndex(addr), bits.nbits);
      pte, r := TableFor(pd, PdeIndex(addr), sp);
      taken := false;
      if pte != 0 {
        HasParts(r.sp);
        pte := pte + 4 * PteIndex(addr);
        var first := Load(pte);
        FirstEntry(s, sp, Now(), r.sp, bits.nbits, addr, first, pte);
        taken := Present(first) && !Dirty(first);
      }
    }

    /** The loop of alloc_vpages, from the entry at `first`. */
    method EnterAll(first: nat, pages: int, ghost n: nat) returns (err: int)
      requires Valid() && 1 <= n && pages == if n == RAM_SIZE then 0 else n
      requires n == RAM_SIZE ==> n > |FreeFrames(Now().used, bits.nbits)|
      requires first + 4 * Min(n, |FreeFrames(Now().used, bits.nbits)|) <= RAM_SIZE
      modifies ram, bits.base
      ensures Valid() && (Now(), err) == RawPages(old(Now()), first, n, bits.nbits)
    {
      hide *;
      ghost var s := Now();
      var count, pte := pages, first;
      ghost var left := n;
      while true
        invariant Valid() && 1 <= left && 0 <= pte && count == (if n == RAM_SIZE then left - RAM_SIZE else left)
        invariant n == RAM_SIZE ==> left > |FreeFrames(Now().used, bits.nbits)|
        invariant pte + 4 * Min(left, |FreeFrames(Now().used, bits.nbits)|) <= RAM_SIZE
        invariant RawPages(s, first, n, bits.nbits) == RawPages(Now(), pte, left, bits.nbits)
        decreases left
      {
        ghost var s1 := Now();
        ValidFacts();
        RawPagesIs(s1, pte, left, bits.nbits);
        NextFrameExists(s1.used, bits.nbits);
        MinIs(left, |FreeFrames(s1.used, bits.nbits)|);
        var ok := MapPage(pte);
        if !ok {
          return -ENOMEM;
        }
        TakeOne(s1.used, bits.nbits, NextFrame(s1.used, bits.nbits));
        MinIs(left - 1, |FreeFrames(Now().used, bits.nbits)|);
        count, left := count - 1, left - 1;
        RawPagesIs(Now(), pte + 4, left, bits.nbits);
        if !(count != 0) {
          break;
        }
        pte := pte + 4;
      }
      err := 0;
    }

    /** Memory, bitmap and result are those of `RawStep`, whatever the request and whatever the
        frames that the call takes hold, as long as the entries lie below 4 GiB. When the request
        keeps within one table that is what `AllocStep` says, and `AllocMeaning` explains. */
    method AllocVpages(pd: nat, addr: nat, size: nat, ghost sp: Space) returns (err: int, ghost sp': Space)
      requires Has(sp) && pd == sp.dir * 4096 && USER_MEMORY_BEGIN <= addr < RAM_SIZE
      requires EntriesFit(Now(), sp, addr, size, bits.nbits)
      modifies ram, bits.base
      ensures Valid() && addr / 4096 / 1024 < 1024
      ensures (Now(), err) == RawStep(old(Now()), sp, addr, size, bits.nbits)
      ensures InOneTable(addr, size) ==>
        && Has(sp') && Mapping(Now(), sp', err) == AllocStep(old(Now()), sp, addr, size, bits.nbits)
        && AllocMeans(old(Now()), sp, addr, size, bits.nbits, Mapping(Now(), sp', err))
    {
      hide *;
      ghost var s, v := Now(), addr / 4096;
      sp' := sp;
      HasParts(sp);
      ValidFacts();
      UserSlot(addr);
      RawStepIs(s, sp, addr, size, bits.nbits);
      if InOneTable(addr, size) {
        RawIsStep(s, sp, addr, size, bits.nbits);
        AllocMeaning(s, sp, addr, size, bits.nbits);
        MeansInPlace(s, sp, addr, size, bits.nbits, AllocStep(s, sp, addr, size, bits.nbits));
        sp' := AllocStep(s, sp, addr, size, bits.nbits).sp;
      }
      StepEntry(s, sp, addr, size, bits.nbits);

      CountIs(size, Now().used, bits.nbits);
      var count := (size + (PAGE_SIZE - 1)) % RAM_SIZE / PAGE_SIZE;
      TableStepIs(s, sp, v / 1024, bits.nbits);
      var pte, taken; ghost var r: Mapping;
      pte, taken, r := FindEntry(pd, addr, sp);
      HasParts(r.sp);
      if pte == 0 {
        AllocHas(s, sp, addr, size, sp');
        return -ENOMEM, sp';
      }
      if taken {
        AllocHas(s, sp, addr, size, sp');
        return 0, sp';
      }
      CountIs(size, Now().used, bits.nbits);
      EntryAtAddress(r.sp, v, pte);
      err := EnterAll(pte, count, Rounds(size));
      AllocHas(s, sp, addr, size, sp');
    }

    lemma AllocHas(s: Snap, sp: Space, addr: nat, size: nat, sp': Space)
      requires Valid() && addr / 4096 / 1024 < 1024
      requires Now() == RawStep(s, sp, addr, size, bits.nbits).0
      requires InOneTable(addr, size) ==>
        var r := AllocStep(s, sp, addr, size, bits.nbits);
        r.sp == sp' && r.s == RawStep(s, sp, addr, size, bits.nbits).0 && InPlace(r.s, r.sp)
      ensures InOneTable(addr, size) ==> Has(sp')
    {
    }

    /** A new directory: the kernel half shared, the user half empty; zero when out of memory. */
    method CreatePde() returns (page_dir: nat)
      requires Valid()
      modifies ram, bits.base
      ensures Valid() && (Now(), page_dir) == CreateStep(old(Now()), bits.nbits)
      ensures if page_dir == 0 then Now() == old(Now()) && Exhausted(Now().used, bits.nbits)
              else var f := page_dir / 4096;
                && page_dir == f * 4096 && Created(old(Now()), Now(), f) && Has(EmptySpace(f))
    {
      hide *;
      ghost var s := Now();
      ValidFacts();
      CreateStepIs(s, bits.nbits);
      CreateMeaning(s, bits.nbits);
      var pde := AllocPage();
      if pde == 0 {
        NoFrame(s, 0, bits.nbits);
        return 0;
      }
      ghost var f := pde / 4096;
      FreshDirectory(s.used, f);
      FrameWritable(s, 0, f);
      DirectoryStart(s.m, f);
      Clear(pde);

      var user_start_index := PdeIndex(USER_MEMORY_BEGIN);
      UserStart();
      var i := 0;
      while i < 1024
        invariant 0 <= i <= 1024 && Valid() && Now() == Snap(DirectoryBuilt(s.m, f, i), s.used + {f})
      {
        DirectoryStep(s.m, f, i);
        var value := 0;
        if i < user_start_index {
          value := Load(KERNEL_DIR * 4096 + 4 * i);
        }
        Store(pde + 4 * i, value);
        i := i + 1;
      }
      CreatedParts(s, Now(), f);
      EmptyHas(f);
      return pde;
    }

    /** kmemset of one page. */
    method Clear(addr: nat)
      requires Valid() && 0 < addr && addr + 4096 <= RAM_SIZE
      modifies ram
      ensures Valid() && Now() == old(Now()).(m := Fill(old(Now()).m, addr, 0, 4096))
    {
      KMemset(ram, addr, 0, 4096);
    }

    lemma ValidFacts()
      requires Valid()
      ensures |Now().m| == RAM_SIZE && KERNEL_DIR in Now().used && 0 in Now().used && bits.nbits < PAGES
    {
    }

    lemma EmptyHas(f: nat)
      requires Valid() && Resident(Now(), EmptySpace(f))
      ensures Has(EmptySpace(f))
    {
      ResidentInPlace(Now(), EmptySpace(f));
    }
  }

  function EmptySpace(f: nat): Space {
    Space(f, map[], map[])
  }

  /** The 256 entries of the kernel half of the new directory are those of the kernel's, at 2 MiB. */
  ghost predicate KernelHalf(m: seq<Byte>, m': seq<Byte>, f: nat) {
    |m| == RAM_SIZE && |m'| == RAM_SIZE && f < PAGES
    && forall k: nat {:trigger Entry(m', f, k)} :: k < 256 ==> Entry(m', f, k) == Entry(m, 0x200, k)
  }

  /** The first `n` entries of the directory are written; nothing outside its frame is. */
  ghost predicate HalfBuilt(m: seq<Byte>, m': seq<Byte>, f: nat, n: nat) {
    && f < PAGES && SameOutside(m, m', {f})
    && forall k: nat {:trigger Entry(m', f, k)} :: k < n && k < 1024 ==>
         Entry(m', f, k) == if k < USER_FIRST then Entry(m, KERNEL_DIR, k) else 0
  }

  lemma FreshDirectory(used: set<nat>, f: nat)
    requires KERNEL_DIR in used && 1 <= f < PAGES && f !in used
    ensures 0 < f * 4096 && f * 4096 + 4096 <= RAM_SIZE && f != KERNEL_DIR
  {
  }

  /** Memory after the first `n` entries of the directory in frame `f` were written. */
  function DirectoryBuilt(m: seq<Byte>, f: nat, n: nat): (r: seq<Byte>)
    requires |m| == RAM_SIZE && f < PAGES && n <= 1024
    ensures |r| == RAM_SIZE
  {
    if n == 0 then Fill(m, f * 4096, 0, 4096)
    else
      var m1 := DirectoryBuilt(m, f, n - 1);
      SetEntry(m1, f, n - 1, if n - 1 < USER_FIRST then Entry(m1, KERNEL_DIR, n - 1) else 0)
  }

  function CreateStep(s: Snap, nbits: int): (Snap, nat) {
    var f := NextFrame(s.used, nbits);
    if Writable(s, 0, f) then (Snap(DirectoryBuilt(s.m, f, 1024), s.used + {f}), f * 4096) else (s, 0)
  }

  /** From `s` to `s'` frame `f` became a directory: it was free and is now used, no other page
      changed hands, no other frame was written, its kernel half is the kernel's, and its user
      half is empty. */
  ghost predicate Created(s: Snap, s': Snap, f: nat) {
    && 1 <= f < PAGES && f !in s.used && s'.used == s.used + {f} && SameOutside(s.m, s'.m, {f})
    && Resident(s', EmptySpace(f)) && KernelHalf(s.m, s'.m, f)
  }

  lemma CreatedParts(s: Snap, s': Snap, f: nat)
    requires Created(s, s', f)
    ensures 1 <= f < PAGES && f !in s.used && s'.used == s.used + {f} && SameOutside(s.m, s'.m, {f})
    ensures Resident(s', EmptySpace(f)) && EmptySpace(f).dir == f
  {
  }

  lemma CreateStepIs(s: Snap, nbits: int)
    ensures var f := NextFrame(s.used, nbits);
      CreateStep(s, nbits) == if Writable(s, 0, f) then (Snap(DirectoryBuilt(s.m, f, 1024), s.used + {f}),
          f * 4096) else (s, 0)
    ensures 0 < PAGES
  {
  }

  lemma {:induction false} DirectoryHalf(m: seq<Byte>, f: nat, n: nat)
    requires |m| == RAM_SIZE && 1 <= f < PAGES && f != KERNEL_DIR && n <= 1024
    ensures HalfBuilt(m, DirectoryBuilt(m, f, n), f, n)
  {
    hide HalfBuilt;
    if n == 0 {
      ClearedFrame(m, f);
    } else {
      DirectoryHalf(m, f, n - 1);
      HalfBuiltStep(m, DirectoryBuilt(m, f, n - 1), f, n - 1);
    }
  }

  /** What create_pde comes to. */
  lemma CreateMeaning(s: Snap, nbits: int)
    requires |s.m| == RAM_SIZE && 0 in s.used && KERNEL_DIR in s.used && nbits <= PAGES
    ensures var (s', pd) := CreateStep(s, nbits);
      if pd == 0 then s' == s && Exhausted(s.used, nbits) else pd == pd / 4096 * 4096 && Created(s, s', pd / 4096)
    ensures CreateStep(s, nbits).1 == 0 <==> NextFrame(s.used, nbits) == -1
    ensures CreateStep(s, nbits).1 != 0 ==> CreateStep(s, nbits).1 / 4096 == NextFrame(s.used, nbits)
  {
    NextFrameIsFree(s.used, nbits);
    var f := NextFrame(s.used, nbits);
    if Writable(s, 0, f) {
      hide FirstFit, HalfBuilt, Fill, DirectoryBuilt;
      DirectoryHalf(s.m, f, 1024);
      BuiltDirectory(s, CreateStep(s, nbits).0, f);
    }
  }

  lemma DirectoryStart(m: seq<Byte>, f: nat)
    requires |m| == RAM_SIZE && f < PAGES
    ensures f * 4096 + 4096 <= RAM_SIZE && DirectoryBuilt(m, f, 0) == Fill(m, f * 4096, 0, 4096)
  {
  }

  lemma DirectoryStep(m: seq<Byte>, f: nat, i: nat)
    requires |m| == RAM_SIZE && f < PAGES && i < 1024
    ensures f * 4096 + 4 * i + 4 <= RAM_SIZE && KERNEL_DIR * 4096 + 4 * i + 4 <= RAM_SIZE && 0 < RAM_SIZE
    ensures var m1 := DirectoryBuilt(m, f, i);
      && |m1| == RAM_SIZE
      && DirectoryBuilt(m, f, i + 1)
         == SetWord(m1, f * 4096 + 4 * i, if i < USER_FIRST then Word(m1, KERNEL_DIR * 4096 + 4 * i) else 0)
  {
  }

  lemma ClearedFrame(m: seq<Byte>, f: nat)
    requires |m| == RAM_SIZE && 1 <= f < PAGES && f * 4096 + 4096 <= RAM_SIZE
    ensures HalfBuilt(m, Fill(m, f * 4096, 0, 4096), f, 0)
  {
    var m' := Fill(m, f * 4096, 0, 4096);
    forall g: nat | g < PAGES && g !in {f} ensures SameFrame(m, m', g) {
      assert g < f || g > f;
    }
  }

  lemma UserStart()
    ensures PdeIndex(USER_MEMORY_BEGIN) == USER_FIRST == 256 && KERNEL_DIR * 4096 + 4096 <= RAM_SIZE
  {
  }

  lemma HalfBuiltStep(m: seq<Byte>, m1: seq<Byte>, f: nat, i: nat)
    requires HalfBuilt(m, m1, f, i) && i < 1024 && f != KERNEL_DIR
    ensures f * 4096 + 4 * i + 4 <= RAM_SIZE
    ensures |m| == RAM_SIZE && |m1| == RAM_SIZE
    ensures HalfBuilt(m, SetEntry(m1, f, i, if i < USER_FIRST then Entry(m1, KERNEL_DIR, i) else 0), f, i + 1)
  {
    var w := if i < USER_FIRST then Word(m1, KERNEL_DIR * 4096 + 4 * i) else 0;
    var m2 := SetEntry(m1, f, i, w);
    EntrySet(m1, f, i, w);
    SameTransitive(m, m1, m2, {f});
    assert SameFrame(m, m1, KERNEL_DIR);
    EntrySame(m, m1, KERNEL_DIR, i);
    forall k: nat | k < i + 1 && k < 1024
      ensures Entry(m2, f, k) == if k < USER_FIRST then Entry(m, KERNEL_DIR, k) else 0
    {
      if k != i { assert Entry(m1, f, k) == Entry(m1, f, k); }
    }
  }

  lemma BuiltDirectory(s: Snap, s': Snap, f: nat)
    requires HalfBuilt(s.m, s'.m, f, 1024) && 1 <= f < PAGES && f !in s.used && KERNEL_DIR in s.used
    requires s'.used == s.used + {f}
    ensures Resident(s', EmptySpace(f)) && KernelHalf(s.m, s'.m, f) && SameOutside(s.m, s'.m, {f})
  {
    var sp := EmptySpace(f);
    forall i: nat | USER_FIRST <= i < 1024 ensures SlotOk(s'.m, sp, i) {
      assert Entry(s'.m, f, i) == 0;
    }
  }

  lemma SlotRead(m: seq<Byte>, sp: Space, i: nat)
    requires InMemory(m, sp) && USER_FIRST <= i < 1024
    ensures sp.dir * 4096 + 4 * i + 4 <= RAM_SIZE
    ensures var w := Word(m, sp.dir * 4096 + 4 * i);
      if i in sp.tables then w != 0 && AlignDown(w) == sp.tables[i] * 4096 && 0 < AlignDown(w)
          && AlignDown(w) + 4096 <= RAM_SIZE
      else w == 0
  {
    var w := Entry(m, sp.dir, i);
    assert Word(m, sp.dir * 4096 + 4 * i) == w;
    if i in sp.tables { assert SlotLeads(m, sp, i) && sp.tables[i] == sp.tables[i]; }
  }

  lemma StoresEntry(m: seq<Byte>, t: nat, k: nat, f: nat)
    requires |m| == RAM_SIZE && t < PAGES && k < 1024 && 1 <= f < PAGES
    ensures t * 4096 + 4 * k + 4 <= RAM_SIZE && 0 <= f * 4096 + PAGE_SHARED < RAM_SIZE
    ensures SetWord(m, t * 4096 + 4 * k, f * 4096 + PAGE_SHARED) == SetEntry(m, t, k, EntryFor(f))
  {
  }

  lemma NoneLeft(used: set<nat>, nbits: int)
    requires 0 in used && Exhausted(used, nbits)
    ensures NextFrame(used, nbits) == -1
  {
    NextFrameIsFree(used, nbits);
  }

  lemma MeansInPlace(s: Snap, sp: Space, addr: nat, size: nat, nbits: int, r: Mapping)
    requires AllocMeans(s, sp, addr, size, nbits, r)
    ensures InPlace(r.s, r.sp)
  {
    GrownParts(s, Cleared(sp, addr / 4096, Written(s, sp, addr, size, nbits)), r.s, r.sp);
  }

  /** The first entry after the table step, and how many frames are left for entries. */
  lemma StepEntry(s: Snap, sp: Space, addr: nat, size: nat, nbits: int)
    requires InPlace(s, sp) && 0 in s.used && KERNEL_DIR in s.used && nbits <= PAGES
    requires USER_MEMORY_BEGIN <= addr < RAM_SIZE && EntriesFit(s, sp, addr, size, nbits)
    ensures addr / 4096 / 1024 < 1024
    ensures var r := TableStep(s, sp, addr / 4096 / 1024, nbits);
      r.err == 0 ==>
        EntryAddress(r.sp, addr / 4096) + 4 * Min(Rounds(size), |FreeFrames(r.s.used, nbits)|) <= RAM_SIZE
  {
    hide *;
    UserSlot(addr);
    var v := addr / 4096;
    TableGrown(s, sp, v, nbits);
    var r := TableStep(s, sp, v / 1024, nbits);
    if r.err == 0 {
      GrownParts(s, sp, r.s, r.sp);
      TargetEntry(s, sp, r.s, r.sp, nbits, v);
      FitsIs(s, sp, addr, size, nbits, r.sp, |FreeFrames(r.s.used, nbits)|);
    }
  }

  lemma FitsIs(s: Snap, sp: Space, addr: nat, size: nat, nbits: int, sp': Space, free: nat)
    requires EntriesFit(s, sp, addr, size, nbits) && free <= |FreeFrames(s.used, nbits)|
    requires addr / 4096 / 1024 in sp'.tables
    requires TargetTable(s, sp, addr / 4096 / 1024, nbits) == sp'.tables[addr / 4096 / 1024]
    ensures EntryAddress(sp', addr / 4096) + 4 * Min(Rounds(size), free) <= RAM_SIZE
  {
    hide TargetTable, FreeFrames, Rounds;
  }

  lemma CountIs(size: nat, used: set<nat>, nbits: int)
    requires nbits <= PAGES
    ensures RAM_SIZE > 0 && PAGE_SIZE > 0
    ensures var c := (size + (PAGE_SIZE - 1)) % RAM_SIZE / PAGE_SIZE;
      c == if Rounds(size) == RAM_SIZE then 0 else Rounds(size)
    ensures Rounds(size) == RAM_SIZE ==> Rounds(size) > |FreeFrames(used, nbits)|
  {
    FreeFew(used, nbits);
  }

  lemma EntryAtAddress(sp: Space, v: nat, pte: nat)
    requires EntryAt(sp, v, pte)
    ensures pte == EntryAddress(sp, v)
  {
  }

  lemma UserSlot(addr: int)
    requires USER_MEMORY_BEGIN <= addr < RAM_SIZE
    ensures USER_FIRST <= PdeIndex(addr) < 1024 && PdeIndex(addr) == addr / 4096 / 1024
  {
    Indices(addr);
  }

  /** What the first target entry says. */
  lemma FirstEntry(s: Snap, sp: Space, s': Snap, sp': Space, nbits: int, addr: int, w: int, pte: nat)
    requires InPlace(s, sp) && InPlace(s', sp') && USER_MEMORY_BEGIN <= addr < RAM_SIZE
    requires TableStep(s, sp, addr / 4096 / 1024, nbits) == Mapping(s', sp', 0)
    requires PdeIndex(addr) in sp'.tables && pte == sp'.tables[PdeIndex(addr)] * 4096 + 4 * PteIndex(addr)
    requires pte + 4 <= |s'.m| && w == Word(s'.m, pte)
    ensures (Present(w) && !Dirty(w)) <==> Refused(s, sp, addr / 4096, nbits)
    ensures EntryAt(sp', addr / 4096, pte)
  {
    hide *;
    var v := addr / 4096;
    UserSlot(addr);
    TargetEntry(s, sp, s', sp', nbits, v);
    EntryWord(s'.m, sp', addr, w, pte);
    RefusedIs(s, sp, v, nbits);
  }

  /** The entry of page `v` after the table was made is what its frame held before. */
  lemma TargetEntry(s: Snap, sp: Space, s': Snap, sp': Space, nbits: int, v: nat)
    requires InPlace(s, sp) && InPlace(s', sp') && v / 1024 < 1024
    requires TableStep(s, sp, v / 1024, nbits) == Mapping(s', sp', 0)
    ensures |s.m| == RAM_SIZE && |s'.m| == RAM_SIZE && v / 1024 in sp'.tables && 1 <= sp'.tables[v / 1024] < PAGES
    ensures TargetTable(s, sp, v / 1024, nbits) == sp'.tables[v / 1024]
    ensures Entry(s'.m, sp'.tables[v / 1024], v % 1024) == Entry(s.m, sp'.tables[v / 1024], v % 1024)
  {
    hide *;
    var i := v / 1024;
    InPlaceParts(s, sp);
    InPlaceParts(s', sp');
    TableStepIs(s, sp, i, nbits);
    TargetIs(s, sp, i, nbits);
    if i in sp.tables {
      SlotTable(sp, i);
    } else {
      var t := NextFrame(s.used, nbits);
      FrameFrom(s, sp.dir, t);
      AddTableFields(sp, i, t);
      TableNotDir(sp', i);
      EntrySet(s.m, sp.dir, i, EntryFor(t));
      OtherFrame(s.m, s'.m, {sp.dir}, t);
      EntrySame(s.m, s'.m, t, v % 1024);
    }
  }

  lemma OtherFrame(m: seq<Byte>, m': seq<Byte>, fs: set<nat>, f: nat)
    requires SameOutside(m, m', fs) && f !in fs && f < PAGES
    ensures |m| == RAM_SIZE && |m'| == RAM_SIZE && SameFrame(m, m', f)
  {
  }

  lemma TargetIs(s: Snap, sp: Space, i: nat, nbits: int)
    ensures TargetTable(s, sp, i, nbits) == if i in sp.tables then sp.tables[i] else NextFrame(s.used, nbits)
    ensures ENOMEM == 9
  {
  }

  lemma SlotTable(sp: Space, i: nat)
    requires Shaped(sp) && i in sp.tables
    ensures 1 <= sp.tables[i] < PAGES
  {
  }

  lemma FrameFrom(s: Snap, t: nat, f: int)
    ensures Writable(s, t, f) ==> |s.m| == RAM_SIZE && t < PAGES && 1 <= f < PAGES
  {
  }

  lemma EntryWord(m: seq<Byte>, sp: Space, addr: int, w: int, pte: nat)
    requires |m| == RAM_SIZE && USER_MEMORY_BEGIN <= addr < RAM_SIZE && PdeIndex(addr) in sp.tables
    requires 1 <= sp.tables[PdeIndex(addr)] < PAGES
    requires pte == sp.tables[PdeIndex(addr)] * 4096 + 4 * PteIndex(addr) && pte + 4 <= |m| && w == Word(m, pte)
    ensures w == Entry(m, sp.tables[PdeIndex(addr)], addr / 4096 % 1024) && EntryAt(sp, addr / 4096, pte)
  {
    Indices(addr);
  }

  lemma RefusedIs(s: Snap, sp: Space, v: nat, nbits: int)
    ensures var t := TargetTable(s, sp, v / 1024, nbits);
      0 <= t < PAGES && |s.m| == RAM_SIZE ==>
        var w := Entry(s.m, t, v % 1024); Refused(s, sp, v, nbits) <==> Present(w) && !Dirty(w)
  {
  }

  lemma TableNotDir(sp: Space, i: nat)
    requires Separate(sp) && i in sp.tables
    ensures sp.tables[i] != sp.dir
  {
  }

  lemma NoFrame(s: Snap, t: nat, nbits: int)
    requires 0 in s.used && Exhausted(s.used, nbits)
    ensures !Writable(s, t, NextFrame(s.used, nbits))
  {
    NextFrameIsFree(s.used, nbits);
  }

  lemma FrameWritable(s: Snap, t: nat, f: nat)
    requires |s.m| == RAM_SIZE && t < PAGES && 1 <= f < PAGES
    ensures Writable(s, t, f)
  {
  }

  lemma SlotPages(i: nat)
    ensures 1024 * i / 1024 == i
  {
  }

  lemma AddTableFields(sp: Space, i: nat, t: nat)
    ensures AddTable(sp, i, t).tables.Keys == sp.tables.Keys + {i}
    ensures AddTable(sp, i, t).dir == sp.dir && AddTable(sp, i, t).pages == sp.pages && i in AddTable(sp, i, t).tables
    ensures AddTable(sp, i, t).tables[i] == t
  {
  }

  lemma AddPageFields(sp: Space, v: nat, f: nat)
    ensures AddPage(sp, v, f).dir == sp.dir && AddPage(sp, v, f).tables == sp.tables
    ensures AddPage(sp, v, f).pages.Keys == sp.pages.Keys + {v}
  {
  }

  lemma AlignedFrame(page: nat)
    ensures page % 4096 == 0 ==> AlignDown(page) == page && (page / 4096 < PAGES ==> page + 4096 <= RAM_SIZE)
  {
  }

}
