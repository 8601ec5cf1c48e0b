/** kmalloc of source/mm/memory.c, write by write on the headers in memory. */
module Kmalloc {
  import opened PhysMem
  import opened Bitmap
  import opened Seqs
  import opened AddressSpace
  import opened KmallocModel
  import opened KmallocHeaders
  import opened Spaces

  class Allocator {
    const mc: Machine
    var freeList: nat
    ghost var hd: Headers
    ghost var heap: Heap

    ghost predicate Valid()
      reads this, mc, mc.ram, mc.bits, mc.bits.base
    {
      && mc.Valid() && Holding(mc.Now().m, hd) && Recorded(hd, heap, freeList)
      && Inv(State(heap, mc.Now().used))
    }

    /** mem_init. The result of alloc_pages is not checked, so there must be eight free pages in
        a row. */
    constructor (machine: Machine)
      requires machine.Valid() && FirstFit(machine.Now().used, machine.bits.nbits, 8, 0) > 0
      modifies machine.ram, machine.bits.base
      ensures Valid() && mc == machine
      ensures var r := FirstFit(old(machine.Now().used), machine.bits.nbits, 8, 0);
        heap == Fresh(r * 4096) && mc.Now().used == old(machine.Now().used) + Run(r, 8)
    {
      mc := machine;
      freeList := 0;
      hd := map[];
      heap := Heap({}, map[], []);
      new;
      MakeFirst();
    }

    /** The first region, one free block. */
    method MakeFirst()
      requires mc.Valid() && FirstFit(mc.Now().used, mc.bits.nbits, 8, 0) > 0
      modifies this, mc.ram, mc.bits.base
      ensures Valid()
      ensures var r := FirstFit(old(mc.Now().used), mc.bits.nbits, 8, 0);
        heap == Fresh(r * 4096) && mc.Now().used == old(mc.Now().used) + Run(r, 8)
    {
      hide *;
      Words();
      MachineFacts();
      ghost var used := mc.Now().used;
      var r := mc.AllocRun(8);
      freeList := r;
      ghost var s0 := mc.Now();
      FirstRegion(used, mc.bits.nbits, r / 4096);
      FirstHeader(s0.m, r);
      ghost var x := HeaderAt(s0.m, r);
      hd := map[r := x];
      Reopen(s0);
      Put(r, SIZE_AT, REGION, s0);
      Put(r, 0, FREE, s0);
      PutHead(r, 1, s0);
      Put(r, PREV_AT, 0, s0);
      Put(r, NEXT_AT, 0, s0);
      FreshRecorded(r, x);
      Opened(s0);
      heap := Fresh(r);
      MakeValid();
    }

    lemma MachineFacts()
      requires mc.Valid()
      ensures |mc.Now().m| == RAM_SIZE && 0 in mc.Now().used && mc.bits.nbits <= PAGES
    {
    }

    lemma MakeValid()
      requires mc.Valid() && Holding(mc.Now().m, hd) && Recorded(hd, heap, freeList) && Inv(State(heap, mc.Now().used))
      ensures Valid()
    {
    }

    lemma ValidParts()
      requires Valid()
      ensures mc.Valid() && Holding(mc.Now().m, hd) && Recorded(hd, heap, freeList) && Inv(State(heap, mc.Now().used))
      ensures Tiled(heap) && Listed(heap) && ListedFree(heap)
    {
    }

    /** The headers are in memory, and nothing but headers was written since `m0`. */
    ghost predicate Open(s0: Snap)
      reads this, mc, mc.ram, mc.bits, mc.bits.base
    {
      mc.Valid() && Holding(mc.Now().m, hd) && OnlyHeaders(s0.m, mc.Now().m, hd.Keys) && mc.Now().used == s0.used
    }

    method Get(a: nat, off: nat, ghost s0: Snap) returns (w: int)
      requires Open(s0) && a in hd && WordField(off)
      ensures w == Field(hd[a], off) && 0 <= w < RAM_SIZE
      ensures (off == SIZE_AT ==> w == hd[a].size) && (off == PREV_AT ==> w == hd[a].prev)
      ensures (off == NEXT_AT ==> w == hd[a].next)
    {
      hide *;
      Opened(s0);
      FieldFits(mc.Now().m, hd, a, off);
      FieldIs(hd[a], off);
      w := mc.Load(a + off);
    }

    method Put(a: nat, off: nat, w: int, ghost s0: Snap)
      requires Open(s0) && a in hd && WordField(off) && 0 <= w < RAM_SIZE
      modifies mc.ram, this`hd
      ensures Open(s0) && hd.Keys == old(hd).Keys
      ensures hd == Apply(old(hd), a, off, w)
    {
      hide Holding, OnlyHeaders;
      WordPut(mc.Now().m, hd, a, off, w, s0.m);
      mc.Store(a + off, w);
      hd := Apply(hd, a, off, w);
    }

    method PutHead(a: nat, b: Byte, ghost s0: Snap)
      requires Open(s0) && a in hd
      modifies mc.ram, this`hd
      ensures Open(s0) && hd.Keys == old(hd).Keys
      ensures hd == Apply(old(hd), a, IS_HEAD_AT, b as int)
    {
      hide Holding, OnlyHeaders;
      HeadPut(mc.Now().m, hd, a, b, s0.m);
      mc.StoreByte(a + IS_HEAD_AT, b);
      hd := Apply(hd, a, IS_HEAD_AT, b as int);
    }

    /** Set the back link of a block that may not be there. */
    method SetPrev(next: nat, a: nat, ghost s0: Snap)
      requires Open(s0) && (next != 0 ==> next in hd) && a < RAM_SIZE
      modifies mc.ram, this`hd
      ensures Open(s0) && hd.Keys == old(hd).Keys
      ensures hd == BackLinked(old(hd), next, a)
    {
      hide Holding, OnlyHeaders;
      if next != 0 {
        Put(next, PREV_AT, a, s0);
      }
    }

    /** The writes that cut `need` bytes off the block at `a` and link the rest behind it. */
    method WriteCut(a: nat, need: nat, ghost i: nat, ghost s0: Snap)
      requires Open(s0) && CutReady(mc.Now().m, hd, heap, i, a, need, s0.m)
      modifies mc.ram, this`hd
      ensures Open(s0)
      ensures a in old(hd) && SplitHeaders(old(hd), hd, a, a + need, need, old(hd)[a].next)
    {
      hide *;
      ghost var hd0 := hd;
      var n := a + need;
      Words();
      Opened(s0);
      CutReadyFacts(mc.Now().m, hd, heap, i, a, need, s0.m);
      ghost var x := HeaderAt(mc.Now().m, n);
      hd := hd[n := x];
      Reopen(s0);
      var size := Get(a, SIZE_AT, s0);
      ApplyOther(hd, n, SIZE_AT, size - need, a);
      Put(n, SIZE_AT, size - need, s0);
      ghost var g1 := hd;
      ApplyOther(hd, n, PREV_AT, a, a);
      Put(n, PREV_AT, a, s0);
      ghost var g2 := hd;
      var next := Get(a, NEXT_AT, s0);
      assert size == hd0[a].size && next == hd0[a].next;
      Put(n, NEXT_AT, next, s0);
      ghost var g3 := hd;
      SetPrev(next, n, s0);
      ghost var g4 := hd;
      Put(n, 0, FREE, s0);
      ghost var g5 := hd;
      PutHead(n, 0, s0);
      ghost var g6 := hd;
      Put(a, SIZE_AT, need, s0);
      ghost var g7 := hd;
      Put(a, NEXT_AT, n, s0);
      SplitChain(hd0, g1, g2, g3, g4, g5, g6, g7, hd, x, a, n, need, next);
    }

    /** Cut the free block at `a` after `need` bytes and link the rest behind it. */
    method Cut(a: nat, need: nat, ghost i: nat, ghost s0: Snap)
      requires Open(s0) && Recorded(hd, heap, freeList) && Tiled(heap) && Listed(heap)
      requires i < |heap.free| && a == heap.free[i] && a in heap.blocks && a in hd
      requires HSIZE <= need && need + HSIZE < heap.blocks[a].size
      modifies mc.ram, this`hd, this`heap
      ensures Open(s0) && Recorded(hd, heap, freeList)
      ensures heap == Split(old(heap), i, need)
    {
      hide *;
      ghost var hd0 := hd;
      Opened(s0);
      BeforeCut(mc.Now().m, hd, heap, freeList, i, need, s0.m);
      CutReadyFacts(mc.Now().m, hd, heap, i, a, need, s0.m);
      WriteCut(a, need, i, s0);
      SplitRecorded(hd0, hd, heap, freeList, i, need);
      Opened(s0);
      heap := Split(heap, i, need);
      Reopen(s0);
    }

    /** Mark the free block at `a` used and take it off the list. */
    method Unlink(a: nat, ghost i: nat, ghost s0: Snap)
      requires Open(s0) && Recorded(hd, heap, freeList) && Tiled(heap) && Listed(heap)
      requires i < |heap.free| && a == heap.free[i] && a in heap.blocks
      modifies mc.ram, this`hd, this`heap, this`freeList
      ensures Open(s0) && Recorded(hd, heap, freeList)
      ensures heap == Take(old(heap), i)
    {
      hide *;
      ghost var hd0, head0 := hd, freeList;
      Words();
      RecordedParts(hd, heap, freeList);
      ListNeighbours(hd, heap, i);
      NoBlockAtZero(heap);
      Put(a, 0, USED, s0);
      ghost var g1 := hd;
      MarkKeepsLinks(hd0, a);
      var prev := Get(a, PREV_AT, s0);
      var next := Get(a, NEXT_AT, s0);
      if prev != 0 {
        Put(prev, NEXT_AT, next, s0);
        ghost var g2 := hd;
        SetPrev(next, prev, s0);
        TakeChain(hd0, g1, g2, hd, a, prev, next);
      } else {
        Opened(s0);
        freeList := next;
        Reopen(s0);
        SetPrev(next, 0, s0);
        TakeChain(hd0, g1, g1, hd, a, prev, next);
      }
      TakeRecorded(hd0, hd, heap, head0, i, freeList);
      Opened(s0);
      heap := Take(heap, i);
      Reopen(s0);
    }

    /** Write a header for the allocated block at `r` of a new region. */
    method WriteNew(r: nat, need: nat, ghost s0: Snap, ghost h': Heap)
      requires Open(s0) && RegionsOk(h') && BlocksOk(h') && BlocksApart(h') && hd.Keys <= h'.blocks.Keys
      requires r in h'.blocks && r !in hd
      requires need < RAM_SIZE
      modifies mc.ram, this`hd
      ensures Open(s0) && hd == old(hd)[r := Header(USED, need, 1, 0, 0)]
    {
      hide *;
      ghost var hd0 := hd;
      Words();
      Opened(s0);
      HeaderAdded(mc.Now().m, hd, h', r, s0.m);
      ghost var x := HeaderAt(mc.Now().m, r);
      hd := hd[r := x];
      Reopen(s0);
      Put(r, SIZE_AT, need, s0);
      Put(r, NEXT_AT, 0, s0);
      Put(r, PREV_AT, 0, s0);
      Put(r, 0, USED, s0);
      PutHead(r, 1, s0);
      NewChain(hd0, hd, x, r, need);
    }

    /** Write a header for the rest of a new region and link it behind `last`, the end of the
        list. What follows `last` is the null pointer, and the code writes through it. */
    method WriteRest(n: nat, size: nat, last: nat, ghost s0: Snap, ghost h': Heap)
      requires Open(s0) && RegionsOk(h') && BlocksOk(h') && BlocksApart(h') && hd.Keys <= h'.blocks.Keys
      requires n in h'.blocks && n !in hd
      requires size < RAM_SIZE && last in hd && hd[last].next == 0
      modifies mc.ram, this`hd
      ensures Open(s0) && last in old(hd)
      ensures hd == old(hd)[n := Header(FREE, size, 0, last, 0)][last := old(hd)[last].(next := n)]
    {
      hide *;
      ghost var hd0 := hd;
      Words();
      Opened(s0);
      HeaderAdded(mc.Now().m, hd, h', n, s0.m);
      HeaderFits(mc.Now().m, hd, last);
      ghost var x := HeaderAt(mc.Now().m, n);
      hd := hd[n := x];
      Reopen(s0);
      ApplyOther(hd, n, SIZE_AT, size, last);
      Put(n, SIZE_AT, size, s0);
      var next := Get(last, NEXT_AT, s0);
      Put(n, NEXT_AT, next, s0);
      ghost var g1 := hd;
      PutPastNull(next, n, s0, h');
      Put(n, PREV_AT, last, s0);
      ghost var g2 := hd;
      Put(last, NEXT_AT, n, s0);
      ghost var g3 := hd;
      Put(n, 0, FREE, s0);
      PutHead(n, 0, s0);
      RestChain(hd0, g1, g2, g3, hd, x, n, size, last);
    }

    method PutPastNull(next: nat, n: nat, ghost s0: Snap, ghost h': Heap)
      requires Open(s0) && RegionsOk(h') && BlocksOk(h') && hd.Keys <= h'.blocks.Keys && next == 0 && n < RAM_SIZE
      modifies mc.ram
      ensures Open(s0)
    {
      hide *;
      Words();
      Opened(s0);
      NullPut(mc.Now().m, hd, h', n, s0.m);
      mc.Store(next + PREV_AT, n);
      Reopen(s0);
    }

    /** A new region at `r`: a block of `need` bytes to hand out, and the rest on the list. */
    method Extend(r: nat, need: nat, last: nat, ghost s0: Snap)
      requires Open(s0) && Recorded(hd, heap, freeList) && Tiled(heap) && Listed(heap)
      requires heap.free != [] && last == heap.free[|heap.free| - 1] && HSIZE <= need && need + HSIZE <= REGION
      requires RegionOk(r)
      requires forall q {:trigger q in heap.regions} :: q in heap.regions ==> Apart(r, REGION, q, REGION)
      modifies mc.ram, this`hd, this`heap
      ensures Open(s0) && Recorded(hd, heap, freeList) && heap == Grow(old(heap), r, need)
    {
      hide *;
      ghost var hd0, h' := hd, Grow(heap, r, need);
      Words();
      GrowKeeps(heap, r, need);
      HeapParts(h');
      RecordedParts(hd, heap, freeList);
      ListNeighbours(hd, heap, |heap.free| - 1);
      GrowKeys(heap, r, need);
      LastNext(heap.free);
      WriteNew(r, need, s0, h');
      ghost var g := hd;
      WriteRest(r + need, REGION - need, last, s0, h');
      GrowChain(hd0, g, hd, last, r, need);
      GrowRecorded(hd0, hd, heap, freeList, r, need);
      Opened(s0);
      heap := h';
      Reopen(s0);
    }

    /** A new region when the list is empty: the code takes the null pointer for the last block.
        It stores the rest's address through null, and through whatever word is found there, but
        the list head stays null, so the rest is free and on no list. */
    method ExtendEmpty(r: nat, need: nat)
      requires Open(mc.Now()) && Recorded(hd, heap, freeList) && Tiled(heap) && Listed(heap) && heap.free == []
      requires HSIZE <= need && need + HSIZE <= REGION && RegionOk(r) && |mc.Now().m| == RAM_SIZE
      requires forall q {:trigger q in heap.regions} :: q in heap.regions ==> Apart(r, REGION, q, REGION)
      requires ClearOf(heap.blocks.Keys + {r, r + need}, Word(mc.Now().m, NEXT_AT) + PREV_AT)
      modifies mc.ram, this`hd, this`heap
      ensures freeList == 0 && Open(mc.Now()) && heap == Extended(old(heap), r, need)
      ensures hd == old(hd)[r := Header(USED, need, 1, 0, 0)][r + need := Header(FREE, REGION - need, 0, 0,
          Word(old(mc.Now()).m, NEXT_AT))]
      ensures Tiled(heap) && r + need in heap.blocks && !heap.blocks[r + need].live && !Listed(heap)
    {
      hide *;
      ghost var s0, h' := mc.Now(), Grow(heap, r, need);
      Words();
      Opened(s0);
      GrowKeeps(heap, r, need);
      HeapParts(h');
      RecordedParts(hd, heap, freeList);
      GrowKeys(heap, r, need);
      EmptyHead(heap);
      LooseRest(heap, r, need);
      ExtendedIs(heap, r, need);
      WriteNew(r, need, s0, h');
      Opened(s0);
      LowWordsClear(hd, h');
      LowWordKept(s0.m, mc.Now().m, hd.Keys);
      WriteLoose(r + need, REGION - need, s0, h');
      Opened(mc.Now());
      heap := h'.(free := []);
      Reopen(mc.Now());
    }

    /** Write a header for the rest of a new region, and what the code writes through null. */
    method WriteLoose(n: nat, size: nat, ghost s0: Snap, ghost h': Heap)
      requires Open(s0) && RegionsOk(h') && BlocksOk(h') && BlocksApart(h') && hd.Keys + {n} == h'.blocks.Keys
      requires n !in hd
      requires size < RAM_SIZE && |mc.Now().m| == RAM_SIZE
      requires ClearOf(h'.blocks.Keys, Word(mc.Now().m, NEXT_AT) + PREV_AT)
      modifies mc.ram, this`hd
      ensures Open(mc.Now())
      ensures |old(mc.Now()).m| == RAM_SIZE
      ensures hd == old(hd)[n := Header(FREE, size, 0, 0, Word(old(mc.Now()).m, NEXT_AT))]
    {
      hide *;
      ghost var g := hd;
      Words();
      Opened(s0);
      HeaderAdded(mc.Now().m, hd, h', n, s0.m);
      ghost var x := HeaderAt(mc.Now().m, n);
      hd := hd[n := x];
      assert hd.Keys == h'.blocks.Keys;
      LowWordsClear(hd, h');
      LowWordKept(s0.m, mc.Now().m, hd.Keys);
      Reopen(s0);
      Put(n, SIZE_AT, size, s0);
      Opened(s0);
      LowWordKept(s0.m, mc.Now().m, hd.Keys);
      var next := mc.Load(NEXT_AT);
      Put(n, NEXT_AT, next, s0);
      ghost var g1 := hd;
      Poke(next + PREV_AT, n, s0);
      ghost var s1 := mc.Now();
      Put(n, PREV_AT, 0, s1);
      ghost var g2 := hd;
      Poke(NEXT_AT, n, s1);
      ghost var s2 := mc.Now();
      Put(n, 0, FREE, s2);
      PutHead(n, 0, s2);
      LooseChain(g, g1, g2, hd, x, n, size, next);
      Opened(s2);
      OnlyHeadersStart(mc.Now().m, hd.Keys);
      Reopen(mc.Now());
    }

    /** Store a word that is in no header. */
    method Poke(x: nat, w: nat, ghost s0: Snap)
      requires Open(s0) && ClearOf(hd.Keys, x) && w < RAM_SIZE
      modifies mc.ram
      ensures Open(mc.Now())
    {
      hide *;
      Words();
      Opened(s0);
      ElsewherePut(mc.Now().m, hd, x, w);
      mc.Store(x, w);
      MachineFacts();
      OnlyHeadersStart(mc.Now().m, hd.Keys);
      Reopen(mc.Now());
    }

    /** kmalloc: the pointer and the new heap are those of the model; nothing but headers was
        written, besides the word behind the null pointer, and no allocated payload changed. */
    method KMalloc(size: nat) returns (p: nat)
      requires Valid() && ListedFree(heap) && Fine(State(heap, mc.Now().used), mc.bits.nbits, size)
      modifies this, mc.ram, mc.bits.base
      ensures Valid()
      ensures (State(heap, mc.Now().used), p) == Step(old(State(heap, mc.Now().used)), mc.bits.nbits, size)
      ensures OnlyHeaders(old(mc.Now()).m, mc.Now().m, heap.blocks.Keys)
      ensures PayloadsSame(old(mc.Now()).m, mc.Now().m, old(heap))
    {
      hide *;
      ghost var s0, k := mc.Now(), State(heap, mc.Now().used);
      ValidParts();
      MachineFacts();
      Words();
      OnlyHeadersStart(s0.m, hd.Keys);
      RecordedParts(hd, heap, freeList);
      StepKeeps(k, mc.bits.nbits, size);
      var need := Total(size);
      SizeCheck(need);
      if need < 8 || need > REGION {
        Refusal(k, mc.bits.nbits, size);
        PayloadsFrom(s0.m, mc.Now().m, k, mc.bits.nbits, size);
        return 0;
      }
      Reopen(s0);
      NeedFacts(k, mc.bits.nbits, size);
      var current, prev; ghost var i;
      current, prev, i := Find(need, s0);
      FoundIsFit(k, mc.bits.nbits, size, i);
      if current != 0 {
        CarveIs(k.heap, i, need);
        var fit := Get(current, SIZE_AT, s0);
        if fit > need + HSIZE {
          Cut(current, need, i, s0);
          AfterCut(k.heap, i, need);
        }
        Unlink(current, i, s0);
        RecordedParts(hd, heap, freeList);
        Opened(s0);
        MakeValid();
        PayloadsFrom(s0.m, mc.Now().m, k, mc.bits.nbits, size);
        return current + HSIZE;
      }
      Opened(s0);
      var r := mc.AllocRun(8);
      if r == 0 {
        assert k.used + {} == k.used;
        MakeValid();
        PayloadsFrom(s0.m, mc.Now().m, k, mc.bits.nbits, size);
        return 0;
      }
      ghost var s1 := mc.Now();
      Reopen(s1);
      Extend(r, need, prev, s1);
      RecordedParts(hd, heap, freeList);
      Opened(s1);
      MakeValid();
      PayloadsFrom(s0.m, mc.Now().m, k, mc.bits.nbits, size);
      return r + HSIZE;
    }

    /** Walk the free list to the first block of at least `need` bytes. */
    method Find(need: nat, ghost s0: Snap) returns (current: nat, prev: nat, ghost i: nat)
      requires Open(s0) && Recorded(hd, heap, freeList) && Tiled(heap) && Listed(heap) && ListedFree(heap)
      ensures i == FitIndex(heap, need, 0) && i <= |heap.free| && (current == 0 <==> i == |heap.free|)
      ensures current == 0 && heap.free != [] ==> prev == heap.free[|heap.free| - 1]
      ensures current != 0 ==> current == heap.free[i] && current in heap.blocks && current in hd
      ensures current != 0 ==> hd[current].size == heap.blocks[current].size >= need
    {
      hide *;
      Words();
      RecordedParts(hd, heap, freeList);
      current := freeList;
      prev := current;
      i := 0;
      SearchStart(heap, need);
      while current != 0
        invariant i <= |heap.free| && current == ListAt(heap.free, i) && prev == Behind(heap.free, i)
        invariant SmallBefore(heap, need, i)
        decreases |heap.free| - i
      {
        AtIndex(hd, heap, i);
        var size := Get(current, SIZE_AT, s0);
        if size >= need {
          FitIs(heap, need, i);
          return;
        }
        SearchNext(heap, need, i);
        prev := current;
        current := Get(current, NEXT_AT, s0);
        i := i + 1;
      }
      SearchEnd(heap, i);
      LastBehind(heap.free);
      FitIs(heap, need, i);
    }

    lemma Opened(s0: Snap)
      requires Open(s0)
      ensures mc.Valid() && Holding(mc.Now().m, hd) && OnlyHeaders(s0.m, mc.Now().m, hd.Keys)
      ensures mc.Now().used == s0.used
    {
    }

    lemma Reopen(s0: Snap)
      requires mc.Valid() && Holding(mc.Now().m, hd) && OnlyHeaders(s0.m, mc.Now().m, hd.Keys)
      requires mc.Now().used == s0.used
      ensures Open(s0)
    {
    }
  }

  // ---------------------------------------------------------------- the search

  /** What is in the payloads of allocated blocks is the same. */
  ghost predicate PayloadsSame(m: seq<Byte>, m': seq<Byte>, h: Heap) {
    && |m| == RAM_SIZE && |m'| == RAM_SIZE
    && forall a, x: nat {:trigger h.blocks[a], m'[x]} ::
         a in h.blocks && h.blocks[a].live && a + HSIZE <= x < a + h.blocks[a].size && x < RAM_SIZE ==>
           m'[x] == m[x]
  }

  lemma PayloadsFrom(m: seq<Byte>, m': seq<Byte>, k: State, nbits: int, size: nat)
    requires Inv(k) && Fine(k, nbits, size) && nbits <= PAGES
    requires OnlyHeaders(m, m', Step(k, nbits, size).0.heap.blocks.Keys)
    ensures PayloadsSame(m, m', k.heap)
  {
    var h' := Step(k, nbits, size).0.heap;
    StepGrants(k, nbits, size);
    StepKeeps(k, nbits, size);
    hide Step, Fine, Inv, OnlyHeaders;
    forall a, x: nat |
      a in k.heap.blocks && k.heap.blocks[a].live && a + HSIZE <= x < a + k.heap.blocks[a].size && x < RAM_SIZE
      ensures m'[x] == m[x]
    {
      PayloadByte(m, m', h', a, x);
    }
  }

  lemma PayloadByte(m: seq<Byte>, m': seq<Byte>, h: Heap, a: nat, x: nat)
    requires OnlyHeaders(m, m', h.blocks.Keys) && BlocksOk(h) && BlocksApart(h) && RegionsOk(h)
    requires a in h.blocks && a + HSIZE <= x < a + h.blocks[a].size && x < RAM_SIZE
    ensures m'[x] == m[x]
  {
    HeaderInside(h, a);
    forall b | b in h.blocks.Keys ensures !(b <= x < b + HSIZE) {
      if b != a {
        assert Apart(b, h.blocks[b].size, a, h.blocks[a].size) && BlockOk(h, b) && BlockOk(h, a);
      }
    }
    assert !InHeader(h.blocks.Keys, x);
  }

  /** The `i`-th block on the list, or the null pointer behind the last. */
  function ListAt(s: seq<nat>, i: nat): nat {
    if i < |s| then s[i] else 0
  }

  /** Where `prev` is when the walk is at the `i`-th block. */
  function Behind(s: seq<nat>, i: nat): nat
    requires i <= |s|
  {
    if i == 0 then HeadOf(s) else s[i - 1]
  }

  ghost predicate SmallBefore(h: Heap, need: nat, i: nat) {
    forall j {:trigger h.free[j]} :: 0 <= j < i && j < |h.free| && h.free[j] in h.blocks ==>
        h.blocks[h.free[j]].size < need
  }

  lemma SearchStart(h: Heap, need: nat)
    ensures ListAt(h.free, 0) == HeadOf(h.free) == Behind(h.free, 0) && SmallBefore(h, need, 0)
  {
  }

  lemma AtIndex(hd: Headers, h: Heap, i: nat)
    requires AllBlocks(hd, h) && AllLinks(hd, h.free) && Tiled(h) && Listed(h) && i <= |h.free|
    requires ListAt(h.free, i) != 0
    ensures var a := ListAt(h.free, i);
      i < |h.free| && a == h.free[i] && a in hd && a in h.blocks && hd[a].size == h.blocks[a].size
          && hd[a].next == ListAt(h.free, i + 1)
  {
    hide Tiled, Listed, AllBlocks, AllLinks;
    ListNeighbours(hd, h, i);
  }

  lemma SearchNext(h: Heap, need: nat, i: nat)
    requires SmallBefore(h, need, i) && i < |h.free| && h.free[i] in h.blocks && h.blocks[h.free[i]].size < need
    ensures SmallBefore(h, need, i + 1) && Behind(h.free, i + 1) == h.free[i]
  {
  }

  lemma SearchEnd(h: Heap, i: nat)
    requires Tiled(h) && Listed(h) && i <= |h.free| && ListAt(h.free, i) == 0
    ensures i == |h.free|
  {
    NoBlockAtZero(h);
    forall j | 0 <= j < |h.free| ensures h.free[j] != 0 {}
  }

  lemma LastBehind(s: seq<nat>)
    ensures s != [] ==> Behind(s, |s|) == s[|s| - 1]
  {
  }

  lemma FitIs(h: Heap, need: nat, i: nat)
    requires ListedFree(h) && SmallBefore(h, need, i) && i <= |h.free|
    requires (i < |h.free| ==> h.blocks[h.free[i]].size >= need)
    ensures i == FitIndex(h, need, 0)
  {
    var r := FitIndex(h, need, 0);
  }

  /** A refused request changes nothing. */
  lemma Refusal(k: State, nbits: int, size: nat)
    requires ListedFree(k.heap) && !Accepted(Total(size))
    ensures Step(k, nbits, size) == (k, 0)
  {
  }

  lemma NeedFacts(k: State, nbits: int, size: nat)
    requires ListedFree(k.heap) && Fine(k, nbits, size) && 8 <= Total(size) <= REGION
    ensures HSIZE <= Total(size) && Accepted(Total(size))
  {
  }

  lemma SizeCheck(need: nat)
    ensures Accepted(need) <==> 8 <= need <= REGION
  {
  }

  /** What the step does once the search has ended at `i`. */
  lemma FoundIsFit(k: State, nbits: int, size: nat, i: nat)
    requires Inv(k) && Fine(k, nbits, size) && nbits <= PAGES && Accepted(Total(size))
    requires i == FitIndex(k.heap, Total(size), 0)
    ensures i <= |k.heap.free|
    ensures i < |k.heap.free| ==> (k.heap.free[i] in k.heap.blocks && k.heap.blocks[k.heap.free[i]].size >= Total(size)
              && Step(k, nbits, size) == (State(Carve(k.heap, i, Total(size)), k.used), k.heap.free[i] + HSIZE))
    ensures i == |k.heap.free| ==> var r := FirstFit(k.used, nbits, 8, 0);
              if r > 0 then RegionOk(r * 4096) && k.heap.free != [] && Total(size) + HSIZE <= REGION && r != -1
                && (forall q {:trigger q in k.heap.regions} :: q in k.heap.regions ==>
                    Apart(r * 4096, REGION, q, REGION))
                && Step(k, nbits, size) == (State(Grow(k.heap, r * 4096, Total(size)), k.used + Run(r, 8)),
                    r * 4096 + HSIZE)
              else r == -1 && Step(k, nbits, size) == (k, 0)
  {
    hide Tiled, RegionsUsed, Carve, Grow;
    RunNotAtZero(k.used, nbits);
    var r := FirstFit(k.used, nbits, 8, 0);
    if i == |k.heap.free| && r > 0 {
      RegionsPart(k);
      NewRegion(k, nbits, r);
    }
  }

  /** After a cut the same place on the list holds the block, and taking it completes the step. */
  lemma AfterCut(h: Heap, i: nat, need: nat)
    requires Tiled(h) && Listed(h) && i < |h.free| && h.free[i] in h.blocks && HSIZE <= need
    requires h.blocks[h.free[i]].size > need + HSIZE
    ensures var h' := Split(h, i, need);
      && Tiled(h') && Listed(h') && i < |h'.free| && h'.free[i] == h.free[i] && h.free[i] in h'.blocks
  {
    SplitTiles(h, i, need);
    SplitListed(h, i, need);
  }

  lemma CarveIs(h: Heap, i: nat, need: nat)
    requires ListedFree(h) && i < |h.free| && h.blocks[h.free[i]].size >= need
    ensures Carve(h, i, need) == Take(if h.blocks[h.free[i]].size > need + HSIZE then Split(h, i, need) else h, i)
  {
  }

  // ---------------------------------------------------------------- facts for the writes

  lemma FieldIs(h: Header, off: nat)
    requires WordField(off)
    ensures (off == SIZE_AT ==> Field(h, off) == h.size) && (off == PREV_AT ==> Field(h, off) == h.prev)
    ensures off == NEXT_AT ==> Field(h, off) == h.next
  {
  }

  lemma GrowKeys(h: Heap, r: nat, need: nat)
    requires need <= REGION
    ensures Grow(h, r, need).blocks.Keys == h.blocks.Keys + {r, r + need}
  {
  }

  lemma EmptyHead(h: Heap)
    requires h.free == []
    ensures HeadOf(h.free) == 0
  {
  }

  lemma LastNext(s: seq<nat>)
    requires s != []
    ensures NextOf(s, |s| - 1) == 0
  {
  }

  /** The constants of the headers. */
  lemma Words()
    ensures 0 <= FREE < RAM_SIZE && 0 <= USED < RAM_SIZE && RAM_SIZE == 0x1_0000_0000 && 0 < HSIZE < REGION < RAM_SIZE
    ensures REGION == 32768 && NEXT_AT + 4 <= RAM_SIZE
    ensures WordField(0) && WordField(SIZE_AT) && WordField(PREV_AT) && WordField(NEXT_AT)
  {
  }

  lemma FirstRegion(used: set<nat>, nbits: int, r: nat)
    requires FirstFit(used, nbits, 8, 0) == r && r > 0 && nbits <= PAGES && 0 in used
    ensures RegionOk(r * 4096) && r * 4096 + HSIZE <= RAM_SIZE && Inv(State(Fresh(r * 4096), used + Run(r, 8)))
  {
    FreshInv(r * 4096, used + Run(r, 8));
  }

  lemma FirstHeader(m: seq<Byte>, r: nat)
    requires |m| == RAM_SIZE && r + HSIZE <= RAM_SIZE
    ensures var hd := map[r := HeaderAt(m, r)]; Holding(m, hd) && OnlyHeaders(m, m, hd.Keys) && r in hd
  {
  }

  lemma FreshRecorded(r: nat, x: Header)
    ensures Recorded(Apply(Apply(Apply(Apply(Apply(map[r := x], r, SIZE_AT, REGION), r, 0, FREE), r, IS_HEAD_AT,
        1), r, PREV_AT, 0), r, NEXT_AT, 0),
                     Fresh(r), r)
  {
    var hd := map[r := Header(FREE, REGION, 1, 0, 0)];
    assert SaysBlock(hd, Fresh(r), r) && SaysLinks(hd, Fresh(r).free, 0);
    assert hd.Keys == Fresh(r).blocks.Keys;
    assert hd == Apply(Apply(Apply(Apply(Apply(map[r := x], r, SIZE_AT, REGION), r, 0, FREE), r, IS_HEAD_AT, 1), r,
        PREV_AT, 0), r, NEXT_AT, 0);
  }

  /** What the headers around the block to be cut say. */
  ghost predicate CutReady(m: seq<Byte>, hd: Headers, h: Heap, i: nat, a: nat, need: nat, m0: seq<Byte>) {
    var n := a + need;
    && i < |h.free| && a in hd && a in h.blocks && hd[a].size == h.blocks[a].size && need < hd[a].size <= REGION
    && n !in hd && 0 !in hd && n + HSIZE <= RAM_SIZE == |m| && n != 0
    && hd[a].next == NextOf(h.free, i) && hd[a].next != a && hd[a].next != n
    && (hd[a].next != 0 ==> hd[a].next in hd)
    && Holding(m, hd[n := HeaderAt(m, n)]) && OnlyHeaders(m0, m, hd[n := HeaderAt(m, n)].Keys)
  }

  lemma CutReadyFacts(m: seq<Byte>, hd: Headers, h: Heap, i: nat, a: nat, need: nat, m0: seq<Byte>)
    requires CutReady(m, hd, h, i, a, need, m0)
    ensures var n := a + need;
      && i < |h.free| && a in hd && a in h.blocks && hd[a].size == h.blocks[a].size && need < hd[a].size <= REGION
      && n !in hd && 0 !in hd && n + HSIZE <= RAM_SIZE == |m| && n != 0
      && hd[a].next == NextOf(h.free, i) && hd[a].next != a && hd[a].next != n
      && (hd[a].next != 0 ==> hd[a].next in hd)
      && Holding(m, hd[n := HeaderAt(m, n)]) && OnlyHeaders(m0, m, hd[n := HeaderAt(m, n)].Keys)
  {
  }

  lemma BeforeCut(m: seq<Byte>, hd: Headers, h: Heap, head: nat, i: nat, need: nat, m0: seq<Byte>)
    requires Holding(m, hd) && OnlyHeaders(m0, m, hd.Keys) && Recorded(hd, h, head) && Tiled(h) && Listed(h)
    requires i < |h.free| && h.free[i] in h.blocks && h.free[i] in hd
    requires HSIZE <= need && need + HSIZE < h.blocks[h.free[i]].size
    ensures CutReady(m, hd, h, i, h.free[i], need, m0)
  {
    hide *;
    var a, n := h.free[i], h.free[i] + need;
    HeapParts(h);
    NotABlock(h, i, need);
    RecordedParts(hd, h, head);
    BlockBounds(h, a);
    ListNeighbours(hd, h, i);
    SplitTiles(h, i, need);
    SplitListed(h, i, need);
    HeapParts(Split(h, i, need));
    SplitKeys(h, i, need);
    HeaderAdded(m, hd, Split(h, i, need), n, m0);
    NoBlockAtZero(h);
    CutReadyFrom(m, hd, h, i, a, need, m0);
  }

  lemma CutReadyFrom(m: seq<Byte>, hd: Headers, h: Heap, i: nat, a: nat, need: nat, m0: seq<Byte>)
    requires i < |h.free| && a in hd && a in h.blocks && hd[a].size == h.blocks[a].size && need < hd[a].size <= REGION
    requires a + need !in hd && 0 !in hd && a + need + HSIZE <= RAM_SIZE == |m| && a + need != 0
    requires hd[a].next == NextOf(h.free, i) && hd[a].next != a && hd[a].next != a + need
    requires hd[a].next != 0 ==> hd[a].next in hd
    requires Holding(m, hd[a + need := HeaderAt(m, a + need)])
    requires OnlyHeaders(m0, m, hd[a + need := HeaderAt(m, a + need)].Keys)
    ensures CutReady(m, hd, h, i, a, need, m0)
  {
  }

  lemma SplitKeys(h: Heap, i: nat, need: nat)
    requires i < |h.free| && h.free[i] in h.blocks && need <= h.blocks[h.free[i]].size
    ensures Split(h, i, need).blocks.Keys == h.blocks.Keys + {h.free[i] + need}
  {
  }

  /** What the header of a listed block says about its neighbours. */
  lemma ListNeighbours(hd: Headers, h: Heap, i: nat)
    requires AllBlocks(hd, h) && AllLinks(hd, h.free) && Tiled(h) && Listed(h) && i < |h.free|
    ensures var a := h.free[i];
      && a in h.blocks && a in hd && SaysBlock(hd, h, a) && hd[a].size == h.blocks[a].size
      && hd[a].prev == PrevOf(h.free, i) && hd[a].next == NextOf(h.free, i)
      && (hd[a].next != 0 <==> i + 1 < |h.free|) && (hd[a].prev != 0 <==> i > 0)
      && (hd[a].next != 0 ==> hd[a].next in hd && hd[a].next in h.blocks && hd[a].next != a)
      && (hd[a].prev != 0 ==> hd[a].prev in hd && hd[a].prev in h.blocks && hd[a].prev != a && hd[a].prev != hd[a].next)
  {
    NoBlockAtZero(h);
    hide Tiled, FreeListed;
    assert SaysLinks(hd, h.free, i);
    assert SaysBlock(hd, h, h.free[i]);
    assert i + 1 < |h.free| ==> h.free[i + 1] in h.blocks && h.free[i] != h.free[i + 1];
    assert i > 0 ==> h.free[i - 1] in h.blocks && h.free[i - 1] != h.free[i];
    assert i > 0 && i + 1 < |h.free| ==> h.free[i - 1] != h.free[i + 1];
  }
}
