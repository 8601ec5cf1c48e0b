/** The kernel heap of source/mm/memory.c as values: regions cut into blocks, and the list of
    the free ones. */
module KmallocModel {
  import opened PhysMem
  import opened Bitmap
  import opened Seqs

  const HSIZE: nat := 17                       // sizeof(mem_block_t), packed
  const REGION: nat := 32768                   // 8 pages

  /** A block with its header: its size, the region it lies in, whether it is allocated. */
  datatype Block = Block(size: nat, region: nat, live: bool)

  /** Blocks by address, and the free list in order. */
  datatype Heap = Heap(regions: set<nat>, blocks: map<nat, Block>, free: seq<nat>)

  predicate Apart(a: nat, n: nat, b: nat, k: nat) {
    a + n <= b || b + k <= a
  }

  ghost predicate RegionOk(r: nat) {
    4096 <= r && r + REGION <= RAM_SIZE && r % 4096 == 0
  }

  ghost predicate BlockOk(h: Heap, a: nat)
    requires a in h.blocks
  {
    var b := h.blocks[a];
    b.region in h.regions && b.region <= a && a + b.size <= b.region + REGION && HSIZE <= b.size
  }

  /** Some block holds byte `x`. */
  ghost predicate Covered(h: Heap, x: nat) {
    exists a {:trigger h.blocks[a]} :: a in h.blocks && a <= x < a + h.blocks[a].size
  }

  ghost predicate InRegion(h: Heap, x: nat) {
    exists r {:trigger r in h.regions} :: r in h.regions && r <= x < r + REGION
  }

  ghost predicate RegionsOk(h: Heap) {
    && (forall r {:trigger r in h.regions} :: r in h.regions ==> RegionOk(r))
    && (forall r, q {:trigger r in h.regions, q in h.regions} :: r in h.regions && q in h.regions && r != q ==>
        Apart(r, REGION, q, REGION))
  }

  ghost predicate BlocksOk(h: Heap) {
    forall a {:trigger h.blocks[a]} :: a in h.blocks ==> BlockOk(h, a)
  }

  ghost predicate BlocksApart(h: Heap) {
    forall a, b {:trigger h.blocks[a], h.blocks[b]} :: a in h.blocks && b in h.blocks && a != b ==>
      Apart(a, h.blocks[a].size, b, h.blocks[b].size)
  }

  ghost predicate Complete(h: Heap) {
    forall x: nat {:trigger Covered(h, x)} {:trigger InRegion(h, x)} :: InRegion(h, x) ==> Covered(h, x)
  }

  /** Header and payload together, the blocks partition every region. */
  ghost predicate Tiled(h: Heap) {
    RegionsOk(h) && BlocksOk(h) && BlocksApart(h) && Complete(h)
  }

  ghost predicate ListedFree(h: Heap) {
    forall i {:trigger h.free[i]} :: 0 <= i < |h.free| ==> h.free[i] in h.blocks && !h.blocks[h.free[i]].live
  }

  ghost predicate FreeListed(h: Heap) {
    forall a {:trigger h.blocks[a]} :: a in h.blocks && !h.blocks[a].live ==> OnList(h.free, a)
  }

  /** The free list holds exactly the free blocks, each once. */
  ghost predicate Listed(h: Heap) {
    ListedFree(h) && Distinct(h.free) && FreeListed(h)
  }

  ghost predicate OnList(s: seq<nat>, a: nat) {
    exists i {:trigger s[i]} :: 0 <= i < |s| && s[i] == a
  }

  // ---------------------------------------------------------------- the steps

  /** Cut the `i`-th free block after `need` bytes; the rest follows it on the list. */
  function Split(h: Heap, i: nat, need: nat): Heap
    requires i < |h.free| && h.free[i] in h.blocks && need <= h.blocks[h.free[i]].size
  {
    var a := h.free[i];
    var b := h.blocks[a];
    Heap(h.regions, h.blocks[a := b.(size := need)][a + need := Block(b.size - need, b.region, false)],
         h.free[..i + 1] + [a + need] + h.free[i + 1..])
  }

  /** Hand out the `i`-th free block. */
  function Take(h: Heap, i: nat): Heap
    requires i < |h.free| && h.free[i] in h.blocks
  {
    var a := h.free[i];
    Heap(h.regions, h.blocks[a := h.blocks[a].(live := true)], h.free[..i] + h.free[i + 1..])
  }

  /** A new region with an allocated block of `need` bytes and a free rest. */
  function Grow(h: Heap, r: nat, need: nat): Heap
    requires need <= REGION
  {
    Heap(h.regions + {r}, h.blocks[r := Block(need, r, true)][r + need := Block(REGION - need, r, false)],
        h.free + [r + need])
  }

  /** The parts of a split block keep clear of every other block. */
  lemma SplitPair(h: Heap, i: nat, need: nat, b: nat, c: nat)
    requires BlocksOk(h) && BlocksApart(h) && i < |h.free| && h.free[i] in h.blocks
    requires HSIZE <= need && need + HSIZE <= h.blocks[h.free[i]].size
    requires b in h.blocks && b != h.free[i] && (c == h.free[i] || c == h.free[i] + need)
    ensures b != c && Apart(b, h.blocks[b].size, c, Split(h, i, need).blocks[c].size)
  {
    var a := h.free[i];
    assert Apart(b, h.blocks[b].size, a, h.blocks[a].size) && BlockOk(h, b) && BlockOk(h, a);
  }

  lemma SplitApart(h: Heap, i: nat, need: nat)
    requires BlocksOk(h) && BlocksApart(h) && i < |h.free| && h.free[i] in h.blocks
    requires HSIZE <= need && need + HSIZE <= h.blocks[h.free[i]].size
    ensures BlocksOk(Split(h, i, need)) && BlocksApart(Split(h, i, need))
  {
    var a, h' := h.free[i], Split(h, i, need);
    forall b | b in h'.blocks ensures BlockOk(h', b) {
      assert BlockOk(h, if b == a + need then a else b);
    }
    forall b, c | b in h'.blocks && c in h'.blocks && b != c ensures Apart(b, h'.blocks[b].size, c, h'.blocks[c].size) {
      var bOld, cOld := b != a && b != a + need, c != a && c != a + need;
      if bOld && cOld {
        assert Apart(b, h.blocks[b].size, c, h.blocks[c].size);
      } else if bOld {
        SplitPair(h, i, need, b, c);
      } else if cOld {
        SplitPair(h, i, need, c, b);
      }
    }
  }

  lemma SplitComplete(h: Heap, i: nat, need: nat)
    requires Complete(h) && i < |h.free| && h.free[i] in h.blocks && need <= h.blocks[h.free[i]].size
    requires h.free[i] + need !in h.blocks
    ensures Complete(Split(h, i, need))
  {
    var a, h' := h.free[i], Split(h, i, need);
    forall x: nat | InRegion(h', x) ensures Covered(h', x) {
      assert InRegion(h, x) && Covered(h, x);
      var b :| b in h.blocks && b <= x < b + h.blocks[b].size;
      var c := if b != a || x < a + need then b else a + need;
      assert c in h'.blocks && c <= x < c + h'.blocks[c].size;
    }
  }

  lemma SplitTiles(h: Heap, i: nat, need: nat)
    requires Tiled(h) && i < |h.free| && h.free[i] in h.blocks
    requires HSIZE <= need && need + HSIZE <= h.blocks[h.free[i]].size
    ensures Tiled(Split(h, i, need)) && h.free[i] + need !in h.blocks
  {
    hide BlocksOk, BlocksApart, Complete;
    SplitApart(h, i, need);
    NotABlock(h, i, need);
    SplitComplete(h, i, need);
  }

  lemma NotABlock(h: Heap, i: nat, need: nat)
    requires BlocksOk(h) && BlocksApart(h) && i < |h.free| && h.free[i] in h.blocks
    requires HSIZE <= need && need + HSIZE <= h.blocks[h.free[i]].size
    ensures h.free[i] + need !in h.blocks
  {
    var a := h.free[i];
    forall b | b in h.blocks ensures b != a + need {
      if b != a { assert Apart(b, h.blocks[b].size, a, h.blocks[a].size) && BlockOk(h, b); }
    }
  }

  lemma SplitListed(h: Heap, i: nat, need: nat)
    requires Listed(h) && i < |h.free| && h.free[i] in h.blocks && need <= h.blocks[h.free[i]].size
    requires h.free[i] + need !in h.blocks && need > 0
    ensures Listed(Split(h, i, need))
  {
    SplitList(h.free, i, h.free[i] + need);
    NotListed(h, h.free[i] + need);
    SplitListedFree(h, i, need);
    SplitFreeListed(h, i, need);
    hide *;
    SplitIs(h, i, need);
    ListedFrom(Split(h, i, need));
  }

  lemma SplitIs(h: Heap, i: nat, need: nat)
    requires i < |h.free| && h.free[i] in h.blocks && need <= h.blocks[h.free[i]].size
    ensures Split(h, i, need).free == Inserted(h.free, i + 1, h.free[i] + need)
  {
  }

  lemma ListedFrom(h: Heap)
    requires ListedFree(h) && Distinct(h.free) && FreeListed(h)
    ensures Listed(h)
  {
  }

  lemma SplitListedFree(h: Heap, i: nat, need: nat)
    requires ListedFree(h) && i < |h.free| && h.free[i] in h.blocks && need <= h.blocks[h.free[i]].size
    requires h.free[i] + need !in h.blocks
    ensures ListedFree(Split(h, i, need))
  {
    var h' := Split(h, i, need);
    forall j | 0 <= j < |h'.free| ensures h'.free[j] in h'.blocks && !h'.blocks[h'.free[j]].live {
      if j != i + 1 { assert h'.free[j] == h.free[if j <= i then j else j - 1]; }
    }
  }

  lemma SplitFreeListed(h: Heap, i: nat, need: nat)
    requires FreeListed(h) && i < |h.free| && h.free[i] in h.blocks && need <= h.blocks[h.free[i]].size
    ensures FreeListed(Split(h, i, need))
  {
    var h', rest := Split(h, i, need), h.free[i] + need;
    SplitList(h.free, i, rest);
    SplitIs(h, i, need);
    forall b | b in h'.blocks && !h'.blocks[b].live ensures OnList(h'.free, b) {
      if b == h.free[i] {
        assert OnList(h.free, b);
      } else if b != rest {
        assert b in h.blocks && !h.blocks[b].live && OnList(h.free, b);
      }
    }
  }

  function Inserted(s: seq<nat>, j: nat, x: nat): seq<nat>
    requires j <= |s|
  {
    s[..j] + [x] + s[j..]
  }

  lemma NotListed(h: Heap, x: nat)
    requires ListedFree(h) && x !in h.blocks
    ensures !OnList(h.free, x)
  {
  }

  lemma SplitList(s: seq<nat>, i: nat, x: nat)
    requires i < |s|
    ensures var r := Inserted(s, i + 1, x);
      && OnList(r, x) && (Distinct(s) && !OnList(s, x) ==> Distinct(r))
      && forall y {:trigger OnList(s, y)} :: OnList(s, y) ==> OnList(r, y)
  {
    var r := Inserted(s, i + 1, x);
    assert r[i + 1] == x;
    forall y | OnList(s, y) ensures OnList(r, y) {
      var j :| 0 <= j < |s| && s[j] == y;
      assert r[if j <= i then j else j + 1] == y;
    }
    if Distinct(s) && !OnList(s, x) {
      forall j, k | 0 <= j < k < |r| ensures r[j] != r[k] {
        if j == i + 1 {
          assert s[k - 1] == r[k];
        } else if k == i + 1 {
          assert s[j] == r[j];
        } else {
          assert r[j] == s[if j <= i then j else j - 1] && r[k] == s[if k <= i then k else k - 1];
        }
      }
    }
  }

  lemma TakeKeeps(h: Heap, i: nat)
    requires Tiled(h) && Listed(h) && i < |h.free| && h.free[i] in h.blocks
    ensures Tiled(Take(h, i)) && Listed(Take(h, i))
  {
    TakeListed(h, i);
    hide Listed;
    TakeApart(h, i);
    TakeComplete(h, i);
    hide BlocksApart, Complete;
    var h' := Take(h, i);
    forall b | b in h'.blocks ensures BlockOk(h', b) { assert BlockOk(h, b); }
  }

  lemma TakeComplete(h: Heap, i: nat)
    requires Complete(h) && i < |h.free| && h.free[i] in h.blocks
    ensures Complete(Take(h, i))
  {
    var h' := Take(h, i);
    forall x: nat | InRegion(h', x) ensures Covered(h', x) {
      assert InRegion(h, x) && Covered(h, x);
      var b :| b in h.blocks && b <= x < b + h.blocks[b].size;
      assert b in h'.blocks && h'.blocks[b].size == h.blocks[b].size;
    }
  }

  lemma TakeApart(h: Heap, i: nat)
    requires BlocksApart(h) && i < |h.free| && h.free[i] in h.blocks
    ensures BlocksApart(Take(h, i))
  {
    var h' := Take(h, i);
    forall b, c | b in h'.blocks && c in h'.blocks && b != c ensures Apart(b, h'.blocks[b].size, c, h'.blocks[c].size) {
      assert Apart(b, h.blocks[b].size, c, h.blocks[c].size);
    }
  }

  lemma TakeListed(h: Heap, i: nat)
    requires Listed(h) && i < |h.free| && h.free[i] in h.blocks
    ensures Listed(Take(h, i))
  {
    var a, h' := h.free[i], Take(h, i);
    forall j | 0 <= j < |h'.free| ensures h'.free[j] == h.free[if j < i then j else j + 1] && h'.free[j] != a {
      if j >= i { assert h.free[j + 1] != h.free[i]; }
    }
    forall b | b in h'.blocks && !h'.blocks[b].live ensures OnList(h'.free, b) {
      assert b in h.blocks && !h.blocks[b].live && OnList(h.free, b);
      var j :| 0 <= j < |h.free| && h.free[j] == b;
      assert h'.free[if j < i then j else j - 1] == b;
    }
  }

  /** A region clear of all others, cut in two, keeps the tiling. */
  lemma GrowKeeps(h: Heap, r: nat, need: nat)
    requires Tiled(h) && Listed(h) && RegionOk(r) && HSIZE <= need && need + HSIZE <= REGION
    requires forall q {:trigger q in h.regions} :: q in h.regions ==> Apart(r, REGION, q, REGION)
    ensures Tiled(Grow(h, r, need)) && Listed(Grow(h, r, need)) && r !in h.blocks && r + need !in h.blocks
  {
    hide Complete, Listed;
    GrowApart(h, r, need);
    GrowComplete(h, r, need);
    GrowListed(h, r, need);
  }

  /** It does so if and only if the rest of the region has room for a header. */
  lemma GrowTilesIff(h: Heap, r: nat, need: nat)
    requires Tiled(h) && Listed(h) && RegionOk(r) && HSIZE <= need <= REGION
    requires forall q {:trigger q in h.regions} :: q in h.regions ==> Apart(r, REGION, q, REGION)
    ensures Tiled(Grow(h, r, need)) <==> need + HSIZE <= REGION
  {
    if need + HSIZE <= REGION {
      GrowKeeps(h, r, need);
    } else {
      hide Complete, BlocksApart, RegionsOk;
      var h' := Grow(h, r, need);
      assert h'.blocks[r + need].size == REGION - need;
    }
  }

  lemma GrowApart(h: Heap, r: nat, need: nat)
    requires BlocksOk(h) && BlocksApart(h) && HSIZE <= need && need + HSIZE <= REGION
    requires forall q {:trigger q in h.regions} :: q in h.regions ==> Apart(r, REGION, q, REGION)
    ensures BlocksOk(Grow(h, r, need)) && BlocksApart(Grow(h, r, need)) && r !in h.blocks && r + need !in h.blocks
  {
    var h' := Grow(h, r, need);
    forall b | b in h.blocks ensures BlockOk(h, b) && Apart(b, h.blocks[b].size, r, REGION) && b != r && b != r + need {
      assert BlockOk(h, b) && Apart(r, REGION, h.blocks[b].region, REGION);
    }
    forall b | b in h'.blocks ensures BlockOk(h', b) {
      if b in h.blocks { assert BlockOk(h, b); }
    }
    forall b, c | b in h'.blocks && c in h'.blocks && b != c ensures Apart(b, h'.blocks[b].size, c, h'.blocks[c].size) {
      if b in h.blocks && c in h.blocks {
        assert Apart(b, h.blocks[b].size, c, h.blocks[c].size);
      } else if b in h.blocks {
        assert Apart(b, h.blocks[b].size, r, REGION);
      } else if c in h.blocks {
        assert Apart(c, h.blocks[c].size, r, REGION);
      }
    }
  }

  lemma GrowComplete(h: Heap, r: nat, need: nat)
    requires Complete(h) && r !in h.blocks && r + need !in h.blocks && 0 < need <= REGION
    ensures Complete(Grow(h, r, need))
  {
    var h' := Grow(h, r, need);
    forall x: nat | InRegion(h', x) ensures Covered(h', x) {
      if r <= x < r + REGION {
        var c := if x < r + need then r else r + need;
        assert c in h'.blocks && c <= x < c + h'.blocks[c].size;
      } else {
        var q :| q in h'.regions && q <= x < q + REGION;
        assert q in h.regions;
        assert InRegion(h, x) && Covered(h, x);
        var b :| b in h.blocks && b <= x < b + h.blocks[b].size;
        assert b in h'.blocks && h'.blocks[b] == h.blocks[b];
      }
    }
  }

  lemma GrowListed(h: Heap, r: nat, need: nat)
    requires Listed(h) && r !in h.blocks && r + need !in h.blocks && 0 < need <= REGION
    ensures Listed(Grow(h, r, need))
  {
    var h' := Grow(h, r, need);
    forall b | b in h'.blocks && !h'.blocks[b].live ensures OnList(h'.free, b) {
      if b == r + need {
        assert h'.free[|h.free|] == b;
      } else {
        assert b in h.blocks && !h.blocks[b].live && OnList(h.free, b);
        var j :| 0 <= j < |h.free| && h.free[j] == b;
        assert h'.free[j] == b;
      }
    }
  }

  // ---------------------------------------------------------------- requests

  /** The request with its header, in 32 bits. */
  function Total(size: nat): nat {
    (size + HSIZE) % 0x1_0000_0000
  }

  predicate Accepted(need: nat) {
    8 <= need <= REGION
  }

  /** The sum does not wrap to an accepted total. */
  predicate NoWrap(size: nat) {
    size < 0xFFFF_FFF7
  }

  /** An accepted request gets room for its header and all of its bytes exactly when the sum did
      not wrap. */
  lemma TotalExactIff(size: nat)
    requires size < 0x1_0000_0000 && Accepted(Total(size))
    ensures Total(size) == size + HSIZE <==> NoWrap(size)
  {
  }

  /** A request of 0xFFFFFFF7 bytes passes the check with a total of 8, less than a header. */
  lemma WrappedRequest()
    ensures Accepted(Total(0xFFFF_FFF7)) && Total(0xFFFF_FFF7) == 8 < HSIZE
  {
  }

  /** Where on the list the first block of at least `need` bytes is, or its length. */
  function FitIndex(h: Heap, need: nat, from: nat): (i: nat)
    requires ListedFree(h) && from <= |h.free|
    ensures from <= i <= |h.free| && (i < |h.free| ==> h.blocks[h.free[i]].size >= need)
    ensures forall j {:trigger h.free[j]} :: from <= j < i ==> h.blocks[h.free[j]].size < need
    decreases |h.free| - from
  {
    if from == |h.free| || h.blocks[h.free[from]].size >= need then from else FitIndex(h, need, from + 1)
  }

  /** The heap and the pages in use. */
  datatype State = State(heap: Heap, used: set<nat>)

  /** Cut the block when more than a header would be left over, then hand it out. */
  function Carve(h: Heap, i: nat, need: nat): Heap
    requires ListedFree(h) && i < |h.free| && h.blocks[h.free[i]].size >= need
  {
    Take(if h.blocks[h.free[i]].size > need + HSIZE then Split(h, i, need) else h, i)
  }

  /** kmalloc: the new state and the pointer, zero for failure. */
  function Step(k: State, nbits: int, size: nat): (State, nat)
    requires ListedFree(k.heap)
  {
    var need := Total(size);
    var i := FitIndex(k.heap, need, 0);
    var r := FirstFit(k.used, nbits, 8, 0);
    if !Accepted(need) then (k, 0)
    else if i < |k.heap.free| then (State(Carve(k.heap, i, need), k.used), k.heap.free[i] + HSIZE)
    else if r <= 0 then (k, 0)
    else (State(Grow(k.heap, r * 4096, need), k.used + Run(r, 8)), r * 4096 + HSIZE)
  }

  /** What the code asks of its caller: no wrapped total, and when a new region is made, a free
      list that is not empty and room for the header of what is left of the region. */
  predicate Fine(k: State, nbits: int, size: nat)
    requires ListedFree(k.heap)
  {
    var need := Total(size);
    && size < 0x1_0000_0000 && NoWrap(size)
    && (Accepted(need) && FitIndex(k.heap, need, 0) == |k.heap.free| && FirstFit(k.used, nbits, 8, 0) > 0 ==>
          k.heap.free != [] && need + HSIZE <= REGION)
  }

  predicate PagesUsed(used: set<nat>, r: nat) {
    forall p :: r / 4096 <= p < r / 4096 + 8 ==> p in used
  }

  ghost predicate RegionsUsed(k: State) {
    forall r {:trigger r in k.heap.regions} :: r in k.heap.regions ==> PagesUsed(k.used, r)
  }

  ghost predicate Inv(k: State) {
    Tiled(k.heap) && Listed(k.heap) && RegionsUsed(k) && 0 in k.used
  }

  /** mem_init: one region, all of it free. */
  function Fresh(r: nat): Heap {
    Heap({r}, map[r := Block(REGION, r, false)], [r])
  }

  lemma FreshInv(r: nat, used: set<nat>)
    requires RegionOk(r) && PagesUsed(used, r) && 0 in used
    ensures Inv(State(Fresh(r), used))
  {
    var h := Fresh(r);
    assert h.free[0] == r;
    forall x: nat | InRegion(h, x) ensures Covered(h, x) {
      assert r in h.blocks && r <= x < r + h.blocks[r].size;
    }
  }

  lemma CarveKeeps(h: Heap, i: nat, need: nat)
    requires Tiled(h) && Listed(h) && i < |h.free| && h.blocks[h.free[i]].size >= need && HSIZE <= need
    ensures Tiled(Carve(h, i, need)) && Listed(Carve(h, i, need))
    ensures Carve(h, i, need).regions == h.regions
  {
    if h.blocks[h.free[i]].size > need + HSIZE {
      SplitTiles(h, i, need);
      SplitListed(h, i, need);
      hide Tiled, Listed;
      var h1 := Split(h, i, need);
      assert h1.free[i] == h.free[i];
      TakeKeeps(h1, i);
    } else {
      hide Tiled, Listed;
      TakeKeeps(h, i);
    }
  }

  lemma NewRegion(k: State, nbits: int, r: nat)
    requires RegionsUsed(k) && RegionsOk(k.heap) && FirstFit(k.used, nbits, 8, 0) == r && r > 0 && nbits <= PAGES
    ensures RegionOk(r * 4096) && PagesUsed(k.used + Run(r, 8), r * 4096)
    ensures forall q {:trigger q in k.heap.regions} :: q in k.heap.regions ==> Apart(r * 4096, REGION, q, REGION)
  {
    assert FreeRun(k.used, r, 8);
    forall q | q in k.heap.regions ensures Apart(r * 4096, REGION, q, REGION) {
      assert PagesUsed(k.used, q) && RegionOk(q);
      assert r !in k.used && q / 4096 in k.used;
    }
  }

  /** Every request keeps the partition of the regions and the free list exact. */
  lemma StepKeeps(k: State, nbits: int, size: nat)
    requires Inv(k) && Fine(k, nbits, size) && nbits <= PAGES
    ensures Inv(Step(k, nbits, size).0)
  {
    var need, i := Total(size), FitIndex(k.heap, Total(size), 0);
    var r := FirstFit(k.used, nbits, 8, 0);
    hide Tiled, RegionsUsed;
    if Accepted(need) && i < |k.heap.free| {
      CarveKeeps(k.heap, i, need);
      UsedStays(k, Carve(k.heap, i, need), k.used);
    } else if Accepted(need) && r > 0 {
      RegionsPart(k);
      NewRegion(k, nbits, r);
      GrowKeeps(k.heap, r * 4096, need);
      UsedGrows(k, r, need);
    }
  }

  lemma RegionsPart(k: State)
    requires Tiled(k.heap)
    ensures RegionsOk(k.heap)
  {
  }

  lemma UsedStays(k: State, h: Heap, used: set<nat>)
    requires RegionsUsed(k) && h.regions == k.heap.regions && k.used <= used
    ensures RegionsUsed(State(h, used))
  {
    forall q | q in h.regions ensures PagesUsed(used, q) { assert PagesUsed(k.used, q); }
  }

  lemma UsedGrows(k: State, r: nat, need: nat)
    requires RegionsUsed(k) && PagesUsed(k.used + Run(r, 8), r * 4096) && need <= REGION
    ensures RegionsUsed(State(Grow(k.heap, r * 4096, need), k.used + Run(r, 8)))
  {
    forall q | q in k.heap.regions ensures PagesUsed(k.used + Run(r, 8), q) { assert PagesUsed(k.used, q); }
  }

  // ---------------------------------------------------------------- requests that are not fine

  /** The request makes a new region. */
  predicate Grows(k: State, nbits: int, size: nat)
    requires ListedFree(k.heap)
  {
    Accepted(Total(size)) && FitIndex(k.heap, Total(size), 0) == |k.heap.free| && FirstFit(k.used, nbits, 8, 0) > 0
  }

  /** A new region as the code leaves it: with an empty list, the rest is put behind no block. */
  function Extended(h: Heap, r: nat, need: nat): Heap
    requires need <= REGION
  {
    if h.free == [] then Grow(h, r, need).(free := []) else Grow(h, r, need)
  }

  lemma ExtendedIs(h: Heap, r: nat, need: nat)
    requires need <= REGION
    ensures Extended(h, r, need) == if h.free == [] then Grow(h, r, need).(free := []) else Grow(h, r, need)
  {
  }

  lemma AnyList(h: Heap, free: seq<nat>)
    requires Tiled(h)
    ensures Tiled(h.(free := free))
  {
    var h' := h.(free := free);
    forall a | a in h'.blocks ensures BlockOk(h', a) { assert BlockOk(h, a); }
    forall x: nat | InRegion(h', x) ensures Covered(h', x) {
      assert InRegion(h, x) && Covered(h, x);
      var b :| b in h.blocks && b <= x < b + h.blocks[b].size;
      assert b in h'.blocks;
    }
  }

  lemma LooseRest(h: Heap, r: nat, need: nat)
    requires need <= REGION && Tiled(Grow(h, r, need))
    ensures var h' := Grow(h, r, need).(free := []);
      Tiled(h') && r + need in h'.blocks && !h'.blocks[r + need].live && !Listed(h')
  {
    AnyList(Grow(h, r, need), []);
    hide Tiled;
    var h' := Grow(h, r, need).(free := []);
    assert !OnList(h'.free, r + need);
    assert r + need in h'.blocks && !h'.blocks[r + need].live;
  }

  /** A request that makes a region leaves the regions partitioned and exactly the free blocks on
      the list if and only if it is fine. */
  lemma GrowthKeepsIff(k: State, nbits: int, size: nat)
    requires Inv(k) && nbits <= PAGES && size < 0x1_0000_0000 && NoWrap(size) && Grows(k, nbits, size)
    ensures var h' := Extended(k.heap, FirstFit(k.used, nbits, 8, 0) * 4096, Total(size));
      Fine(k, nbits, size) <==> Tiled(h') && Listed(h')
  {
    hide Tiled, Listed, RegionsUsed, FitIndex, Grow;
    var r, need := FirstFit(k.used, nbits, 8, 0), Total(size);
    RegionsPart(k);
    NewRegion(k, nbits, r);
    GrowTilesIff(k.heap, r * 4096, need);
    if need + HSIZE <= REGION {
      GrowKeeps(k.heap, r * 4096, need);
      if k.heap.free == [] { LooseRest(k.heap, r * 4096, need); }
    } else {
      var h' := Extended(k.heap, r * 4096, need);
      if Tiled(h') { AnyList(h', Grow(k.heap, r * 4096, need).free); }
    }
  }

  /** Right after mem_init a request of 32751 bytes takes the whole region and empties the list,
      so that every further request that is not refused makes a region with no list to put
      its rest on. */
  lemma EmptyListRequest(r: nat, used: set<nat>, nbits: int, size: nat)
    requires size < 0x1_0000_0000 && Accepted(Total(size)) && FirstFit(used, nbits, 8, 0) > 0
    ensures var k := State(Fresh(r), used);
      && ListedFree(k.heap) && Fine(k, nbits, 32751)
      && var (k', p) := Step(k, nbits, 32751);
         p == r + HSIZE && k'.heap.free == [] && k'.used == used && Grows(k', nbits, size) && !Fine(k', nbits, size)
  {
    var k := State(Fresh(r), used);
    assert Total(32751) == REGION && k.heap.free[0] == r;
    assert FitIndex(k.heap, REGION, 0) == 0;
    var k' := Step(k, nbits, 32751).0;
    assert k'.heap == Take(k.heap, 0);
  }

  /** Right after mem_init a request of 100 bytes, then one of 32740: the second makes a region
      whose rest is smaller than a header, and writes a header that ends behind the region. */
  lemma NoRoomRequest(r: nat, used: set<nat>, nbits: int)
    requires FirstFit(used, nbits, 8, 0) > 0
    ensures var k := State(Fresh(r), used);
      && ListedFree(k.heap) && Fine(k, nbits, 100)
      && var (k', p) := Step(k, nbits, 100);
         && p != 0 && ListedFree(k'.heap) && k'.heap.free == [r + 117]
         && Grows(k', nbits, 32740) && Total(32740) + HSIZE > REGION && !Fine(k', nbits, 32740)
  {
    var k := State(Fresh(r), used);
    assert Total(100) == 117 && k.heap.free[0] == r;
    assert FitIndex(k.heap, 117, 0) == 0;
    var k' := Step(k, nbits, 100).0;
    CarveExact(k.heap, 0, 117);
    assert k'.heap == Carve(k.heap, 0, 117);
    hide Step, Carve, FirstFit;
    assert k'.heap.free == [r + 117];
    assert k'.heap.blocks[r + 117].size == REGION - 117;
    assert Total(32740) == 32757;
    assert FitIndex(k'.heap, 32757, 0) == 1;
  }

  // ---------------------------------------------------------------- what a caller gets

  /** The block at `a` is allocated and has `n` bytes after its header. */
  ghost predicate Holds(h: Heap, a: nat, n: nat) {
    a in h.blocks && h.blocks[a].live && n + HSIZE <= h.blocks[a].size
  }

  /** All that is allocated stays as it is. */
  ghost predicate LiveKept(h: Heap, h': Heap) {
    forall a {:trigger h'.blocks[a]} {:trigger h.blocks[a]} :: a in h.blocks && h.blocks[a].live ==>
        a in h'.blocks && h'.blocks[a] == h.blocks[a]
  }

  /** The block at `a` was not allocated. */
  ghost predicate NotLive(h: Heap, a: nat) {
    a in h.blocks ==> !h.blocks[a].live
  }

  lemma CarveGrants(h: Heap, i: nat, need: nat)
    requires Tiled(h) && Listed(h) && i < |h.free| && h.blocks[h.free[i]].size >= need && HSIZE <= need
    ensures var h' := Carve(h, i, need); Holds(h', h.free[i], need - HSIZE) && LiveKept(h, h') && NotLive(h, h.free[i])
  {
    var a := h.free[i];
    if h.blocks[a].size > need + HSIZE {
      NotABlock(h, i, need);
      hide Tiled;
      var h1 := Split(h, i, need);
      assert h1.free[i] == a;
    }
  }

  /** No block on the list is large enough and there are no eight free pages in a row. */
  ghost predicate NothingLeft(k: State, nbits: int, need: nat)
    requires ListedFree(k.heap)
  {
    FitIndex(k.heap, need, 0) == |k.heap.free| && FirstFit(k.used, nbits, 8, 0) == -1
  }

  /** A request that succeeds gets a block that was not allocated, with at least as many bytes
      after its header as asked for; whatever else is allocated stays. It fails exactly when the
      size is refused, or no block fits and there are no eight free pages in a row; nothing has
      changed then. */
  lemma StepGrants(k: State, nbits: int, size: nat)
    requires Inv(k) && Fine(k, nbits, size) && nbits <= PAGES
    ensures var (k', p) := Step(k, nbits, size);
      && LiveKept(k.heap, k'.heap)
      && (p != 0 ==> p >= HSIZE && Holds(k'.heap, p - HSIZE, size) && NotLive(k.heap, p - HSIZE))
      && (p == 0 ==> k' == k)
      && (p == 0 <==> !Accepted(size + HSIZE) || NothingLeft(k, nbits, size + HSIZE))
  {
    var need, i := Total(size), FitIndex(k.heap, Total(size), 0);
    var r := FirstFit(k.used, nbits, 8, 0);
    RunNotAtZero(k.used, nbits);
    TotalExact(size);
    hide Tiled, RegionsUsed, ListedFree, FreeListed, Distinct, LiveKept, Holds, NotLive, NoWrap, FitIndex, Carve, Grow;
    LiveKeptSelf(k.heap);
    if Accepted(need) && i < |k.heap.free| {
      CarveGrants(k.heap, i, need);
    } else if Accepted(need) && r > 0 {
      GrowGrants(k, nbits, r, need);
    }
  }

  lemma TotalExact(size: nat)
    requires size < 0x1_0000_0000 && NoWrap(size)
    ensures Accepted(Total(size)) <==> Accepted(size + HSIZE)
    ensures Accepted(Total(size)) ==> Total(size) == size + HSIZE
  {
  }

  lemma RunNotAtZero(used: set<nat>, nbits: int)
    requires 0 in used
    ensures FirstFit(used, nbits, 8, 0) != 0
  {
    assert 0 in used;
  }

  lemma LiveKeptSelf(h: Heap)
    ensures LiveKept(h, h)
  {
  }

  lemma GrowGrants(k: State, nbits: int, r: nat, need: nat)
    requires Tiled(k.heap) && Listed(k.heap) && RegionsUsed(k) && FirstFit(k.used, nbits, 8, 0) == r && r > 0
    requires nbits <= PAGES
    requires HSIZE <= need && need + HSIZE <= REGION
    ensures var h' := Grow(k.heap, r * 4096, need);
      Holds(h', r * 4096, need - HSIZE) && LiveKept(k.heap, h') && NotLive(k.heap, r * 4096)
  {
    RegionsPart(k);
    NewRegion(k, nbits, r);
    GrowKeeps(k.heap, r * 4096, need);
  }

  /** No block on the list before the `i`-th has `n` bytes. */
  ghost predicate AllSmaller(h: Heap, i: nat, n: nat) {
    forall j {:trigger h.free[j]} :: 0 <= j < i && j < |h.free| && h.free[j] in h.blocks ==>
      h.blocks[h.free[j]].size < n
  }

  lemma FitsAt(h: Heap, i: nat, n: nat)
    requires ListedFree(h) && i <= |h.free| && AllSmaller(h, i, n) && (i < |h.free| ==> h.blocks[h.free[i]].size >= n)
    ensures FitIndex(h, n, 0) == i
  {
    var r := FitIndex(h, n, 0);
  }

  /** A request that the `i`-th free block is the first to have room for, with the 17 bytes of a header:
      the block is cut when more than a second header would be left over, and the rest takes its
      place on the list; otherwise it is handed out whole. */
  lemma FromListExact(k: State, nbits: int, size: nat, i: nat)
    requires Inv(k) && Fine(k, nbits, size) && size + 17 <= 32768
    requires i < |k.heap.free| && AllSmaller(k.heap, i, size + 17)
    requires k.heap.free[i] in k.heap.blocks && k.heap.blocks[k.heap.free[i]].size >= size + 17
    ensures var a, h, (k', p) := k.heap.free[i], k.heap, Step(k, nbits, size);
      var b, need := h.blocks[a], size + 17;
      && p == a + 17 && k'.used == k.used
      && k'.heap == if b.size > size + 34 then
           Heap(h.regions,
                h.blocks[a := Block(need, b.region, true)][a + need := Block(b.size - need, b.region, false)],
                h.free[..i] + [a + need] + h.free[i + 1..])
         else
           Heap(h.regions, h.blocks[a := Block(b.size, b.region, true)], h.free[..i] + h.free[i + 1..])
  {
    hide *;
    ListedParts(k);
    StepFromList(k, nbits, size, i);
    CarveExact(k.heap, i, size + 17);
  }

  lemma ListedParts(k: State)
    requires Inv(k)
    ensures Tiled(k.heap) && Listed(k.heap) && ListedFree(k.heap) && RegionsUsed(k)
  {
  }

  lemma StepFromList(k: State, nbits: int, size: nat, i: nat)
    requires ListedFree(k.heap) && Fine(k, nbits, size) && size + 17 <= 32768
    requires i < |k.heap.free| && AllSmaller(k.heap, i, size + 17) && k.heap.blocks[k.heap.free[i]].size >= size + 17
    ensures Step(k, nbits, size) == (State(Carve(k.heap, i, size + 17), k.used), k.heap.free[i] + 17)
  {
    FitsAt(k.heap, i, size + 17);
    hide Carve, Grow, ListedFree, FirstFit;
  }

  lemma CarveExact(h: Heap, i: nat, need: nat)
    requires ListedFree(h) && i < |h.free| && h.blocks[h.free[i]].size >= need && need > 0
    ensures var a := h.free[i]; var b := h.blocks[a];
      Carve(h, i, need) == if b.size > need + 17 then
           Heap(h.regions,
                h.blocks[a := Block(need, b.region, true)][a + need := Block(b.size - need, b.region, false)],
                h.free[..i] + [a + need] + h.free[i + 1..])
         else
           Heap(h.regions, h.blocks[a := Block(b.size, b.region, true)], h.free[..i] + h.free[i + 1..])
  {
    var a := h.free[i];
    if h.blocks[a].size > need + HSIZE {
      var h1 := Split(h, i, need);
      assert h1.free == h.free[..i + 1] + [a + need] + h.free[i + 1..];
      assert h1.free[..i] == h.free[..i] && h1.free[i + 1..] == [a + need] + h.free[i + 1..];
    }
  }

  /** A request that no free block has room for takes eight pages in a row: 32768 bytes, of which the
      rest behind the block becomes the last free block. */
  lemma FromRegionExact(k: State, nbits: int, size: nat)
    requires Inv(k) && Fine(k, nbits, size) && size + 17 <= 32768
    requires AllSmaller(k.heap, |k.heap.free|, size + 17) && FirstFit(k.used, nbits, 8, 0) > 0
    ensures var h, a := k.heap, FirstFit(k.used, nbits, 8, 0) * 4096; var rest := a + size + 17;
      Step(k, nbits, size) ==
        (State(Heap(h.regions + {a},
                    h.blocks[a := Block(size + 17, a, true)][rest := Block(32768 - size - 17, a, false)],
                    h.free + [rest]),
               k.used + Run(a / 4096, 8)),
         a + 17)
  {
    hide Tiled, RegionsUsed;
    FitsAt(k.heap, |k.heap.free|, size + 17);
  }

  // ---------------------------------------------------------------- runs

  /** The states of a run of requests, each of them fine. */
  ghost predicate Trace(ks: seq<State>, nbits: int, sizes: seq<nat>) {
    && |ks| == |sizes| + 1
    && forall j {:trigger TraceStep(ks, nbits, sizes, j)} :: 0 <= j < |sizes| ==> TraceStep(ks, nbits, sizes, j)
  }

  ghost predicate TraceStep(ks: seq<State>, nbits: int, sizes: seq<nat>, j: nat)
    requires j < |sizes| && |ks| == |sizes| + 1
  {
    ListedFree(ks[j].heap) && Fine(ks[j], nbits, sizes[j]) && ks[j + 1] == Step(ks[j], nbits, sizes[j]).0
  }

  /** The pointer that request `j` got. */
  ghost function Pointer(ks: seq<State>, nbits: int, sizes: seq<nat>, j: nat): nat
    requires j < |sizes| && |ks| == |sizes| + 1 && TraceStep(ks, nbits, sizes, j)
  {
    Step(ks[j], nbits, sizes[j]).1
  }

  lemma {:induction false} TraceKeeps(ks: seq<State>, nbits: int, sizes: seq<nat>, j: nat)
    requires Trace(ks, nbits, sizes) && Inv(ks[0]) && nbits <= PAGES && j <= |sizes|
    ensures Inv(ks[j])
  {
    hide Inv, Step, Fine;
    if j > 0 {
      TraceKeeps(ks, nbits, sizes, j - 1);
      assert TraceStep(ks, nbits, sizes, j - 1);
      StepKeeps(ks[j - 1], nbits, sizes[j - 1]);
    }
  }

  lemma LiveKeptTransitive(h: Heap, h1: Heap, h2: Heap)
    requires LiveKept(h, h1) && LiveKept(h1, h2)
    ensures LiveKept(h, h2)
  {
    forall a | a in h.blocks && h.blocks[a].live ensures a in h2.blocks && h2.blocks[a] == h.blocks[a] {
      assert h1.blocks[a] == h.blocks[a];
    }
  }

  lemma {:induction false} LiveStays(ks: seq<State>, nbits: int, sizes: seq<nat>, j: nat, l: nat)
    requires Trace(ks, nbits, sizes) && Inv(ks[0]) && nbits <= PAGES && j <= l <= |sizes|
    ensures LiveKept(ks[j].heap, ks[l].heap)
    decreases l - j
  {
    if j < l {
      hide Inv, Step, Fine, LiveKept;
      LiveStays(ks, nbits, sizes, j, l - 1);
      TraceKeeps(ks, nbits, sizes, l - 1);
      assert TraceStep(ks, nbits, sizes, l - 1);
      StepGrants(ks[l - 1], nbits, sizes[l - 1]);
      LiveKeptTransitive(ks[j].heap, ks[l - 1].heap, ks[l].heap);
    }
  }

  /** Over any run, the blocks at the end partition every region and the free list is exact; no
      two payloads overlap, and each lies behind its header in the region it came from. */
  lemma RunGrantsApart(ks: seq<State>, nbits: int, sizes: seq<nat>, j: nat, l: nat)
    requires Trace(ks, nbits, sizes) && Inv(ks[0]) && nbits <= PAGES && j < l < |sizes|
    requires TraceStep(ks, nbits, sizes, j) && TraceStep(ks, nbits, sizes, l)
    ensures Inv(ks[|sizes|])
    ensures var p, q := Pointer(ks, nbits, sizes, j), Pointer(ks, nbits, sizes, l);
      p != 0 && q != 0 ==>
        && Apart(p, sizes[j], q, sizes[l]) && p != q
        && Inside(ks[|sizes|].heap, p, sizes[j]) && Inside(ks[|sizes|].heap, q, sizes[l])
  {
    hide Step, Fine, Tiled, Listed, RegionsUsed;
    TraceKeeps(ks, nbits, sizes, j);
    TraceKeeps(ks, nbits, sizes, l);
    TraceKeeps(ks, nbits, sizes, l + 1);
    TraceKeeps(ks, nbits, sizes, |sizes|);
    StepGrants(ks[j], nbits, sizes[j]);
    StepGrants(ks[l], nbits, sizes[l]);
    LiveStays(ks, nbits, sizes, j + 1, l);
    LiveStays(ks, nbits, sizes, l, l + 1);
    LiveStays(ks, nbits, sizes, l + 1, |sizes|);
    var p, q := Pointer(ks, nbits, sizes, j), Pointer(ks, nbits, sizes, l);
    if p != 0 && q != 0 {
      var a, b := p - HSIZE, q - HSIZE;
      assert ks[l].heap.blocks[a] == ks[j + 1].heap.blocks[a];
      assert a != b;
      HeldApart(ks[|sizes|].heap, a, sizes[j], b, sizes[l]);
    }
  }

  /** A payload lies behind a header in some region. */
  ghost predicate Inside(h: Heap, p: nat, n: nat) {
    exists r {:trigger r in h.regions} :: r in h.regions && r + HSIZE <= p && p + n <= r + REGION
  }

  lemma HeldApart(h: Heap, a: nat, n: nat, b: nat, k: nat)
    requires Tiled(h) && Holds(h, a, n) && Holds(h, b, k) && a != b
    ensures Apart(a + HSIZE, n, b + HSIZE, k) && Inside(h, a + HSIZE, n) && Inside(h, b + HSIZE, k)
  {
    assert Apart(a, h.blocks[a].size, b, h.blocks[b].size) && BlockOk(h, a) && BlockOk(h, b);
    assert h.blocks[a].region in h.regions && h.blocks[b].region in h.regions;
  }
}
