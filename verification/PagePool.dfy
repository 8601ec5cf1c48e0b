/** alloc_pages and free_pages, and what any sequence of them keeps. */
module PagePool {
  import opened Bitmap

  function Pages(count: int): nat {
    if count < 1 then 1 else count
  }

  /** The address alloc_pages answers with for a run that starts at `index`: zero means none. */
  function AddressOf(index: int): nat {
    if index > 0 then index * 4096 else 0
  }

  method AllocPages(bm: BitMap, count: int) returns (addr: nat)
    requires bm.Valid()
    modifies bm.base
    ensures var r := FirstFit(old(bm.Used()), bm.nbits, Pages(count), 0);
      && addr == AddressOf(r)
      && bm.Used() == old(bm.Used()) + if r == -1 then {} else Run(r, Pages(count))
    ensures bm.Used() == PoolStep(bm.nbits, Pool(old(bm.Used()), []), Take(count)).used
  {
    addr := 0;
    var index := bm.AllocBits(count);
    if index > 0 {
      addr := index * 4096;
    }
  }

  method FreePages(bm: BitMap, addr: nat, count: int)
    requires bm.base.Length == MAP_BYTES && addr / 4096 + Pages(count) <= PAGES
    modifies bm.base
    ensures bm.Used() == old(bm.Used()) - Run(addr / 4096, Pages(count))
  {
    bm.FreeBits(addr, count);
  }

  // ---------------------------------------------------------------- runs

  /** A run of pages handed out and not freed yet. */
  datatype Extent = Extent(start: nat, n: nat)

  datatype Pool = Pool(used: set<nat>, live: seq<Extent>)

  datatype PoolOp = Take(count: int) | Give(k: nat)

  predicate Owns(x: Extent, p: nat) {
    InRun(p, x.start, x.n)
  }

  /** alloc_pages, remembering what it handed out; free_pages of the k-th live extent. */
  function PoolStep(nbits: int, s: Pool, op: PoolOp): Pool
    requires op.Give? ==> op.k < |s.live|
  {
    match op
    case Take(count) =>
      var r := FirstFit(s.used, nbits, Pages(count), 0);
      if r == -1 then s
      else Pool(s.used + Run(r, Pages(count)),
                if r > 0 then s.live + [Extent(r, Pages(count))] else s.live)
    case Give(k) =>
      Pool(s.used - Run(s.live[k].start, s.live[k].n), s.live[..k] + s.live[k + 1..])
  }

  ghost predicate Held(live: seq<Extent>, p: nat) {
    exists i :: 0 <= i < |live| && Owns(live[i], p)
  }

  /** The set bits are exactly the reserved pages and the live extents, which are disjoint
      from each other and from the reserved pages and lie inside [1, nbits). */
  ghost predicate PoolInv(nbits: int, reserved: set<nat>, s: Pool) {
    && 0 in reserved
    && (forall p: nat :: p in s.used <==> p in reserved || Held(s.live, p))
    && (forall i, p: nat :: 0 <= i < |s.live| && Owns(s.live[i], p) ==> p !in reserved && 1 <= p < nbits)
    && (forall i, j, p: nat ::
          0 <= i < |s.live| && 0 <= j < |s.live| && Owns(s.live[i], p) && Owns(s.live[j], p) ==> i == j)
  }

  lemma TakeKeeps(nbits: int, reserved: set<nat>, s: Pool, count: int)
    requires PoolInv(nbits, reserved, s)
    ensures PoolInv(nbits, reserved, PoolStep(nbits, s, Take(count)))
    ensures FirstFit(s.used, nbits, Pages(count), 0) != 0
  {
    var n := Pages(count);
    var r := FirstFit(s.used, nbits, n, 0);
    var s' := PoolStep(nbits, s, Take(count));
    if r != -1 {
      assert r != 0 by { assert FreeRun(s.used, r, n); assert 0 in s.used; }
      var x := Extent(r, n);
      forall p: nat ensures p in s'.used <==> p in reserved || Held(s'.live, p) {
        if Owns(x, p) { assert s'.live[|s.live|] == x; }
        if Held(s.live, p) {
          var i :| 0 <= i < |s.live| && Owns(s.live[i], p);
          assert s'.live[i] == s.live[i];
        }
        if Held(s'.live, p) && !Owns(x, p) {
          var i :| 0 <= i < |s'.live| && Owns(s'.live[i], p);
          assert s'.live[i] == s.live[i];
        }
      }
      forall i, p: nat | 0 <= i < |s.live| && Owns(s.live[i], p) ensures !Owns(x, p) {
        assert Held(s.live, p);
      }
      forall p: nat | Owns(x, p) ensures p !in s.used && 1 <= p < nbits {}
    }
  }

  /** Dropping extent `k` leaves exactly the pages of the others held. */
  lemma HeldWithout(live: seq<Extent>, k: nat, p: nat)
    requires k < |live|
    requires forall i, j :: 0 <= i < |live| && 0 <= j < |live| && Owns(live[i], p) && Owns(live[j], p) ==> i == j
    ensures Held(live[..k] + live[k + 1..], p) <==> Held(live, p) && !Owns(live[k], p)
  {
    var live' := live[..k] + live[k + 1..];
    if Held(live', p) {
      var i :| 0 <= i < |live'| && Owns(live'[i], p);
      assert Owns(live[if i < k then i else i + 1], p);
    }
    if Held(live, p) && !Owns(live[k], p) {
      var i :| 0 <= i < |live| && Owns(live[i], p);
      assert live'[if i < k then i else i - 1] == live[i];
    }
  }

  lemma GiveKeeps(nbits: int, reserved: set<nat>, s: Pool, k: nat)
    requires PoolInv(nbits, reserved, s) && k < |s.live|
    ensures PoolInv(nbits, reserved, PoolStep(nbits, s, Give(k)))
  {
    var s' := PoolStep(nbits, s, Give(k));
    forall p: nat ensures p in s'.used <==> p in reserved || Held(s'.live, p) {
      HeldWithout(s.live, k, p);
      if Owns(s.live[k], p) { assert p !in reserved && Held(s.live, p); }
    }
    forall i | 0 <= i < |s'.live| ensures s'.live[i] == s.live[if i < k then i else i + 1] {}
  }

  ghost predicate PoolPossible(nbits: int, s: Pool, ops: seq<PoolOp>)
    decreases ops
  {
    ops == [] || ((ops[0].Give? ==> ops[0].k < |s.live|) && PoolPossible(nbits, PoolStep(nbits, s, ops[0]), ops[1..]))
  }

  function PoolRun(nbits: int, s: Pool, ops: seq<PoolOp>): Pool
    requires PoolPossible(nbits, s, ops)
    decreases ops
  {
    if ops == [] then s else PoolRun(nbits, PoolStep(nbits, s, ops[0]), ops[1..])
  }

  /** Every run of allocations and matching frees keeps the accounting exact. */
  lemma {:induction false} PoolRunKeeps(nbits: int, reserved: set<nat>, s: Pool, ops: seq<PoolOp>)
    requires PoolInv(nbits, reserved, s) && PoolPossible(nbits, s, ops)
    ensures PoolInv(nbits, reserved, PoolRun(nbits, s, ops))
    ensures PoolRun(nbits, s, ops).live == [] ==> PoolRun(nbits, s, ops).used == reserved
    decreases ops
  {
    if ops == [] {
      if s.live == [] {
        forall p: nat ensures p in s.used <==> p in reserved {}
      }
    } else {
      match ops[0] {
        case Take(count) => TakeKeeps(nbits, reserved, s, count);
        case Give(k) => GiveKeeps(nbits, reserved, s, k);
      }
      PoolRunKeeps(nbits, reserved, PoolStep(nbits, s, ops[0]), ops[1..]);
    }
  }

  /** Freeing an extent right after allocating it restores the pool. */
  lemma TakeGiveRestores(nbits: int, s: Pool, count: int)
    requires FirstFit(s.used, nbits, Pages(count), 0) > 0
    ensures |PoolStep(nbits, s, Take(count)).live| == |s.live| + 1
    ensures PoolStep(nbits, PoolStep(nbits, s, Take(count)), Give(|s.live|)) == s
  {
    var r := FirstFit(s.used, nbits, Pages(count), 0);
    assert FreeRun(s.used, r, Pages(count));
    assert s.used + Run(r, Pages(count)) - Run(r, Pages(count)) == s.used;
    var s1 := PoolStep(nbits, s, Take(count));
    assert s1.live[..|s.live|] + s1.live[|s.live| + 1..] == s.live;
  }
}
