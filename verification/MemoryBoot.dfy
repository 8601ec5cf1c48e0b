/** What bitmap_init leaves behind is what the page allocator and the address spaces start from. */
module MemoryBoot {
  import opened PhysMem
  import opened Bitmap
  import opened BitmapInit
  import opened Paging
  import opened AddressSpace
  import opened PagePool
  import opened Frames

  /** bitmap_init on a machine that has just been switched on: page zero and the kernel's page
      directory are marked used, and the pool holds exactly the reserved pages. */
  method BootMemory(mc: Machine, layout: seq<Layout>, ghost stop: nat)
    requires mc.ram.Length == RAM_SIZE && mc.bits.base.Length == MAP_BYTES && mc.ram as object != mc.bits.base as object
    requires Scanned(layout, stop) && forall i :: 0 <= i < stop && Counts(layout[i]) ==> FitsMap(layout[i])
    modifies mc.bits, mc.bits.base
    ensures mc.Valid() && mc.Now().m == old(mc.Now()).m && mc.bits.nbits == BitCount(TotalSize(layout[..stop]))
    ensures PoolInv(mc.bits.nbits, mc.bits.Used(), Pool(mc.bits.Used(), []))
    ensures forall p: nat :: p < PAGES ==> (p in mc.bits.Used() <==> !ClearedBy(layout, stop, p))
  {
    Init(mc.bits, layout, stop);
    KernelReserved(layout, stop, 0);
    KernelReserved(layout, stop, KERNEL_DIR);
  }

  lemma {:induction false} TakenBelow(used: set<nat>, nbits: int, n: nat)
    requires 0 in used
    ensures 0 in Taken(used, nbits, n) && forall p :: p in Taken(used, nbits, n) ==> p in used || p < nbits
  {
    if n > 0 {
      TakenBelow(used, nbits, n - 1);
      NextFrameIsFree(Taken(used, nbits, n - 1), nbits);
    }
  }

  lemma {:induction false} TakenInTurn(used: set<nat>, nbits: int, p: nat)
    requires 0 in used && p !in used && p < nbits
    ensures p in Taken(used, nbits, |FreeFrames(used, p + 1)|)
    decreases |FreeFrames(used, p + 1)|
  {
    var f := NextFrame(used, nbits);
    NextFrameIsFree(used, nbits);
    NextIsLeast(used, nbits, p);
    TakeOne(used, p + 1, f);
    var n := |FreeFrames(used, p + 1)|;
    TakenFirst(used, nbits, n - 1);
    if f == p {
      TakenKeeps(used + {f}, nbits, n - 1, p);
    } else {
      TakenInTurn(used + {f}, nbits, p);
    }
  }

  lemma NextIsLeast(used: set<nat>, nbits: int, p: nat)
    requires 0 in used && p !in used && p < nbits
    ensures 1 <= NextFrame(used, nbits) <= p
  {
    NextFrameIsFree(used, nbits);
    assert FreeRun(used, p, 1);
  }

  lemma {:induction false} TakenKeeps(used: set<nat>, nbits: int, n: nat, p: nat)
    requires p in used
    ensures p in Taken(used, nbits, n)
  {
    if n > 0 { TakenKeeps(used, nbits, n - 1, p); }
  }

  /** Some number of calls of alloc_pages(1) hand out a free page if and only if it lies below the
      map's length. */
  lemma HandedOutIff(used: set<nat>, nbits: int, p: nat)
    requires 0 in used && p !in used
    ensures (exists n: nat :: p in Taken(used, nbits, n)) <==> p < nbits
  {
    if p < nbits { TakenInTurn(used, nbits, p); }
    if n: nat :| p in Taken(used, nbits, n) { TakenBelow(used, nbits, n); }
  }
}
