/** Counting the frames an address space has gained against those that were free. */
module Frames {
  import opened Bitmap
  import opened Paging
  import opened Spaces

  /** The frame alloc_pages(1) would hand out next, or -1. */
  function NextFrame(used: set<nat>, nbits: int): int {
    FirstFit(used, nbits, 1, 0)
  }

  lemma NextFrameIsFree(used: set<nat>, nbits: int)
    requires 0 in used
    ensures var r := NextFrame(used, nbits);
      && r != 0 && Run(if r < 0 then 0 else r, 1) == {if r < 0 then 0 else r}
      && (r == -1 || (1 <= r < nbits && r !in used))
      && (r == -1 <==> forall p: nat :: p < nbits ==> p in used)
  {
    var r := NextFrame(used, nbits);
    if r != -1 { assert FreeRun(used, r, 1); }
    forall p: nat | p < nbits && p !in used ensures r != -1 { assert FreeRun(used, p, 1); }
  }

  ghost function FreeFrames(used: set<nat>, nbits: int): set<nat> {
    set p: nat | p < nbits && p !in used
  }

  /** No page below `nbits` is free. */
  ghost predicate Exhausted(used: set<nat>, nbits: int) {
    forall p: nat :: p < nbits ==> p in used
  }

  /** Every page in use now and not before lies below `nbits`. */
  ghost predicate FromPool(used: set<nat>, used': set<nat>, nbits: int) {
    forall p {:trigger p in used'} :: p in used' && p !in used ==> p < nbits
  }

  lemma FromPoolOne(used: set<nat>, used1: set<nat>, used2: set<nat>, f: nat, nbits: int)
    requires FromPool(used, used1, nbits) && used2 == used1 + {f} && f < nbits
    ensures FromPool(used, used2, nbits)
  {
  }

  lemma {:induction false} ValuesCount(m: map<nat, nat>)
    requires forall i, j :: i in m && j in m && m[i] == m[j] ==> i == j
    ensures |m.Values| == |m|
  {
    if m == map[] {
      assert m.Values == {};
    } else {
      var k :| k in m;
      var r := m - {k};
      ValuesCount(r);
      assert |r| == |m| - 1 by {
        assert r.Keys == m.Keys - {k};
        assert |r| == |r.Keys| && |m| == |m.Keys|;
      }
      assert m.Values == r.Values + {m[k]} by {
        forall x | x in m.Values ensures x in r.Values + {m[k]} {
          var i :| i in m && m[i] == x;
          if i != k { assert r[i] == x; }
        }
      }
      assert m[k] !in r.Values;
    }
  }

  /** A space whose frames are all different owns one frame per table and per page, and its
      directory. */
  lemma OwnedCount(sp: Space)
    requires Separate(sp)
    ensures |Owned(sp)| == 1 + |sp.tables| + |sp.pages|
  {
    ValuesCount(sp.tables);
    ValuesCount(sp.pages);
    assert {sp.dir} !! sp.tables.Values;
    assert ({sp.dir} + sp.tables.Values) !! sp.pages.Values;
  }

  lemma SubsetCount(a: set<nat>, b: set<nat>)
    requires a <= b
    ensures |b - a| == |b| - |a| && |a| <= |b|
  {
    assert b == a + (b - a);
  }

  /** The frames gained were free, and when no free frame is left they are all that were. */
  lemma GainedCount(used: set<nat>, a: set<nat>, used': set<nat>, b: set<nat>, nbits: int)
    requires a <= b && used' == used + b && b * used == a && FromPool(used, used', nbits)
    ensures |b| - |a| <= |FreeFrames(used, nbits)|
    ensures Exhausted(used', nbits) ==> |b| - |a| == |FreeFrames(used, nbits)|
  {
    SubsetCount(a, b);
    forall p | p in b - a ensures p in FreeFrames(used, nbits) {
      assert p in used' && p !in used;
    }
    SubsetCount(b - a, FreeFrames(used, nbits));
    if Exhausted(used', nbits) {
      forall p | p in FreeFrames(used, nbits) ensures p in b - a { assert p in used'; }
      assert FreeFrames(used, nbits) == b - a;
    }
  }

  /** Taking one free frame leaves one less. */
  lemma TakeOne(used: set<nat>, nbits: int, f: nat)
    requires f < nbits && f !in used
    ensures |FreeFrames(used + {f}, nbits)| == |FreeFrames(used, nbits)| - 1
  {
    assert f in FreeFrames(used, nbits);
    assert FreeFrames(used + {f}, nbits) == FreeFrames(used, nbits) - {f};
  }

  /** There is a next frame exactly when some frame is free. */
  lemma NextFrameExists(used: set<nat>, nbits: int)
    requires 0 in used
    ensures NextFrame(used, nbits) == -1 <==> |FreeFrames(used, nbits)| == 0
  {
    NextFrameIsFree(used, nbits);
    var r := NextFrame(used, nbits);
    if r == -1 {
      assert FreeFrames(used, nbits) == {};
    } else {
      assert r in FreeFrames(used, nbits);
    }
  }

  /** The pages in use after `n` calls of alloc_pages(1). */
  ghost function Taken(used: set<nat>, nbits: int, n: nat): set<nat> {
    if n == 0 then used
    else
      var u := Taken(used, nbits, n - 1);
      var f := NextFrame(u, nbits);
      if f < 0 then u else u + {f}
  }

  lemma {:induction false} TakenFirst(used: set<nat>, nbits: int, n: nat)
    requires 0 in used && NextFrame(used, nbits) != -1
    ensures Taken(used, nbits, n + 1) == Taken(used + {NextFrame(used, nbits)}, nbits, n)
  {
    NextFrameIsFree(used, nbits);
    hide NextFrame;
    if n > 0 { TakenFirst(used, nbits, n - 1); }
  }
}
