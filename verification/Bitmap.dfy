/** The physical page bitmap of source/mm/bitmap.c: one bit per page, eight to a byte. */
module Bitmap {

  const MAP_BYTES: nat := 128 * 1024      // one bit for every page of 4 GiB
  const PAGES: nat := 8 * MAP_BYTES

  /** bitmap_get_bit on the bytes of the map. */
  predicate BitAt(bytes: seq<bv8>, i: nat)
    requires i < 8 * |bytes|
  {
    bytes[i / 8] & (1 << (i % 8)) != 0
  }

  /** A byte after `|= 1 << k` or `&= ~(1 << k)`. */
  function PutBit(b: bv8, k: nat, bit: bool): bv8
    requires k < 8
  {
    if bit then b | (1 << k) else b & !(1 << k)
  }

  lemma PutBitExact(b: bv8, k: nat, bit: bool, j: nat)
    requires k < 8 && j < 8
    ensures (PutBit(b, k, bit) & (1 << j) != 0) == if j == k then bit else b & (1 << j) != 0
  {
  }

  /** Storing one byte with one bit changed changes that bit of the map only. */
  lemma StoreBit(bytes: seq<bv8>, bytes': seq<bv8>, index: nat, bit: bool)
    requires |bytes'| == |bytes| && index < 8 * |bytes|
    requires bytes' == bytes[index / 8 := PutBit(bytes[index / 8], index % 8, bit)]
    ensures forall i: nat :: i < 8 * |bytes| ==> BitAt(bytes', i) == if i == index then bit else BitAt(bytes, i)
  {
    hide PutBit;
    forall i: nat | i < 8 * |bytes|
      ensures BitAt(bytes', i) == if i == index then bit else BitAt(bytes, i)
    {
      if i / 8 == index / 8 {
        PutBitExact(bytes[index / 8], index % 8, bit, i % 8);
      }
    }
  }

  lemma WholeByte(b: bv8, j: nat)
    requires j < 8
    ensures (0xff as bv8) & (1 << j) != 0 && (0x00 as bv8) & (1 << j) == 0
  {
  }

  predicate InRun(i: int, from: int, n: int) {
    from <= i < from + n
  }

  /** The pages [from, from + n). */
  function Run(from: nat, n: nat): set<nat> {
    set i: nat | i < from + n && InRun(i, from, n)
  }

  /** Pages [from, from + n) are all free. */
  predicate FreeRun(used: set<nat>, from: nat, n: nat) {
    forall i :: from <= i < from + n ==> i !in used
  }

  /** Where the least run of `n` free pages below `nbits` at or above `from` starts, else -1. */
  function FirstFit(used: set<nat>, nbits: int, n: nat, from: nat): (r: int)
    requires n > 0
    ensures r == -1 || (from <= r && r + n <= nbits && FreeRun(used, r, n))
    ensures forall b: nat :: from <= b && b + n <= nbits && (r == -1 || b < r) ==> !FreeRun(used, b, n)
    decreases nbits - from
  {
    if from + n > nbits then -1
    else if FreeRun(used, from, n) then from
    else FirstFit(used, nbits, n, from + 1)
  }

  lemma FirstFitUnique(used: set<nat>, nbits: int, n: nat, r: int)
    requires n > 0
    requires r == -1 || (0 <= r && r + n <= nbits && FreeRun(used, r, n))
    requires forall b: nat :: b + n <= nbits && (r == -1 || b < r) ==> !FreeRun(used, b, n)
    ensures r == FirstFit(used, nbits, n, 0)
  {
  }

  class BitMap {
    var nbits: int
    const base: array<bv8>

    /** The map memory, with whatever it held before bitmap_init. */
    constructor ()
      ensures base.Length == MAP_BYTES && nbits == 0 && fresh(base)
    {
      nbits := 0;
      base := new bv8[MAP_BYTES];
    }

    predicate Valid()
      reads this
    {
      base.Length == MAP_BYTES && nbits < PAGES
    }

    /** The pages marked used. */
    ghost function Used(): set<nat>
      reads base
    {
      set i: nat | i < 8 * base.Length && BitAt(base[..], i)
    }

    /** kmemset over part of the map: a count that is not positive writes nothing. */
    method SetBytes(sbytes: nat, nbytes: int, used: bool)
      requires nbytes <= 0 || sbytes + nbytes <= base.Length
      modifies base
      ensures forall i: nat :: i < 8 * base.Length ==>
        BitAt(base[..], i) == if sbytes <= i / 8 < sbytes + nbytes then used else old(BitAt(base[..], i))
    {
      var value: bv8 := if used then 0xff else 0x00;
      var k := 0;
      while k < nbytes
        invariant 0 <= k && (nbytes > 0 ==> k <= nbytes) && (nbytes <= 0 ==> k == 0)
        invariant forall j :: 0 <= j < base.Length ==>
          base[j] == if sbytes <= j < sbytes + k then value else old(base[j])
      {
        base[sbytes + k] := value;
        k := k + 1;
      }
      forall i: nat | i < 8 * base.Length
        ensures BitAt(base[..], i) == if sbytes <= i / 8 < sbytes + nbytes then used else old(BitAt(base[..], i))
      {
        WholeByte(value, i % 8);
      }
    }

    /** Write `count` consecutive bits, upwards from `index` or downwards from below it. The
        loop tests after the first bit, so a count below one writes one bit. */
    method SetBits(index: nat, bit: bool, count: int, up: bool)
      requires var n := if count < 1 then 1 else count;
        if up then index + n <= 8 * base.Length else n <= index <= 8 * base.Length
      modifies base
      ensures var n := if count < 1 then 1 else count;
        var lo := if up then index else index - n;
        forall i: nat :: i < 8 * base.Length ==>
          BitAt(base[..], i) == if lo <= i < lo + n then bit else old(BitAt(base[..], i))
    {
      var move := if up then 0 else -1;
      var left := count;
      ghost var n, done := if count < 1 then 1 else count, 0;
      while true
        invariant 0 <= done < n && left == count - done
        invariant move == if up then done else -1 - done
        invariant forall i: nat :: i < 8 * base.Length ==>
          BitAt(base[..], i) ==
            if (if up then index <= i < index
                + done else index - done <= i < index) then bit else old(BitAt(base[..], i))
        decreases n - done
      {
        label before:
        var at := index + move;
        base[at / 8] := PutBit(base[at / 8], at % 8, bit);
        StoreBit(old@before(base[..]), base[..], at, bit);
        move := if up then move + 1 else move - 1;
        left := left - 1;
        done := done + 1;
        if !(left > 0) {
          break;
        }
      }
    }

    method GetBit(index: nat) returns (bit: bool)
      requires index < 8 * base.Length
      ensures bit == BitAt(base[..], index)
    {
      bit := base[index / 8] & (1 << (index % 8)) != 0;
    }

    /** First fit: the least run of `count` free pages is marked used and its start returned;
        -1, and no change, when there is none. A count below one asks for one page. */
    method AllocBits(count: int) returns (r: int)
      requires Valid()
      modifies base
      ensures var n := if count < 1 then 1 else count;
        && r == FirstFit(old(Used()), nbits, n, 0)
        && Used() == old(Used()) + if r == -1 then {} else Run(r, n)
    {
      ghost var n := if count < 1 then 1 else count;
      var cur, begin := 0, 0;
      while cur < nbits
        invariant 0 <= begin <= cur && (nbits >= 0 ==> cur <= nbits) && (nbits < 0 ==> cur == 0)
        invariant cur - begin < n
        invariant FreeRun(Used(), begin, cur - begin)
        invariant forall b: nat :: b < begin && b + n <= nbits ==> !FreeRun(Used(), b, n)
        invariant base[..] == old(base[..])
      {
        var bit := GetBit(cur);
        cur := cur + 1;
        if bit {
          assert cur - 1 in Used();
          begin := cur;
          continue;
        }
        assert cur - 1 !in Used();

        if cur - begin >= count {
          FirstFitUnique(Used(), nbits, n, begin);
          SetBits(begin, true, count, true);
          return begin;
        }
      }
      FirstFitUnique(Used(), nbits, n, -1);
      return -1;
    }

    /** Clear the bits of `count` pages from the one `addr` is in. */
    method FreeBits(addr: nat, count: int)
      requires base.Length == MAP_BYTES && addr / 4096 + (if count < 1 then 1 else count) <= PAGES
      modifies base
      ensures var n := if count < 1 then 1 else count;
        Used() == old(Used()) - Run(addr / 4096, n)
    {
      var index := addr / 4096;
      SetBits(index, false, count, true);
    }
  }
}
