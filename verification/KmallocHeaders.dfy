/** The headers of the kernel heap in memory: reading and writing one field of one header,
    and what the headers of a whole heap say. */
module KmallocHeaders {
  import opened PhysMem
  import opened Bitmap
  import opened Seqs
  import opened AddressSpace
  import opened KmallocModel

  const USED: int := 0xAA99_BB88
  const FREE: int := 0x88BB_99AA

  const SIZE_AT: nat := 4
  const IS_HEAD_AT: nat := 8
  const PREV_AT: nat := 9
  const NEXT_AT: nat := 13

  /** A mem_block_t, packed: used, size, is_head, prev, next. */
  datatype Header = Header(used: int, size: int, isHead: int, prev: int, next: int)

  type Headers = map<nat, Header>

  function HeaderAt(m: seq<Byte>, a: nat): Header
    requires a + HSIZE <= |m|
  {
    Header(Word(m, a), Word(m, a + SIZE_AT), m[a + IS_HEAD_AT] as int, Word(m, a + PREV_AT), Word(m, a + NEXT_AT))
  }

  predicate WordField(off: nat) {
    off == 0 || off == SIZE_AT || off == PREV_AT || off == NEXT_AT
  }

  function SetField(h: Header, off: nat, w: int): Header {
    if off == 0 then h.(used := w)
    else if off == SIZE_AT then h.(size := w)
    else if off == IS_HEAD_AT then h.(isHead := w)
    else if off == PREV_AT then h.(prev := w)
    else h.(next := w)
  }

  /** The headers after field `off` of the header at `a` was set. */
  function Apply(hd: Headers, a: nat, off: nat, w: int): (r: Headers)
    ensures r.Keys == hd.Keys
  {
    if a in hd then hd[a := SetField(hd[a], off, w)] else hd
  }

  function Field(h: Header, off: nat): int
    requires WordField(off)
  {
    if off == 0 then h.used
    else if off == SIZE_AT then h.size
    else if off == PREV_AT then h.prev
    else h.next
  }

  /** Memory holds these headers, and no two of them overlap. */
  ghost predicate Holding(m: seq<Byte>, hd: Headers) {
    && |m| == RAM_SIZE
    && (forall a {:trigger hd[a]} :: a in hd ==> a + HSIZE <= RAM_SIZE && HeaderAt(m, a) == hd[a])
    && (forall a, b {:trigger hd[a], hd[b]} :: a in hd && b in hd && a != b ==> Apart(a, HSIZE, b, HSIZE))
  }

  ghost predicate InHeader(ks: set<nat>, x: nat) {
    exists a {:trigger a in ks} :: a in ks && a <= x < a + HSIZE
  }

  /** Nothing but headers has been written, and the word behind the null pointer. */
  ghost predicate OnlyHeaders(m: seq<Byte>, m': seq<Byte>, ks: set<nat>) {
    && |m| == RAM_SIZE && |m'| == RAM_SIZE
    && forall x: nat {:trigger m'[x]} :: x < RAM_SIZE && !InHeader(ks, x) && !(PREV_AT <= x < NEXT_AT) ==> m'[x] == m[x]
  }

  lemma OnlyHeadersStart(m: seq<Byte>, ks: set<nat>)
    requires |m| == RAM_SIZE
    ensures OnlyHeaders(m, m, ks)
  {
  }

  lemma OnlyHeadersMore(m: seq<Byte>, m': seq<Byte>, ks: set<nat>, ks': set<nat>)
    requires OnlyHeaders(m, m', ks) && ks <= ks'
    ensures OnlyHeaders(m, m', ks')
  {
    forall x: nat | InHeader(ks, x) ensures InHeader(ks', x) {
      var a :| a in ks && a <= x < a + HSIZE;
      assert a in ks';
    }
  }

  ghost predicate SameBytes(m: seq<Byte>, m': seq<Byte>, a: nat, n: nat)
    requires a + n <= |m| == |m'|
  {
    forall x {:trigger m'[x]} :: a <= x < a + n ==> m'[x] == m[x]
  }

  lemma HeaderSame(m: seq<Byte>, m': seq<Byte>, a: nat)
    requires a + HSIZE <= |m| == |m'| && SameBytes(m, m', a, HSIZE)
    ensures HeaderAt(m', a) == HeaderAt(m, a)
  {
    hide Word;
    WordSame(m, m', a);
    WordSame(m, m', a + SIZE_AT);
    WordSame(m, m', a + PREV_AT);
    WordSame(m, m', a + NEXT_AT);
  }

  lemma WordSame(m: seq<Byte>, m': seq<Byte>, a: nat)
    requires a + 4 <= |m| == |m'|
    requires m'[a] == m[a] && m'[a + 1] == m[a + 1] && m'[a + 2] == m[a + 2] && m'[a + 3] == m[a + 3]
    ensures Word(m', a) == Word(m, a)
  {
  }

  /** Memory that differs in one header only, at a known place. */
  lemma HeaderWritten(m: seq<Byte>, m': seq<Byte>, hd: Headers, a: nat, h: Header, m0: seq<Byte>)
    requires Holding(m, hd) && a in hd && |m'| == RAM_SIZE && OnlyHeaders(m0, m, hd.Keys)
    requires forall x: nat {:trigger m'[x]} :: x < RAM_SIZE && !(a <= x < a + HSIZE) ==> m'[x] == m[x]
    requires a + HSIZE <= RAM_SIZE && HeaderAt(m', a) == h
    ensures Holding(m', hd[a := h]) && OnlyHeaders(m0, m', hd.Keys)
  {
    hide HeaderAt;
    var hd' := hd[a := h];
    forall b | b in hd' ensures b + HSIZE <= RAM_SIZE && HeaderAt(m', b) == hd'[b] {
      if b != a {
        assert Apart(a, HSIZE, b, HSIZE) && HeaderAt(m, b) == hd[b];
        HeaderSame(m, m', b);
      }
    }
    forall b, c | b in hd' && c in hd' && b != c ensures Apart(b, HSIZE, c, HSIZE) {
      assert b in hd && c in hd && Apart(b, HSIZE, c, HSIZE) by { assert hd[b] == hd[b] && hd[c] == hd[c]; }
    }
    forall x: nat | x < RAM_SIZE && !InHeader(hd.Keys, x) && !(PREV_AT <= x < NEXT_AT) ensures m'[x] == m0[x] {
      assert a in hd.Keys;
      assert m[x] == m0[x];
    }
  }

  lemma FieldSet(m: seq<Byte>, a: nat, off: nat, w: int)
    requires |m| == RAM_SIZE && a + HSIZE <= RAM_SIZE && WordField(off) && 0 <= w < RAM_SIZE
    ensures HeaderAt(SetWord(m, a + off, w), a) == SetField(HeaderAt(m, a), off, w)
  {
    WordSet(m, a + off, w, a);
    WordSet(m, a + off, w, a + SIZE_AT);
    WordSet(m, a + off, w, a + PREV_AT);
    WordSet(m, a + off, w, a + NEXT_AT);
  }

  lemma FieldInside(off: nat)
    ensures WordField(off) ==> off + 4 <= HSIZE
    ensures IS_HEAD_AT < HSIZE && RAM_SIZE == 0x1_0000_0000 && WordField(0) && WordField(SIZE_AT)
    ensures WordField(PREV_AT) && WordField(NEXT_AT)
  {
  }

  lemma ApplyIs(hd: Headers, a: nat, off: nat, w: int)
    requires a in hd
    ensures Apply(hd, a, off, w) == hd[a := SetField(hd[a], off, w)]
  {
  }

  lemma ApplyOther(hd: Headers, a: nat, off: nat, w: int, b: nat)
    requires b in hd && b != a
    ensures b in Apply(hd, a, off, w) && Apply(hd, a, off, w)[b] == hd[b]
  {
  }

  lemma SetHead(h: Header, b: int)
    ensures SetField(h, IS_HEAD_AT, b) == h.(isHead := b)
  {
  }

  lemma WordPut(m: seq<Byte>, hd: Headers, a: nat, off: nat, w: int, m0: seq<Byte>)
    requires Holding(m, hd) && a in hd && WordField(off) && 0 <= w < RAM_SIZE && OnlyHeaders(m0, m, hd.Keys)
    ensures a + off + 4 <= RAM_SIZE && |m| == RAM_SIZE
    ensures Holding(SetWord(m, a + off, w), Apply(hd, a, off, w)) && Apply(hd, a, off, w).Keys == hd.Keys
    ensures OnlyHeaders(m0, SetWord(m, a + off, w), hd.Keys)
  {
    hide *;
    HeaderFits(m, hd, a);
    FieldInside(off);
    FieldSet(m, a, off, w);
    HeaderWritten(m, SetWord(m, a + off, w), hd, a, SetField(hd[a], off, w), m0);
    ApplyIs(hd, a, off, w);
  }

  lemma HeaderFits(m: seq<Byte>, hd: Headers, a: nat)
    requires Holding(m, hd) && a in hd
    ensures |m| == RAM_SIZE && a + HSIZE <= RAM_SIZE && HeaderAt(m, a) == hd[a]
  {
  }

  lemma FieldFits(m: seq<Byte>, hd: Headers, a: nat, off: nat)
    requires Holding(m, hd) && a in hd && WordField(off)
    ensures |m| == RAM_SIZE && a + off + 4 <= RAM_SIZE && Word(m, a + off) == Field(hd[a], off)
  {
    HeaderFits(m, hd, a);
  }

  lemma HeadSet(m: seq<Byte>, a: nat, b: Byte)
    requires |m| == RAM_SIZE && a + HSIZE <= RAM_SIZE
    ensures HeaderAt(m[a + IS_HEAD_AT := b], a) == HeaderAt(m, a).(isHead := b as int)
  {
    hide Word;
    var m' := m[a + IS_HEAD_AT := b];
    WordSame(m, m', a);
    WordSame(m, m', a + SIZE_AT);
    WordSame(m, m', a + PREV_AT);
    WordSame(m, m', a + NEXT_AT);
  }

  lemma HeadPut(m: seq<Byte>, hd: Headers, a: nat, b: Byte, m0: seq<Byte>)
    requires Holding(m, hd) && a in hd && OnlyHeaders(m0, m, hd.Keys)
    ensures a + IS_HEAD_AT < RAM_SIZE && |m| == RAM_SIZE
    ensures Holding(m[a + IS_HEAD_AT := b], Apply(hd, a, IS_HEAD_AT, b as int))
    ensures Apply(hd, a, IS_HEAD_AT, b as int).Keys == hd.Keys
    ensures OnlyHeaders(m0, m[a + IS_HEAD_AT := b], hd.Keys)
  {
    hide *;
    HeaderFits(m, hd, a);
    FieldInside(0);
    HeadSet(m, a, b);
    HeaderWritten(m, m[a + IS_HEAD_AT := b], hd, a, hd[a].(isHead := b as int), m0);
    ApplyIs(hd, a, IS_HEAD_AT, b as int);
    SetHead(hd[a], b as int);
  }

  /** One more header, clear of the others. */
  lemma HeaderPlaced(m: seq<Byte>, hd: Headers, n: nat, m0: seq<Byte>)
    requires Holding(m, hd) && OnlyHeaders(m0, m, hd.Keys) && n !in hd && n + HSIZE <= RAM_SIZE
    requires forall a {:trigger hd[a]} :: a in hd ==> Apart(a, HSIZE, n, HSIZE)
    ensures |m| == RAM_SIZE && Holding(m, hd[n := HeaderAt(m, n)]) && OnlyHeaders(m0, m, hd[n := HeaderAt(m, n)].Keys)
  {
    OnlyHeadersMore(m0, m, hd.Keys, hd[n := HeaderAt(m, n)].Keys);
    hide HeaderAt, OnlyHeaders;
    var hd' := hd[n := HeaderAt(m, n)];
    forall a, b | a in hd' && b in hd' && a != b ensures Apart(a, HSIZE, b, HSIZE) {
      if a != n { assert Apart(a, HSIZE, n, HSIZE) by { assert hd[a] == hd[a]; } }
      if b != n { assert Apart(b, HSIZE, n, HSIZE) by { assert hd[b] == hd[b]; } }
      if a != n && b != n { assert Apart(a, HSIZE, b, HSIZE) by { assert hd[a] == hd[a] && hd[b] == hd[b]; } }
    }
  }

  /** The headers of different blocks do not overlap. */
  lemma HeadersApart(h: Heap, n: nat, a: nat)
    requires BlocksOk(h) && BlocksApart(h) && n in h.blocks && a in h.blocks && a != n
    ensures Apart(a, HSIZE, n, HSIZE)
  {
    assert Apart(a, h.blocks[a].size, n, h.blocks[n].size) && BlockOk(h, a) && BlockOk(h, n);
  }

  lemma HeaderInside(h: Heap, n: nat)
    requires RegionsOk(h) && BlocksOk(h) && n in h.blocks
    ensures n + HSIZE <= RAM_SIZE && 4096 <= n
  {
    assert BlockOk(h, n) && RegionOk(h.blocks[n].region);
  }

  /** One more header, where the blocks leave room for it. */
  lemma HeaderAdded(m: seq<Byte>, hd: Headers, h: Heap, n: nat, m0: seq<Byte>)
    requires Holding(m, hd) && OnlyHeaders(m0, m, hd.Keys) && RegionsOk(h) && BlocksOk(h) && BlocksApart(h)
    requires hd.Keys <= h.blocks.Keys && n in h.blocks && n !in hd
    ensures n + HSIZE <= RAM_SIZE && |m| == RAM_SIZE
    ensures Holding(m, hd[n := HeaderAt(m, n)]) && OnlyHeaders(m0, m, hd[n := HeaderAt(m, n)].Keys)
  {
    hide *;
    HeaderInside(h, n);
    forall a | a in hd ensures Apart(a, HSIZE, n, HSIZE) { HeadersApart(h, n, a); }
    HeaderPlaced(m, hd, n, m0);
  }

  /** A word that overlaps no header. */
  ghost predicate ClearOf(ks: set<nat>, x: nat) {
    x + 4 <= RAM_SIZE && forall a {:trigger a in ks} :: a in ks ==> Apart(x, 4, a, HSIZE)
  }

  /** Storing it leaves the headers alone. */
  lemma ElsewherePut(m: seq<Byte>, hd: Headers, x: nat, w: int)
    requires Holding(m, hd) && ClearOf(hd.Keys, x) && 0 <= w < RAM_SIZE
    ensures |m| == RAM_SIZE && x + 4 <= RAM_SIZE && Holding(SetWord(m, x, w), hd)
  {
    hide HeaderAt;
    var m' := SetWord(m, x, w);
    forall a | a in hd ensures a + HSIZE <= RAM_SIZE && HeaderAt(m', a) == hd[a] {
      assert a in hd.Keys;
      HeaderSame(m, m', a);
    }
  }

  /** The words behind the null pointer are in no header. */
  lemma LowWordsClear(hd: Headers, h: Heap)
    requires RegionsOk(h) && BlocksOk(h) && hd.Keys <= h.blocks.Keys
    ensures ClearOf(hd.Keys, PREV_AT) && ClearOf(hd.Keys, NEXT_AT)
  {
    hide RegionsOk, BlocksOk;
    forall a | a in hd.Keys ensures 4096 <= a { HeaderInside(h, a); }
  }

  lemma NullPut(m: seq<Byte>, hd: Headers, h: Heap, w: int, m0: seq<Byte>)
    requires Holding(m, hd) && OnlyHeaders(m0, m, hd.Keys) && RegionsOk(h) && BlocksOk(h) && hd.Keys <= h.blocks.Keys
    requires 0 <= w < RAM_SIZE
    ensures |m| == RAM_SIZE && PREV_AT + 4 <= RAM_SIZE
    ensures Holding(SetWord(m, PREV_AT, w), hd) && OnlyHeaders(m0, SetWord(m, PREV_AT, w), hd.Keys)
  {
    hide HeaderAt, RegionsOk, BlocksOk, Holding, ClearOf;
    LowWordsClear(hd, h);
    ElsewherePut(m, hd, PREV_AT, w);
    hide SetWord;
    var m' := SetWord(m, PREV_AT, w);
    forall x: nat | x < RAM_SIZE && !InHeader(hd.Keys, x) && !(PREV_AT <= x < NEXT_AT) ensures m'[x] == m0[x] {
      assert m[x] == m0[x];
    }
  }

  /** The word at NEXT_AT is none of those written. */
  lemma LowWordKept(m0: seq<Byte>, m: seq<Byte>, ks: set<nat>)
    requires OnlyHeaders(m0, m, ks) && ClearOf(ks, NEXT_AT)
    ensures |m0| == RAM_SIZE && |m| == RAM_SIZE && NEXT_AT + 4 <= RAM_SIZE && Word(m, NEXT_AT) == Word(m0, NEXT_AT)
  {
    forall x: nat | NEXT_AT <= x < NEXT_AT + 4 ensures m[x] == m0[x] {
      forall a | a in ks ensures !(a <= x < a + HSIZE) {}
      assert !InHeader(ks, x);
    }
    WordSame(m0, m, NEXT_AT);
  }

  // ---------------------------------------------------------------- the list in the headers

  function HeadOf(s: seq<nat>): nat {
    if s == [] then 0 else s[0]
  }

  function PrevOf(s: seq<nat>, i: nat): nat
    requires i < |s|
  {
    if i == 0 then 0 else s[i - 1]
  }

  function NextOf(s: seq<nat>, i: nat): nat
    requires i < |s|
  {
    if i + 1 == |s| then 0 else s[i + 1]
  }

  /** The header of the block at `a` says what the block is. */
  ghost predicate SaysBlock(hd: Headers, h: Heap, a: nat)
    requires a in hd && a in h.blocks
  {
    var b := h.blocks[a];
    hd[a].size == b.size && hd[a].used == (if b.live then USED else FREE)
        && hd[a].isHead == (if a == b.region then 1 else 0)
  }

  ghost predicate SaysLinks(hd: Headers, s: seq<nat>, i: nat)
    requires i < |s|
  {
    s[i] in hd && hd[s[i]].prev == PrevOf(s, i) && hd[s[i]].next == NextOf(s, i)
  }

  ghost predicate AllLinks(hd: Headers, s: seq<nat>) {
    forall i: nat {:trigger SaysLinks(hd, s, i)} :: i < |s| ==> SaysLinks(hd, s, i)
  }

  /** The headers and the list head represent the heap. */
  ghost predicate Recorded(hd: Headers, h: Heap, head: nat) {
    AllBlocks(hd, h) && AllLinks(hd, h.free) && head == HeadOf(h.free)
  }

  /** The headers after a split of the block at `a`, whose list successor was `nx`. */
  ghost predicate SplitHeaders(hd: Headers, hd': Headers, a: nat, n: nat, need: int, nx: int)
    requires a in hd
  {
    && hd'.Keys == hd.Keys + {n}
    && hd'[n] == Header(FREE, hd[a].size - need, 0, a, nx)
    && a in hd' && hd'[a] == hd[a].(size := need, next := n)
    && (forall c {:trigger hd'[c]} :: c in hd && c != a ==> hd'[c] == if c == nx then hd[c].(prev := n) else hd[c])
  }

  function BackLinked(hd: Headers, next: nat, a: nat): (r: Headers)
    ensures r.Keys == hd.Keys
  {
    if next != 0 then Apply(hd, next, PREV_AT, a) else hd
  }

  /** The writes of a split, in order. */
  lemma SplitChain(hd: Headers, g1: Headers, g2: Headers, g3: Headers, g4: Headers, g5: Headers, g6: Headers,
                   g7: Headers, hd': Headers,
                   x: Header, a: nat, n: nat, need: nat, nx: nat)
    requires a in hd && n !in hd && nx != a && nx != n && (nx != 0 ==> nx in hd) && 0 !in hd
    requires hd[a].next == nx
    requires g1 == Apply(hd[n := x], n, SIZE_AT, hd[a].size - need)
    requires g2 == Apply(g1, n, PREV_AT, a)
    requires g3 == Apply(g2, n, NEXT_AT, nx)
    requires g4 == BackLinked(g3, nx, n)
    requires g5 == Apply(g4, n, 0, FREE)
    requires g6 == Apply(g5, n, IS_HEAD_AT, 0)
    requires g7 == Apply(g6, a, SIZE_AT, need)
    requires hd' == Apply(g7, a, NEXT_AT, n)
    ensures SplitHeaders(hd, hd', a, n, need, nx)
  {
  }

  lemma SplitRecorded(hd: Headers, hd': Headers, h: Heap, head: nat, i: nat, need: nat)
    requires Recorded(hd, h, head) && Tiled(h) && Listed(h) && i < |h.free| && h.free[i] in h.blocks
    requires HSIZE <= need && need + HSIZE <= h.blocks[h.free[i]].size && h.free[i] in hd
    requires need < h.blocks[h.free[i]].size
    requires SplitHeaders(hd, hd', h.free[i], h.free[i] + need, need, NextOf(h.free, i))
    ensures Recorded(hd', Split(h, i, need), head)
  {
    hide *;
    HeapParts(h);
    NotABlock(h, i, need);
    NoBlockAtZero(h);
    RecordedParts(hd, h, head);
    SplitBlocks(hd, hd', h, head, i, need);
    SplitLinks(hd, hd', h.free, i, h.free[i] + need, need);
    SplitFields(h, i, need);
    RecordedFrom(hd', Split(h, i, need), head);
  }

  lemma HeapParts(h: Heap)
    requires Tiled(h) && Listed(h)
    ensures RegionsOk(h) && BlocksOk(h) && BlocksApart(h) && ListedFree(h) && Distinct(h.free)
  {
  }

  lemma SplitFields(h: Heap, i: nat, need: nat)
    requires i < |h.free| && h.free[i] in h.blocks && need <= h.blocks[h.free[i]].size
    ensures var h' := Split(h, i, need);
      h'.free == Inserted(h.free, i + 1, h.free[i] + need) && HeadOf(h'.free) == HeadOf(h.free)
  {
  }

  ghost predicate AllBlocks(hd: Headers, h: Heap) {
    && hd.Keys == h.blocks.Keys
    && forall a {:trigger hd[a]} {:trigger h.blocks[a]} :: a in hd && a in h.blocks ==> SaysBlock(hd, h, a)
  }

  lemma RecordedParts(hd: Headers, h: Heap, head: nat)
    requires Recorded(hd, h, head)
    ensures AllBlocks(hd, h) && AllLinks(hd, h.free) && head == HeadOf(h.free) && hd.Keys == h.blocks.Keys
    ensures forall a {:trigger a in hd} :: a in hd <==> a in h.blocks
  {
  }

  lemma RecordedFrom(hd: Headers, h: Heap, head: nat)
    requires AllBlocks(hd, h) && AllLinks(hd, h.free) && head == HeadOf(h.free)
    ensures Recorded(hd, h, head)
  {
  }

  lemma SplitBlocks(hd: Headers, hd': Headers, h: Heap, head: nat, i: nat, need: nat)
    requires AllBlocks(hd, h) && Tiled(h) && ListedFree(h) && i < |h.free| && h.free[i] in h.blocks
    requires HSIZE <= need && need + HSIZE <= h.blocks[h.free[i]].size && h.free[i] in hd && h.free[i] + need !in hd
    requires SplitHeaders(hd, hd', h.free[i], h.free[i] + need, need, NextOf(h.free, i))
    ensures AllBlocks(hd', Split(h, i, need))
  {
    hide Tiled, ListedFree, SaysBlock, AllBlocks;
    AllBlocksKeys(hd, h);
    var h' := Split(h, i, need);
    forall c | c in hd' && c in h'.blocks ensures SaysBlock(hd', h', c) {
      SplitBlock(hd, hd', h, i, need, c);
    }
    AllBlocksFrom(hd', h');
  }

  lemma AllBlocksKeys(hd: Headers, h: Heap)
    requires AllBlocks(hd, h)
    ensures hd.Keys == h.blocks.Keys
  {
  }

  lemma AllBlocksFrom(hd: Headers, h: Heap)
    requires hd.Keys == h.blocks.Keys
    requires forall a {:trigger SaysBlock(hd, h, a)} :: a in hd && a in h.blocks ==> SaysBlock(hd, h, a)
    ensures AllBlocks(hd, h)
  {
  }

  lemma SplitBlock(hd: Headers, hd': Headers, h: Heap, i: nat, need: nat, c: nat)
    requires AllBlocks(hd, h) && Tiled(h) && ListedFree(h) && i < |h.free| && h.free[i] in h.blocks
    requires HSIZE <= need && need + HSIZE <= h.blocks[h.free[i]].size && h.free[i] in hd && h.free[i] + need !in hd
    requires SplitHeaders(hd, hd', h.free[i], h.free[i] + need, need, NextOf(h.free, i))
    requires c in hd' && c in Split(h, i, need).blocks
    ensures SaysBlock(hd', Split(h, i, need), c)
  {
    var a := h.free[i];
    BlockBounds(h, a);
    hide Tiled;
    assert SaysBlock(hd, h, if c == a + need then a else c);
    assert !h.blocks[a].live;
  }

  lemma BlockBounds(h: Heap, a: nat)
    requires Tiled(h) && a in h.blocks
    ensures h.blocks[a].region <= a && 4096 <= a
    ensures HSIZE <= h.blocks[a].size <= REGION && a + h.blocks[a].size <= RAM_SIZE
  {
    assert BlockOk(h, a) && RegionOk(h.blocks[a].region);
  }

  /** The links of the list with `n` put in after its `i`-th node. */
  lemma SplitLink(hd: Headers, hd': Headers, s: seq<nat>, i: nat, n: nat, need: nat, j: nat)
    requires Distinct(s) && i < |s| && s[i] in hd && n !in hd && 0 !in hd && j <= |s|
    requires AllLinks(hd, s)
    requires SplitHeaders(hd, hd', s[i], n, need, NextOf(s, i))
    ensures SaysLinks(hd', Inserted(s, i + 1, n), j)
  {
    var s' := Inserted(s, i + 1, n);
    assert s'[j] == if j <= i then s[j] else if j == i + 1 then n else s[j - 1];
    assert j > 0 ==> s'[j - 1] == if j - 1 <= i then s[j - 1] else if j == i + 2 then n else s[j - 2];
    assert j < |s| ==> s'[j + 1] == if j + 1 <= i then s[j + 1] else if j == i then n else s[j];
    if j != i + 1 {
      var o := if j <= i then j else j - 1;
      assert SaysLinks(hd, s, o) && s'[j] == s[o];
      assert i + 1 < |s| ==> (s[o] == s[i + 1] <==> o == i + 1);
      assert s[o] == s[i] <==> o == i;
    } else {
      assert SaysLinks(hd, s, i);
    }
  }

  lemma SplitLinks(hd: Headers, hd': Headers, s: seq<nat>, i: nat, n: nat, need: nat)
    requires Distinct(s) && i < |s| && s[i] in hd && n !in hd && 0 !in hd
    requires AllLinks(hd, s)
    requires SplitHeaders(hd, hd', s[i], n, need, NextOf(s, i))
    ensures AllLinks(hd', Inserted(s, i + 1, n))
  {
    hide SplitHeaders, Distinct;
    var s' := Inserted(s, i + 1, n);
    forall j: nat | j < |s'| ensures SaysLinks(hd', s', j) {
      SplitLink(hd, hd', s, i, n, need, j);
    }
  }

  lemma NoBlockAtZero(h: Heap)
    requires Tiled(h)
    ensures 0 !in h.blocks
  {
    forall a | a in h.blocks ensures a != 0 { BlockBounds(h, a); }
  }

  /** The headers after the block at `a` left the list from between `pv` and `nx`. */
  ghost predicate TakeHeaders(hd: Headers, hd': Headers, a: nat, pv: int, nx: int)
    requires a in hd
  {
    && hd'.Keys == hd.Keys
    && hd'[a] == hd[a].(used := USED)
    && forall c {:trigger hd'[c]} :: c in hd && c != a ==>
         hd'[c] == if c == pv then hd[c].(next := nx) else if c == nx then hd[c].(prev := pv) else hd[c]
  }

  lemma TakeLink(hd: Headers, hd': Headers, s: seq<nat>, i: nat, j: nat)
    requires Distinct(s) && i < |s| && s[i] in hd && 0 !in hd && j < |s| - 1
    requires AllLinks(hd, s) && TakeHeaders(hd, hd', s[i], PrevOf(s, i), NextOf(s, i))
    ensures SaysLinks(hd', RemoveAt(s, i), j)
  {
    var s' := RemoveAt(s, i);
    var o := if j < i then j else j + 1;
    assert s'[j] == s[o] && SaysLinks(hd, s, o);
    assert j > 0 ==> s'[j - 1] == s[if j - 1 < i then j - 1 else j];
    assert j + 1 < |s'| ==> s'[j + 1] == s[if j + 1 < i then j + 1 else j + 2];
    assert s[o] != s[i];
    assert i + 1 < |s| ==> (s[o] == s[i + 1] <==> o == i + 1);
    assert i > 0 ==> (s[o] == s[i - 1] <==> o == i - 1);
  }

  lemma TakeLinks(hd: Headers, hd': Headers, s: seq<nat>, i: nat)
    requires Distinct(s) && i < |s| && s[i] in hd && 0 !in hd
    requires AllLinks(hd, s) && TakeHeaders(hd, hd', s[i], PrevOf(s, i), NextOf(s, i))
    ensures AllLinks(hd', RemoveAt(s, i)) && HeadOf(RemoveAt(s, i)) == if i == 0 then NextOf(s, 0) else HeadOf(s)
  {
    hide TakeHeaders, Distinct;
    var s' := RemoveAt(s, i);
    forall j: nat | j < |s'| ensures SaysLinks(hd', s', j) {
      TakeLink(hd, hd', s, i, j);
    }
  }

  lemma TakeBlocks(hd: Headers, hd': Headers, h: Heap, i: nat, pv: int, nx: int)
    requires AllBlocks(hd, h) && i < |h.free| && h.free[i] in h.blocks && h.free[i] in hd
    requires TakeHeaders(hd, hd', h.free[i], pv, nx)
    ensures AllBlocks(hd', Take(h, i))
  {
    var h' := Take(h, i);
    forall c | c in hd' && c in h'.blocks ensures SaysBlock(hd', h', c) {
      assert SaysBlock(hd, h, c);
    }
  }

  lemma MarkKeepsLinks(hd: Headers, a: nat)
    requires a in hd
    ensures a in Apply(hd, a, 0, USED)
    ensures Apply(hd, a, 0, USED)[a].prev == hd[a].prev && Apply(hd, a, 0, USED)[a].next == hd[a].next
  {
  }

  /** The writes that take a block off the list, in order. */
  lemma TakeChain(hd: Headers, g1: Headers, g2: Headers, hd': Headers, a: nat, pv: nat, nx: nat)
    requires a in hd && 0 !in hd && pv != a && nx != a && (pv != 0 ==> pv in hd && pv != nx) && (nx != 0 ==> nx in hd)
    requires g1 == Apply(hd, a, 0, USED)
    requires g2 == if pv != 0 then Apply(g1, pv, NEXT_AT, nx) else g1
    requires hd' == BackLinked(g2, nx, pv)
    ensures TakeHeaders(hd, hd', a, pv, nx)
  {
  }

  lemma TakeRecorded(hd: Headers, hd': Headers, h: Heap, head: nat, i: nat, head': nat)
    requires Recorded(hd, h, head) && Tiled(h) && Listed(h) && i < |h.free| && h.free[i] in h.blocks && h.free[i] in hd
    requires TakeHeaders(hd, hd', h.free[i], PrevOf(h.free, i), NextOf(h.free, i))
    requires head' == if i == 0 then NextOf(h.free, i) else head
    ensures Recorded(hd', Take(h, i), head')
  {
    hide *;
    HeapParts(h);
    NoBlockAtZero(h);
    RecordedParts(hd, h, head);
    TakeBlocks(hd, hd', h, i, PrevOf(h.free, i), NextOf(h.free, i));
    TakeLinks(hd, hd', h.free, i);
    TakeFields(h, i);
    RecordedFrom(hd', Take(h, i), head');
  }

  lemma TakeFields(h: Heap, i: nat)
    requires i < |h.free| && h.free[i] in h.blocks
    ensures Take(h, i).free == RemoveAt(h.free, i)
  {
  }

  /** The headers after a new region was cut at `r + need` and its rest linked behind `last`. */
  ghost predicate GrowHeaders(hd: Headers, hd': Headers, last: nat, r: nat, need: nat)
    requires last in hd && need <= REGION
  {
    && hd'.Keys == hd.Keys + {r} + {r + need}
    && hd'[r] == Header(USED, need, 1, 0, 0)
    && hd'[r + need] == Header(FREE, REGION - need, 0, last, 0)
    && last in hd' && hd'[last] == hd[last].(next := r + need)
    && forall c {:trigger hd'[c]} :: c in hd && c != last ==> hd'[c] == hd[c]
  }

  lemma GrowLink(hd: Headers, hd': Headers, s: seq<nat>, r: nat, need: nat, j: nat)
    requires Distinct(s) && s != [] && s[|s| - 1] in hd && r !in hd && r + need !in hd && 0 < need <= REGION && j <= |s|
    requires AllLinks(hd, s) && GrowHeaders(hd, hd', s[|s| - 1], r, need)
    ensures SaysLinks(hd', s + [r + need], j)
  {
    if j < |s| {
      assert SaysLinks(hd, s, j);
      assert s[j] == s[|s| - 1] <==> j == |s| - 1;
    }
  }

  lemma GrowLinks(hd: Headers, hd': Headers, s: seq<nat>, r: nat, need: nat)
    requires Distinct(s) && s != [] && s[|s| - 1] in hd && r !in hd && r + need !in hd && 0 < need <= REGION
    requires AllLinks(hd, s) && GrowHeaders(hd, hd', s[|s| - 1], r, need)
    ensures AllLinks(hd', s + [r + need]) && HeadOf(s + [r + need]) == HeadOf(s)
  {
    hide GrowHeaders, Distinct;
    var s' := s + [r + need];
    forall j: nat | j < |s'| ensures SaysLinks(hd', s', j) {
      GrowLink(hd, hd', s, r, need, j);
    }
  }

  lemma GrowBlocks(hd: Headers, hd': Headers, h: Heap, last: nat, r: nat, need: nat)
    requires AllBlocks(hd, h) && last in hd && r !in hd && r + need !in hd && 0 < need <= REGION
    requires GrowHeaders(hd, hd', last, r, need)
    ensures AllBlocks(hd', Grow(h, r, need))
  {
    var h' := Grow(h, r, need);
    assert h'.blocks.Keys == hd.Keys + {r} + {r + need};
    forall c | c in hd' && c in h'.blocks ensures SaysBlock(hd', h', c) {
      if c != r && c != r + need { assert SaysBlock(hd, h, c); }
    }
  }

  /** The writes for the allocated block of a new region, in order. */
  lemma NewChain(hd: Headers, hd': Headers, x: Header, r: nat, need: nat)
    requires hd' == Apply(Apply(Apply(Apply(Apply(hd[r := x], r, SIZE_AT, need), r, NEXT_AT, 0), r, PREV_AT, 0), r,
        0, USED), r, IS_HEAD_AT, 1)
    ensures hd' == hd[r := Header(USED, need, 1, 0, 0)]
  {
  }

  /** The writes that link the rest of a new region behind `last`, in order. */
  lemma RestChain(hd: Headers, g1: Headers, g2: Headers, g3: Headers, hd': Headers, x: Header, n: nat,
                  size: nat, last: nat)
    requires n !in hd && last in hd
    requires g1 == Apply(Apply(hd[n := x], n, SIZE_AT, size), n, NEXT_AT, 0)
    requires g2 == Apply(g1, n, PREV_AT, last)
    requires g3 == Apply(g2, last, NEXT_AT, n)
    requires hd' == Apply(Apply(g3, n, 0, FREE), n, IS_HEAD_AT, 0)
    ensures hd' == hd[n := Header(FREE, size, 0, last, 0)][last := hd[last].(next := n)]
  {
  }

  /** The writes for the rest of a new region when there is no list, in order. */
  lemma LooseChain(hd: Headers, g1: Headers, g2: Headers, hd': Headers, x: Header, n: nat, size: nat, nx: nat)
    requires g1 == Apply(Apply(hd[n := x], n, SIZE_AT, size), n, NEXT_AT, nx)
    requires g2 == Apply(g1, n, PREV_AT, 0)
    requires hd' == Apply(Apply(g2, n, 0, FREE), n, IS_HEAD_AT, 0)
    ensures hd' == hd[n := Header(FREE, size, 0, 0, nx)]
  {
  }

  lemma GrowChain(hd: Headers, g: Headers, hd': Headers, last: nat, r: nat, need: nat)
    requires last in hd && r !in hd && r + need !in hd && 0 < need <= REGION
    requires g == hd[r := Header(USED, need, 1, 0, 0)]
    requires last in g
    requires hd' == g[r + need := Header(FREE, REGION - need, 0, last, 0)][last := g[last].(next := r + need)]
    ensures GrowHeaders(hd, hd', last, r, need)
  {
  }

  lemma GrowRecorded(hd: Headers, hd': Headers, h: Heap, head: nat, r: nat, need: nat)
    requires Recorded(hd, h, head) && Tiled(h) && Listed(h) && h.free != [] && h.free[|h.free| - 1] in hd
    requires r !in hd && r + need !in hd && 0 < need <= REGION
    requires GrowHeaders(hd, hd', h.free[|h.free| - 1], r, need)
    ensures Recorded(hd', Grow(h, r, need), head)
  {
    hide *;
    HeapParts(h);
    RecordedParts(hd, h, head);
    GrowBlocks(hd, hd', h, h.free[|h.free| - 1], r, need);
    GrowLinks(hd, hd', h.free, r, need);
    GrowFields(h, r, need);
    RecordedFrom(hd', Grow(h, r, need), head);
  }

  lemma GrowFields(h: Heap, r: nat, need: nat)
    requires need <= REGION
    ensures Grow(h, r, need).free == h.free + [r + need]
  {
  }

  // ---------------------------------------------------------------- the bytes

  /** What memory holds at a block: the mark of its state, its size, and whether it heads its region. */
  lemma BlockBytes(m: seq<Byte>, hd: Headers, h: Heap, head: nat, a: nat)
    requires Holding(m, hd) && Recorded(hd, h, head) && a in h.blocks
    ensures a + 17 <= |m|
    ensures Word(m, a) == if h.blocks[a].live then 0xAA99_BB88 else 0x88BB_99AA
    ensures Word(m, a + 4) == h.blocks[a].size && m[a + 8] == if a == h.blocks[a].region then 1 else 0
  {
    hide AllLinks, Word;
    assert a in hd && SaysBlock(hd, h, a) && HeaderAt(m, a) == hd[a];
  }

  /** And at the `i`-th free block: the addresses of the free blocks before and behind it, zero for
      none. The list starts at the first of them. */
  lemma LinkBytes(m: seq<Byte>, hd: Headers, h: Heap, head: nat, i: nat)
    requires Holding(m, hd) && Recorded(hd, h, head)
    ensures head == if h.free == [] then 0 else h.free[0]
    ensures i < |h.free| ==> h.free[i] + 17 <= |m|
    ensures i < |h.free| ==> Word(m, h.free[i] + 9) == if i == 0 then 0 else h.free[i - 1]
    ensures i < |h.free| ==> Word(m, h.free[i] + 13) == if i + 1 == |h.free| then 0 else h.free[i + 1]
  {
    hide AllBlocks, Word;
    assert i < |h.free| ==> SaysLinks(hd, h.free, i) && HeaderAt(m, h.free[i]) == hd[h.free[i]];
  }
}
