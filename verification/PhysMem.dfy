/** Physical memory: 4 GiB of bytes, 32-bit little-endian words, and the kernel's byte loops. */
module PhysMem {

  const RAM_SIZE: nat := 0x1_0000_0000

  type Byte = x: int | 0 <= x < 256

  /** The 32-bit word at `a`. */
  function Word(m: seq<Byte>, a: nat): (w: int)
    requires a + 4 <= |m|
    ensures 0 <= w < 0x1_0000_0000
  {
    m[a] as int + 0x100 * (m[a + 1] as int) + 0x1_0000 * (m[a + 2] as int) + 0x100_0000 * (m[a + 3] as int)
  }

  function ByteOf(w: int, k: nat): (b: Byte)
    requires 0 <= w < 0x1_0000_0000 && k < 4
  {
    if k == 0 then w % 0x100
    else if k == 1 then w / 0x100 % 0x100
    else if k == 2 then w / 0x1_0000 % 0x100
    else w / 0x100_0000
  }

  /** Memory after storing word `w` at `a`. */
  function SetWord(m: seq<Byte>, a: nat, w: int): (r: seq<Byte>)
    requires a + 4 <= |m| && 0 <= w < 0x1_0000_0000
    ensures |r| == |m|
    ensures forall x {:trigger r[x]} :: 0 <= x < |m| && !(a <= x < a + 4) ==> r[x] == m[x]
  {
    m[a := ByteOf(w, 0)][a + 1 := ByteOf(w, 1)][a + 2 := ByteOf(w, 2)][a + 3 := ByteOf(w, 3)]
  }

  lemma WordBytes(w: int)
    requires 0 <= w < 0x1_0000_0000
    ensures w == ByteOf(w, 0) as int + 0x100 * (ByteOf(w, 1) as int) + 0x1_0000 * (ByteOf(w,
        2) as int) + 0x100_0000 * (ByteOf(w, 3) as int)
  {
    var q := w / 0x100;
    var r := q / 0x100;
    assert w / 0x1_0000 == r && w / 0x100_0000 == r / 0x100;
  }

  /** A stored word reads back, and words that do not overlap it are as before. */
  lemma WordSet(m: seq<Byte>, a: nat, w: int, b: nat)
    requires a + 4 <= |m| && b + 4 <= |m| && 0 <= w < 0x1_0000_0000
    ensures Word(SetWord(m, a, w), a) == w
    ensures b + 4 <= a || a + 4 <= b ==> Word(SetWord(m, a, w), b) == Word(m, b)
  {
    WordBytes(w);
  }

  /** Memory after a byte loop from `dest` upwards. */
  function Fill(m: seq<Byte>, dest: nat, c: Byte, n: nat): (r: seq<Byte>)
    requires dest + n <= |m|
    ensures |r| == |m|
    ensures forall x :: 0 <= x < |m| ==> r[x] == if dest <= x < dest + n then c else m[x]
  {
    if n == 0 then m else Fill(m, dest, c, n - 1)[dest + n - 1 := c]
  }

  /** Memory after copying `n` bytes, one after the other from the lowest. */
  function Copy(m: seq<Byte>, dest: nat, src: nat, n: nat): (r: seq<Byte>)
    requires dest + n <= |m| && src + n <= |m|
    ensures |r| == |m|
    ensures forall x {:trigger r[x]} :: 0 <= x < |m| && !(dest <= x < dest + n) ==> r[x] == m[x]
  {
    if n == 0 then m
    else
      var m1 := Copy(m, dest, src, n - 1);
      m1[dest + n - 1 := m1[src + n - 1]]
  }

  /** Between ranges that do not overlap, copying copies. */
  lemma {:induction false} CopyDisjoint(m: seq<Byte>, dest: nat, src: nat, n: nat)
    requires dest + n <= |m| && src + n <= |m| && (dest + n <= src || src + n <= dest)
    ensures forall x {:trigger Copy(m, dest, src, n)[x]} :: dest <= x < dest + n ==>
        Copy(m, dest, src, n)[x] == m[x - dest + src]
  {
    if n > 0 {
      CopyDisjoint(m, dest, src, n - 1);
      assert Copy(m, dest, src, n - 1)[src + n - 1] == m[src + n - 1];
    }
  }

  method ReadWord(ram: array<Byte>, a: nat) returns (w: int)
    requires a + 4 <= ram.Length
    ensures w == Word(ram[..], a) && 0 <= w < 0x1_0000_0000
  {
    var low, high := ram[a] as int + 0x100 * (ram[a + 1] as int), ram[a + 2] as int + 0x100 * (ram[a + 3] as int);
    w := low + 0x1_0000 * high;
  }

  method WriteWord(ram: array<Byte>, a: nat, w: int)
    requires a + 4 <= ram.Length && 0 <= w < 0x1_0000_0000
    modifies ram
    ensures ram[..] == SetWord(old(ram[..]), a, w)
  {
    ram[a], ram[a + 1], ram[a + 2], ram[a + 3] := ByteOf(w, 0), ByteOf(w, 1), ByteOf(w, 2), ByteOf(w, 3);
  }

  /** kmemset: a null destination or a size that is not positive writes nothing. */
  method KMemset(ram: array<Byte>, dest: nat, c: Byte, size: int)
    requires dest + size <= ram.Length && dest <= ram.Length
    modifies ram
    ensures ram[..] == if dest == 0 || size <= 0 then old(ram[..]) else Fill(old(ram[..]), dest, c, size)
  {
    if dest == 0 || size <= 0 {
      return;
    }
    var k := 0;
    while k < size
      invariant 0 <= k <= size && ram[..] == Fill(old(ram[..]), dest, c, k)
    {
      ram[dest + k] := c;
      k := k + 1;
    }
  }

  /** kmemcpy: a null pointer or a size that is not positive copies nothing. */
  method KMemcpy(ram: array<Byte>, dest: nat, src: nat, size: int)
    requires dest <= ram.Length && src <= ram.Length && dest + size <= ram.Length && src + size <= ram.Length
    modifies ram
    ensures ram[..] == if dest == 0 || src == 0 || size <= 0 then old(ram[..]) else Copy(old(ram[..]), dest, src, size)
  {
    if dest == 0 || src == 0 || size <= 0 {
      return;
    }
    var k := 0;
    while k < size
      invariant 0 <= k <= size && ram[..] == Copy(old(ram[..]), dest, src, k)
    {
      ram[dest + k] := ram[src + k];
      k := k + 1;
    }
  }
}
