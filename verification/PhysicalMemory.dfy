/** Guest physical memory: a byte array with little-endian 32-bit words in it.
    The spec functions work on the array's contents as a sequence; the methods
    below are the memory primitives of common.c on that array. */
module PhysicalMemory {
  import opened Basics
  import LittleEndian

  function Word(m: seq<byte>, a: nat): u32
    requires a + 4 <= |m|
  {
    var b0: nat, b1: nat, b2: nat, b3: nat := m[a], m[a + 1], m[a + 2], m[a + 3];
    b0 + 0x100 * b1 + 0x1_0000 * b2 + 0x100_0000 * b3
  }

  /** A word is the little-endian value of its four bytes. */
  lemma WordIsValue(m: seq<byte>, a: nat)
    requires a + 4 <= |m|
    ensures Word(m, a) == LittleEndian.Value(m[a..a + 4])
  {
    var s := m[a..a + 4];
    assert s[1..][1..] == s[2..] && s[2..][1..] == s[3..] && s[3..][1..] == [];
    assert LittleEndian.Value(s[3..]) == s[3]
        && LittleEndian.Value(s[2..]) == s[2] + 0x100 * LittleEndian.Value(s[3..]);
    assert LittleEndian.Value(s[1..]) == s[1] + 0x100 * LittleEndian.Value(s[2..]);
  }

  /** The two memories agree everywhere except possibly in [lo, hi). */
  ghost predicate SameOutside(m: seq<byte>, m': seq<byte>, lo: int, hi: int) {
    && |m| == |m'|
    && forall i :: 0 <= i < |m| && !(lo <= i < hi) ==> m'[i] == m[i]
  }

  /** The two memories agree on [lo, hi). */
  ghost predicate SameWithin(m: seq<byte>, m': seq<byte>, lo: int, hi: int) {
    && |m| == |m'|
    && forall i :: 0 <= i < |m| && lo <= i < hi ==> m'[i] == m[i]
  }

  ghost predicate ZeroWithin(m: seq<byte>, lo: int, hi: int) {
    forall i :: 0 <= i < |m| && lo <= i < hi ==> m[i] == 0
  }

  /** Two changes in nested ranges are one change in the outer range. */
  lemma SameOutsideThen(m: seq<byte>, m1: seq<byte>, m2: seq<byte>, lo: int, mid: int, hi: int)
    requires SameOutside(m, m1, lo, hi) && SameOutside(m1, m2, lo, mid) && mid <= hi
    ensures SameOutside(m, m2, lo, hi)
  {
  }

  lemma BytesOfWord(w: u32)
    ensures w / 0x100_0000 < 0x100
    ensures w == w % 0x100 + 0x100 * (w / 0x100 % 0x100) + 0x1_0000 * (w / 0x1_0000 % 0x100)
              + 0x100_0000 * (w / 0x100_0000)
  {
    assert w / 0x1_0000 == w / 0x100 / 0x100;
    assert w / 0x100_0000 == w / 0x1_0000 / 0x100;
  }

  method StoreWord(mem: array<byte>, a: nat, w: u32)
    requires a + 4 <= mem.Length
    modifies mem
    ensures Word(mem[..], a) == w
    ensures SameOutside(old(mem[..]), mem[..], a, a + 4)
  {
    BytesOfWord(w);
    mem[a] := w % 0x100;
    mem[a + 1] := w / 0x100 % 0x100;
    mem[a + 2] := w / 0x1_0000 % 0x100;
    mem[a + 3] := w / 0x100_0000;
  }

  /** memset(mem + a, 0, n) */
  method ClearBytes(mem: array<byte>, a: nat, n: nat)
    requires a + n <= mem.Length
    modifies mem
    ensures ZeroWithin(mem[..], a, a + n)
    ensures SameOutside(old(mem[..]), mem[..], a, a + n)
  {
    var i := 0;
    while i < n
      invariant 0 <= i <= n
      invariant forall k :: a <= k < a + i ==> mem[k] == 0
      invariant SameOutside(old(mem[..]), mem[..], a, a + n)
    {
      mem[a + i] := 0;
      i := i + 1;
    }
  }

  /** memcpy(mem + a, src, |src|) */
  method CopyBytes(mem: array<byte>, a: nat, src: seq<byte>)
    requires a + |src| <= mem.Length
    modifies mem
    ensures mem[a..a + |src|] == src
    ensures SameOutside(old(mem[..]), mem[..], a, a + |src|)
  {
    var i := 0;
    while i < |src|
      invariant 0 <= i <= |src|
      invariant forall k :: 0 <= k < i ==> mem[a + k] == src[k]
      invariant SameOutside(old(mem[..]), mem[..], a, a + |src|)
    {
      mem[a + i] := src[i];
      i := i + 1;
    }
  }
}
