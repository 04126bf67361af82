/** Numbers as bytes, least significant first. */
module LittleEndian {
  import opened Basics

  /** The n low bytes of v, least significant first. */
  function Bytes(v: nat, n: nat): (bs: seq<byte>)
    ensures |bs| == n
  {
    if n == 0 then [] else [v % 0x100] + Bytes(v / 0x100, n - 1)
  }

  function Value(bs: seq<byte>): nat {
    if bs == [] then 0 else bs[0] + 0x100 * Value(bs[1..])
  }

  /** v >> 8 * i */
  function Shift(v: nat, i: nat): nat {
    if i == 0 then v else Shift(v / 0x100, i - 1)
  }

  /** (v >> 8 * i) & 0xff is byte i. */
  lemma {:induction false} ByteAt(v: nat, n: nat, i: nat)
    requires i < n
    ensures Bytes(v, n)[i] == Shift(v, i) % 0x100
    decreases i
  {
    if i > 0 {
      ByteAt(v / 0x100, n - 1, i - 1);
    }
  }

  /** What is stored comes back, cut to the width of the slot. */
  lemma {:induction false} ValueOfBytes(v: nat, n: nat)
    ensures Value(Bytes(v, n)) < Pow(0x100, n)
    ensures v < Pow(0x100, n) ==> Value(Bytes(v, n)) == v
    decreases n
  {
    if n > 0 {
      ValueOfBytes(v / 0x100, n - 1);
      assert Bytes(v, n)[1..] == Bytes(v / 0x100, n - 1);
    }
  }

  lemma {:induction false} ValueAppend(bs: seq<byte>, b: byte)
    ensures Value(bs + [b]) == Value(bs) + Pow(0x100, |bs|) * b
    decreases |bs|
  {
    if bs == [] {
      assert Value([b][1..]) == 0;
    } else {
      ValueAppend(bs[1..], b);
      assert (bs + [b])[1..] == bs[1..] + [b];
      var p := Pow(0x100, |bs| - 1);
      assert 0x100 * (p * b) == 0x100 * p * b;
    }
  }

  /** The loop that stores the n low bytes of data from base on. */
  method StoreBytes(buffer: array<byte>, base: nat, data: nat, n: nat)
    requires base + n <= buffer.Length
    modifies buffer
    ensures buffer[base..base + n] == Bytes(data, n)
    ensures forall a :: 0 <= a < buffer.Length && !(base <= a < base + n) ==> buffer[a] == old(buffer[a])
  {
    var i := 0;
    while i < n
      invariant i <= n
      invariant buffer[base..base + i] == Bytes(data, n)[..i]
      invariant forall a :: 0 <= a < buffer.Length && !(base <= a < base + n) ==> buffer[a] == old(buffer[a])
    {
      ByteAt(data, n, i);
      buffer[base + i] := Shift(data, i) % 0x100;
      assert buffer[base..base + i + 1] == buffer[base..base + i] + [buffer[base + i]];
      i := i + 1;
    }
  }

  lemma WordWidth()
    ensures Pow(0x100, 4) == WORD_LIMIT && Pow(0x100, 8) == U64_LIMIT
  {
    assert Pow(0x100, 2) == 0x1_0000 && Pow(0x100, 4) == 0x100 * (0x100 * Pow(0x100, 2));
    assert Pow(0x100, 6) == 0x100 * (0x100 * Pow(0x100, 4)) && Pow(0x100, 8) == 0x100 * (0x100 * Pow(0x100, 6));
  }
}
