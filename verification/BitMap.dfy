/** HLeOs's BitMap (src/std/bit_map.rs): bits packed into 64-bit words, and why setting or
    clearing one bit leaves every other bit alone. */
module PackedBits {

  function Amount(b: nat): bv8
    requires b < 64
  {
    b as bv8
  }

  function MaskAt(x: bv8): bv64
    requires x < 64
  {
    1 << x
  }

  /** 1 << bit_offset */
  function Mask(b: nat): bv64
    requires b < 64
  {
    AmountExact(b);
    MaskAt(Amount(b))
  }

  function Common(w: bv64, m: bv64): bv64 { w & m }

  predicate Hits(w: bv64, m: bv64) { Common(w, m) != 0 }

  function Set(w: bv64, m: bv64): bv64 { w | m }

  function Clear(w: bv64, m: bv64): bv64 { w & !m }

  predicate Single(m: bv64, n: bv64) { m & n == 0 }

  /** *qword & (1 << b) != 0 */
  predicate Test(w: bv64, b: nat)
    requires b < 64
  {
    Hits(w, Mask(b))
  }

  lemma AmountExact(b: nat)
    requires b < 64
    ensures Amount(b) as nat == b && Amount(b) < 64
  {
  }

  lemma ShiftDoubles(x: bv8)
    requires x < 63
    ensures MaskAt(x + 1) == MaskAt(x) << 1 && MaskAt(0) == 1
  {
  }

  lemma NextAmount(b: nat)
    requires b < 63
    ensures Amount(b) < 63 && Amount(b + 1) == Amount(b) + 1
  {
    AmountExact(b);
    AmountExact(b + 1);
    hide Amount;
    Successor(Amount(b), Amount(b + 1));
  }

  lemma Successor(x: bv8, y: bv8)
    requires y as nat == x as nat + 1
    ensures y == x + 1
  {
  }

  /** Bit b of a word is the one of weight 2^b. */
  lemma MaskDoubles(b: nat)
    requires b < 63
    ensures Mask(0) == 1 && Mask(b + 1) == Mask(b) << 1
  {
    hide MaskAt;
    assert Amount(0) == 0;
    AmountExact(b);
    NextAmount(b);
    ShiftDoubles(Amount(b));
  }

  lemma AmountsDiffer(b: nat, c: nat)
    requires b < 64 && c < 64 && b != c
    ensures Amount(b) != Amount(c)
  {
    AmountExact(b);
    AmountExact(c);
    hide Amount;
  }

  lemma ShiftsDiffer(x: bv8, y: bv8)
    requires x < 64 && y < 64
    ensures MaskAt(x) != 0
    ensures x != y ==> Single(MaskAt(x), MaskAt(y))
  {
  }

  lemma Masks(b: nat, c: nat)
    requires b < 64 && c < 64
    ensures Mask(b) != 0 && (b != c ==> Single(Mask(b), Mask(c)))
  {
    hide Amount, MaskAt, Single;
    AmountExact(b);
    AmountExact(c);
    if b != c {
      AmountsDiffer(b, c);
    }
    ShiftsDiffer(Amount(b), Amount(c));
  }

  lemma SetMisses(w: bv64, m: bv64, n: bv64)
    requires Single(m, n)
    ensures Common(Set(w, m), n) == Common(w, n)
  {
  }

  lemma ClearMisses(w: bv64, m: bv64, n: bv64)
    requires Single(m, n)
    ensures Common(Clear(w, m), n) == Common(w, n)
  {
  }

  lemma SetHits(w: bv64, m: bv64)
    ensures Common(Set(w, m), m) == m
  {
  }

  lemma ClearHits(w: bv64, m: bv64)
    ensures Common(Clear(w, m), m) == 0
  {
  }

  lemma OtherBit(w: bv64, m: bv64, n: bv64)
    requires Single(m, n)
    ensures Hits(Set(w, m), n) == Hits(w, n) == Hits(Clear(w, m), n)
  {
    hide Set, Clear, Single, Common;
    SetMisses(w, m, n);
    ClearMisses(w, m, n);
  }

  lemma SameBit(w: bv64, m: bv64)
    requires m != 0
    ensures Hits(Set(w, m), m) && !Hits(Clear(w, m), m)
  {
    hide Set, Clear, Common;
    SetHits(w, m);
    ClearHits(w, m);
  }

  /** One |= or &= on a word changes the one bit it names. */
  lemma OneBit(w: bv64, b: nat, c: nat)
    requires b < 64 && c < 64
    ensures Test(Set(w, Mask(b)), c) <==> (c == b || Test(w, c))
    ensures Test(Clear(w, Mask(b)), c) <==> (c != b && Test(w, c))
  {
    hide Mask, Set, Clear, Hits, Single, Common;
    Masks(b, c);
    if b != c {
      OtherBit(w, Mask(b), Mask(c));
    } else {
      SameBit(w, Mask(b));
    }
  }
}

module BitMaps {
  import opened PackedBits

  function Unpacked(words: seq<bv64>, len: nat): (v: seq<bool>)
    requires len <= 64 * |words|
    ensures |v| == len && forall i :: 0 <= i < len ==> v[i] == Test(words[i / 64], i % 64)
  {
    seq(len, i requires 0 <= i < len => Test(words[i / 64], i % 64))
  }

  lemma BitSet(words: seq<bv64>, len: nat, at: nat)
    requires len <= 64 * |words| && at < len
    ensures Unpacked(words[at / 64 := Set(words[at / 64], Mask(at % 64))], len) == Unpacked(words, len)[at := true]
  {
    hide Test, Set, Mask;
    var written := Unpacked(words[at / 64 := Set(words[at / 64], Mask(at % 64))], len);
    var wanted := Unpacked(words, len)[at := true];
    forall i | 0 <= i < len
      ensures written[i] == wanted[i]
    {
      OneBit(words[at / 64], at % 64, i % 64);
    }
  }

  lemma BitCleared(words: seq<bv64>, len: nat, at: nat)
    requires len <= 64 * |words| && at < len
    ensures Unpacked(words[at / 64 := Clear(words[at / 64], Mask(at % 64))], len) == Unpacked(words, len)[at := false]
  {
    hide Test, Clear, Mask;
    var written := Unpacked(words[at / 64 := Clear(words[at / 64], Mask(at % 64))], len);
    var wanted := Unpacked(words, len)[at := false];
    forall i | 0 <= i < len
      ensures written[i] == wanted[i]
    {
      OneBit(words[at / 64], at % 64, i % 64);
    }
  }

  class BitMap {
    const bits: array<bv64>
    const len: nat

    ghost predicate Valid() { len <= 64 * bits.Length }

    constructor (bits: array<bv64>, len: nat)
      requires len <= 64 * bits.Length
      ensures Valid() && this.bits == bits && this.len == len
    {
      this.bits := bits;
      this.len := len;
    }

    /** The map as plain booleans. */
    ghost function View(): seq<bool>
      requires Valid()
      reads bits
    {
      Unpacked(bits[..], len)
    }

    method SetBit(offset: nat) returns (ok: bool)
      requires Valid()
      modifies bits
      ensures ok <==> offset < len
      ensures View() == if offset < len then old(View())[offset := true] else old(View())
    {
      hide Unpacked, Set, Clear, Mask;
      if len <= offset {
        return false;
      }
      BitSet(bits[..], len, offset);
      ghost var words := bits[..];
      bits[offset / 64] := Set(bits[offset / 64], Mask(offset % 64));
      assert bits[..] == words[offset / 64 := Set(words[offset / 64], Mask(offset % 64))];
      return true;
    }

    method UnsetBit(offset: nat) returns (ok: bool)
      requires Valid()
      modifies bits
      ensures ok <==> offset < len
      ensures View() == if offset < len then old(View())[offset := false] else old(View())
    {
      hide Unpacked, Set, Clear, Mask;
      if len <= offset {
        return false;
      }
      BitCleared(bits[..], len, offset);
      ghost var words := bits[..];
      bits[offset / 64] := Clear(bits[offset / 64], Mask(offset % 64));
      assert bits[..] == words[offset / 64 := Clear(words[offset / 64], Mask(offset % 64))];
      return true;
    }

    method IsSet(offset: nat) returns (on: bool)
      requires Valid()
      ensures on <==> offset < len && View()[offset]
    {
      if len <= offset {
        return false;
      }
      return Test(bits[offset / 64], offset % 64);
    }

    /** The first bit equal to tf, len if there is none. */
    method FindFirst(tf: bool) returns (at: nat)
      requires Valid()
      ensures at <= len && (at < len ==> View()[at] == tf)
      ensures forall i :: 0 <= i < at ==> View()[i] != tf
    {
      at := 0;
      while at < len
        invariant at <= len
        invariant forall i :: 0 <= i < at ==> View()[i] != tf
      {
        var on := IsSet(at);
        if on == tf {
          return;
        }
        at := at + 1;
      }
    }
  }
}
