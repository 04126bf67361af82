/** Bytes, machine words and options, shared by all components. */
module Basics {

  type byte = b: nat | b < 0x100

  const WORD_LIMIT := 0x1_0000_0000

  type u32 = w: nat | w < WORD_LIMIT

  const U64_LIMIT := 0x1_0000_0000_0000_0000

  type u64 = w: nat | w < U64_LIMIT

  datatype Option<+T> = None | Some(value: T)

  function Zeros(n: nat): (s: seq<byte>)
    ensures |s| == n && forall i :: 0 <= i < n ==> s[i] == 0
  {
    seq(n, _ => 0)
  }

  // ASCII '0' and ' '
  const ZERO: byte := 48
  const BLANK: byte := 32

  function Blanks(n: nat): (s: seq<byte>)
    ensures |s| == n && forall i :: 0 <= i < n ==> s[i] == BLANK
  {
    seq(n, _ => BLANK)
  }

  /** An even part does not show in the lowest bit. */
  lemma EvenPlus(a: nat, r: nat)
    ensures (2 * a + r) / 2 == a + r / 2 && (2 * a + r) % 2 == r % 2
  {
  }

  /** A slice of a slice. */
  lemma Slice(s: seq<byte>, at: nat, n: nat, from: nat, to: nat)
    requires at + n <= |s| && from <= to <= n
    ensures s[at + from..at + to] == s[at..at + n][from..to]
  {
    var r := s[at..at + n];
    forall k | 0 <= k < to - from
      ensures s[at + from..at + to][k] == r[from..to][k]
    {
      assert r[from..to][k] == r[from + k];
    }
  }

  function Min(a: nat, b: nat): nat { if a < b then a else b }

  function Max(a: nat, b: nat): nat { if a < b then b else a }

  function Pow(base: nat, n: nat): (p: nat)
    requires base > 0
    ensures p > 0
  {
    if n == 0 then 1 else base * Pow(base, n - 1)
  }

  // ---------------------------------------------------------------- bitwise or

  /** a | b on the low bits */
  function Or(a: nat, b: nat, bits: nat): (c: nat)
    ensures c < Pow(2, bits)
  {
    if bits == 0 then 0 else 2 * Or(a / 2, b / 2, bits - 1) + (if a % 2 == 1 || b % 2 == 1 then 1 else 0)
  }

  lemma {:induction false} OrNothing(a: nat, bits: nat)
    requires a < Pow(2, bits)
    ensures Or(a, 0, bits) == a
    decreases bits
  {
    if bits > 0 {
      OrNothing(a / 2, bits - 1);
    }
  }

  // ---------------------------------------------------------------- single bits

  /** v >> i & 1 */
  predicate Bit(v: nat, i: nat) { v / Pow(2, i) % 2 == 1 }

  lemma BitBelow(v: nat, i: nat)
    ensures Bit(v, i) <==> if i == 0 then v % 2 == 1 else Bit(v / 2, i - 1)
  {
    if i > 0 {
      var p := Pow(2, i - 1);
      DivTwice(v, p);
      assert Pow(2, i) == 2 * p;
    }
  }

  lemma DivTwice(v: nat, p: nat)
    requires p > 0
    ensures v / (2 * p) == v / 2 / p
  {
    var half := v / 2;
    var q, r := half / p, half % p;
    assert half == p * q + r && v == 2 * half + v % 2;
    assert 2 * (p * q) == 2 * p * q;
    QuotientIs(v, 2 * p, q, 2 * r + v % 2);
  }

  lemma QuotientIs(v: nat, d: nat, q: nat, r: nat)
    requires d > 0 && v == d * q + r && r < d
    ensures v / d == q && v % d == r
  {
    var k: int := v / d - q;
    assert d * k == d * (v / d) - d * q;
    assert d * k == r - v % d;
  }

  /** An or has the bits of both. */
  lemma {:induction false} OrBit(a: nat, b: nat, bits: nat, i: nat)
    requires i < bits
    ensures Bit(Or(a, b, bits), i) <==> Bit(a, i) || Bit(b, i)
    decreases bits
  {
    hide Bit;
    BitBelow(a, i);
    BitBelow(b, i);
    BitBelow(Or(a, b, bits), i);
    assert Or(a, b, bits) / 2 == Or(a / 2, b / 2, bits - 1);
    if i > 0 {
      OrBit(a / 2, b / 2, bits - 1, i - 1);
    }
  }

  /** flags | bit */
  function SetBit(flags: nat, bit: nat): nat
    requires bit > 0
  {
    if flags / bit % 2 == 1 then flags else flags + bit
  }

  lemma HalfSetBit(v: nat, h: nat)
    requires h > 0
    ensures SetBit(v, 2 * h) / 2 == SetBit(v / 2, h) && SetBit(v, 2 * h) % 2 == v % 2
  {
    DivTwice(v, h);
  }

  lemma {:induction false} SetBitBit(v: nat, k: nat, i: nat)
    ensures Bit(SetBit(v, Pow(2, k)), i) <==> i == k || Bit(v, i)
    decreases k
  {
    hide Bit;
    var w := SetBit(v, Pow(2, k));
    BitBelow(v, i);
    BitBelow(w, i);
    if k > 0 {
      hide SetBit;
      var h := Pow(2, k - 1);
      HalfSetBit(v, h);
      assert Pow(2, k) == 2 * h;
      if i > 0 {
        SetBitBit(v / 2, k - 1, i - 1);
      }
    } else if i > 0 {
      assert w / 2 == v / 2;
    }
  }

  /** Low bits below n, the rest above. */
  lemma {:induction false} SplitBit(high: nat, low: nat, n: nat, i: nat)
    requires low < Pow(2, n)
    ensures Bit(high * Pow(2, n) + low, i) <==> if i < n then Bit(low, i) else Bit(high, i - n)
    decreases n
  {
    var v := high * Pow(2, n) + low;
    if n > 0 {
      var h := high * Pow(2, n - 1);
      assert v == 2 * h + low by { assert high * Pow(2, n) == high * (2 * Pow(2, n - 1)) == 2 * h; }
      EvenPlus(h, low);
      BitBelow(v, i);
      BitBelow(low, i);
      hide Bit;
      if i > 0 {
        SplitBit(high, low / 2, n - 1, i - 1);
      }
    }
  }

  lemma Pow2Step(n: nat)
    ensures Pow(2, n + 10) == 0x400 * Pow(2, n)
  {
    assert Pow(2, n + 2) == 2 * (2 * Pow(2, n)) && Pow(2, n + 4) == 2 * (2 * Pow(2, n + 2))
        && Pow(2, n + 6) == 2 * (2 * Pow(2, n + 4));
    assert Pow(2, n + 8) == 2 * (2 * Pow(2, n + 6)) && Pow(2, n + 10) == 2 * (2 * Pow(2, n + 8));
  }

  lemma Pow2Values()
    ensures Pow(2, 20) == 0x10_0000 && Pow(2, 54) == 0x40_0000_0000_0000
  {
    Pow2Step(0);
    Pow2Step(10);
    Pow2Step(20);
    Pow2Step(30);
    Pow2Step(40);
    assert Pow(2, 52) == 2 * (2 * Pow(2, 50)) && Pow(2, 54) == 2 * (2 * Pow(2, 52));
  }
}
