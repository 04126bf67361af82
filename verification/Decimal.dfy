/** printf("%d") (os-1k/common.c) and the decimal numbers it prints. */
module Decimal {
  import opened Basics

  const MINUS: byte := 45     // '-'
  const INT_MAX := 0x7fff_ffff
  const INT_MIN := -0x8000_0000

  type i32 = v: int | INT_MIN <= v <= INT_MAX

  predicate IsDigit(b: byte) { ZERO <= b <= ZERO + 9 }

  predicate AllDigits(s: seq<byte>) { forall i :: 0 <= i < |s| ==> IsDigit(s[i]) }

  /** The number that a string of digits denotes. */
  function DecValue(s: seq<byte>): nat
    requires AllDigits(s)
  {
    if s == [] then 0 else DecValue(s[..|s| - 1]) * 10 + (s[|s| - 1] - ZERO)
  }

  /** s is the decimal numeral of n: digits of that value, no leading zero. */
  predicate Canonical(s: seq<byte>, n: nat) {
    s != [] && AllDigits(s) && DecValue(s) == n && (s[0] == ZERO ==> |s| == 1)
  }

  function Numeral(n: nat): (s: seq<byte>)
    ensures AllDigits(s) && s != []
  {
    if n < 10 then [n + ZERO] else Numeral(n / 10) + [n % 10 + ZERO]
  }

  lemma {:induction false} NumeralCanonical(n: nat)
    ensures Canonical(Numeral(n), n)
    decreases n
  {
    if n < 10 {
      assert DecValue([n + ZERO][..0]) == 0;
    } else {
      NumeralCanonical(n / 10);
      var s := Numeral(n / 10);
      assert (s + [n % 10 + ZERO])[..|s|] == s;
      if s[0] == ZERO {
        LeadingZero(s);
      }
    }
  }

  lemma LeadingZero(s: seq<byte>)
    requires |s| == 1 && s[0] == ZERO
    ensures AllDigits(s) && DecValue(s) == 0
  {
    assert s[..0] == [];
  }

  lemma {:induction false} PositiveFront(s: seq<byte>)
    requires AllDigits(s) && s != [] && s[0] != ZERO
    ensures DecValue(s) > 0
    decreases |s|
  {
    if |s| > 1 {
      PositiveFront(s[..|s| - 1]);
    }
  }

  /** A number has one numeral. */
  lemma {:induction false} CanonicalUnique(s: seq<byte>, n: nat)
    requires Canonical(s, n)
    ensures s == Numeral(n)
    decreases |s|
  {
    var front, d := s[..|s| - 1], s[|s| - 1];
    assert s == front + [d];
    if |s| == 1 {
      assert front == [] && DecValue(front) == 0;
    } else {
      PositiveFront(front);
      CanonicalUnique(front, DecValue(front));
      assert n / 10 == DecValue(front) && n % 10 == d - ZERO;
    }
  }

  /** What printf prints for an int. */
  function Printed(value: int): seq<byte> {
    if value < 0 then [MINUS] + Numeral(-value) else Numeral(value)
  }

  /** A minus, byte 45, exactly in front of a negative number, then the numeral of the magnitude. */
  lemma PrintedMeaning(value: int)
    ensures value >= 0 ==> Canonical(Printed(value), value)
    ensures value < 0 ==> Printed(value)[0] == 45 && Canonical(Printed(value)[1..], -value)
  {
    NumeralCanonical(if value < 0 then -value else value);
  }

  lemma AppendDigit(s: seq<byte>, d: nat)
    requires AllDigits(s) && d < 10
    ensures AllDigits(s + [d + ZERO]) && DecValue(s + [d + ZERO]) == DecValue(s) * 10 + d
  {
    assert (s + [d + ZERO])[..|s|] == s;
  }

  /** Taking the leading digit off m: v counts the digits already printed. */
  lemma PeelDigit(n: nat, v: nat, m: nat, p: nat)
    requires p > 0 && n == v * (10 * p) + m && m < 10 * p
    ensures 0 <= m / p < 10 && 0 <= m % p < p && n == (v * 10 + m / p) * p + m % p
  {
    var d, r := m / p, m % p;
    assert m == d * p + r;
    assert v * (10 * p) == v * 10 * p;
    assert (v * 10 + d) * p == v * 10 * p + d * p;
    TenTimes(m, p);
  }

  /** The case 'd' of printf. The unsigned variables never wrap: divisor stops growing before
      it would pass the magnitude, and the magnitude of the least int is itself an unsigned. */
  method PrintDecimal(value: i32) returns (out: seq<byte>)
    ensures out == Printed(value)
    ensures var v: int := value;
            if v >= 0 then Canonical(out, v) else out != [] && out[0] == 45 && Canonical(out[1..], -v)
  {
    PrintedMeaning(value);
    hide Canonical, Numeral, Pow;
    out := [];
    var magnitude: u32 := if value < 0 then value + WORD_LIMIT else value;
    if value < 0 {
      out := [MINUS];
      magnitude := (WORD_LIMIT - magnitude) % WORD_LIMIT;
    }
    ghost var n := magnitude;
    ghost var v: int := value;
    assert n == if v < 0 then -v else v;
    var divisor := FindDivisor(magnitude);
    var digits := PrintDigits(magnitude, divisor);
    CanonicalUnique(digits, n);
    out := out + digits;
  }

  /** divisor = 1; while (magnitude / divisor > 9) divisor *= 10; */
  method FindDivisor(magnitude: u32) returns (divisor: u32)
    ensures exists k: nat :: divisor == Pow(10, k) && magnitude / divisor <= 9 && (k == 0 || divisor <= magnitude)
  {
    divisor := 1;
    ghost var k := 0;
    while magnitude / divisor > 9
      invariant divisor == Pow(10, k) && (k == 0 || divisor <= magnitude)
      decreases magnitude - divisor
    {
      TenTimes(magnitude, divisor);
      divisor := divisor * 10;
      k := k + 1;
    }
  }

  lemma TenTimes(m: nat, d: nat)
    requires d > 0
    ensures m / d > 9 ==> 10 * d <= m
  {
    assert m == d * (m / d) + m % d;
    assert m / d > 9 ==> d * (m / d) >= d * 10;
  }

  lemma Below(m: nat, d: nat)
    requires d > 0 && m / d <= 9
    ensures m < 10 * d
  {
    assert m == d * (m / d) + m % d;
    assert d * (m / d) <= d * 9;
  }

  /** out holds the leading digits of n, whose numeral has k + 1; left more follow, worth m. */
  ghost predicate Printing(n: nat, k: nat, out: seq<byte>, left: nat, m: nat) {
    && left <= k + 1 && |out| == k + 1 - left
    && AllDigits(out) && n == DecValue(out) * Pow(10, left) + m && m < Pow(10, left)
    && (out == [] ==> m == n) && (out != [] && out[0] == ZERO ==> k == 0)
  }

  lemma DigitPrinted(n: nat, k: nat, out: seq<byte>, left: nat, m: nat, d: nat)
    requires Printing(n, k, out, left, m) && left > 0 && d == Pow(10, left - 1) && (k == 0 || Pow(10, k) <= n)
    ensures m / d < 10 && Printing(n, k, out + [m / d + ZERO], left - 1, m % d)
    ensures d / 10 == if left == 1 then 0 else Pow(10, left - 2)
  {
    PeelDigit(n, DecValue(out), m, d);
    AppendDigit(out, m / d);
    FirstDigit(m, d);
    hide DecValue;
  }

  /** while (divisor > 0) { putchar('0' + magnitude / divisor); ... } */
  method PrintDigits(magnitude: u32, divisor: u32) returns (out: seq<byte>)
    requires exists k: nat :: divisor == Pow(10, k) && magnitude / divisor <= 9 && (k == 0 || divisor <= magnitude)
    ensures Canonical(out, magnitude)
  {
    ghost var k: nat :| divisor == Pow(10, k) && magnitude / divisor <= 9 && (k == 0 || divisor <= magnitude);
    Below(magnitude, divisor);
    var m: nat, d: nat := magnitude, divisor;
    ghost var left: nat := k + 1;
    out := [];
    assert Pow(10, left) == 10 * divisor && DecValue(out) == 0;
    assert Pow(10, 0) == 1;
    hide DecValue, Pow;
    while d > 0
      invariant left <= k + 1 && Printing(magnitude, k, out, left, m)
      invariant d == if left > 0 then Pow(10, left - 1) else 0
      decreases left
    {
      DigitPrinted(magnitude, k, out, left, m, d);
      out := out + [m / d + ZERO];
      m := m % d;
      left := left - 1;
      d := d / 10;
    }
    assert left == 0 && |out| == k + 1;
  }

  lemma FirstDigit(m: nat, d: nat)
    requires d > 0
    ensures d <= m ==> m / d > 0
  {
    assert m == d * (m / d) + m % d;
    assert m / d == 0 ==> d * (m / d) == 0;
  }
}
