/** The shell's calculator (os-1k/shell.c): its parser on a NUL-terminated line, and the
    arithmetic on 32-bit ints. Signed overflow is undefined in C and is an outcome here. */
module Calculator {
  import opened Basics
  import opened Decimal

  const PLUS: byte := 43
  const TIMES: byte := 42
  const SLASH: byte := 47

  predicate IsOp(b: byte) { b == PLUS || b == MINUS || b == TIMES || b == SLASH }

  /** A C string: the parser stops at the NUL, which is neither blank, digit nor operator. */
  predicate Terminated(line: seq<byte>) { line != [] && line[|line| - 1] == 0 }

  /** while (line[i] == ' ') i++; */
  function SkipBlanks(line: seq<byte>, i: nat): (j: nat)
    requires Terminated(line) && i < |line|
    ensures i <= j < |line| && line[j] != BLANK && forall k :: i <= k < j ==> line[k] == BLANK
    decreases |line| - i
  {
    if line[i] == BLANK then SkipBlanks(line, i + 1) else i
  }

  function SkipDigits(line: seq<byte>, i: nat): (j: nat)
    requires Terminated(line) && i < |line|
    ensures i <= j < |line| && !IsDigit(line[j]) && AllDigits(line[i..j])
    decreases |line| - i
  {
    if IsDigit(line[i]) then
      var j := SkipDigits(line, i + 1);
      assert line[i..j] == [line[i]] + line[i + 1..j];
      j
    else i
  }

  /** An optional minus and digits; None is the overflow of the digits' value. */
  datatype Number = Value(num: int) | Overflow

  function NumberStart(line: seq<byte>, i: nat): nat
    requires i < |line|
  {
    if line[i] == MINUS then i + 1 else i
  }

  lemma StartInside(line: seq<byte>, i: nat)
    requires Terminated(line) && i < |line|
    ensures NumberStart(line, i) < |line|
  {
  }

  function NumberEnd(line: seq<byte>, i: nat): (j: nat)
    requires Terminated(line) && i < |line|
    ensures i <= j < |line|
  {
    StartInside(line, i);
    SkipDigits(line, NumberStart(line, i))
  }

  function NumberAt(line: seq<byte>, i: nat): Number
    requires Terminated(line) && i < |line|
  {
    StartInside(line, i);
    var v: int := DecValue(line[NumberStart(line, i)..NumberEnd(line, i)]);
    if v > INT_MAX then Overflow else if line[i] == MINUS then Value(-v) else Value(v)
  }

  datatype Parsed = Expr(num1: int, op: byte, num2: int) | InvalidOperator | Undefined

  function Parse(line: seq<byte>): Parsed
    requires Terminated(line)
  {
    var i := SkipBlanks(line, 0);
    var n1 := NumberAt(line, i);
    var j := SkipBlanks(line, NumberEnd(line, i));
    if n1.Overflow? then Undefined
    else if !IsOp(line[j]) then InvalidOperator
    else
      OpInside(line, j);
      var k := SkipBlanks(line, j + 1);
      match NumberAt(line, k)
      case Overflow => Undefined
      case Value(n2) => Expr(n1.num, line[j], n2)
  }

  lemma OpInside(line: seq<byte>, j: nat)
    requires Terminated(line) && j < |line| && IsOp(line[j])
    ensures j + 1 < |line|
  {
  }

  // ---------------------------------------------------------------- reading back what was printed

  lemma SkipBlanksIs(line: seq<byte>, i: nat, j: nat)
    requires Terminated(line) && i <= j < |line| && line[j] != BLANK
    requires forall k :: i <= k < j ==> line[k] == BLANK
    ensures SkipBlanks(line, i) == j
    decreases j - i
  {
    if i < j {
      SkipBlanksIs(line, i + 1, j);
    }
  }

  lemma SkipDigitsIs(line: seq<byte>, i: nat, j: nat)
    requires Terminated(line) && i <= j < |line| && !IsDigit(line[j])
    requires forall k :: i <= k < j ==> IsDigit(line[k])
    ensures SkipDigits(line, i) == j
    decreases j - i
  {
    if i < j {
      SkipDigitsIs(line, i + 1, j);
    }
  }

  /** Any digits, also none or with leading zeros, after a minus or not, up to something that is no
      digit: their value, negated for the minus, unless it is beyond the largest int. */
  lemma DigitsRead(line: seq<byte>, i: nat, minus: bool, ds: seq<byte>)
    requires Terminated(line) && AllDigits(ds)
    requires var text := (if minus then [45] else []) + ds;
             && i + |text| < |line| && line[i..i + |text|] == text && !IsDigit(line[i + |text|])
    requires !minus ==> line[i] != 45
    ensures NumberEnd(line, i) == i + |ds| + if minus then 1 else 0
    ensures var v: int := DecValue(ds);
            NumberAt(line, i) == if v > 0x7fff_ffff then Overflow else Value(if minus then -v else v)
  {
    hide DecValue;
    var text: seq<byte> := (if minus then [45] else []) + ds;
    var start, end := if minus then i + 1 else i, i + |text|;
    assert line[start..end] == ds by {
      assert line[start..end] == line[i..end][start - i..] && ds == text[start - i..];
    }
    assert minus ==> line[i] == line[i..end][0] == 45;
    forall k | start <= k < end
      ensures IsDigit(line[k])
    {
      assert line[k] == ds[k - start];
    }
    SkipDigitsIs(line, start, end);
  }

  /** A printed int, followed by something that is no digit, is read back; only the least int
      is not, because its magnitude does not fit. */
  lemma PrintedReadsBack(line: seq<byte>, i: nat, v: i32)
    requires Terminated(line) && i + |Printed(v)| < |line|
    requires line[i..i + |Printed(v)|] == Printed(v) && !IsDigit(line[i + |Printed(v)|])
    ensures NumberEnd(line, i) == i + |Printed(v)|
    ensures NumberAt(line, i) == if v == INT_MIN then Overflow else Value(v)
    ensures line[i] != BLANK
  {
    var w: int := v;
    var m: nat := if w < 0 then -w else w;
    NumeralCanonical(m);
    hide Numeral, DecValue, NumberAt, NumberEnd;
    assert line[i] == line[i..i + |Printed(v)|][0] == Printed(v)[0];
    DigitsRead(line, i, w < 0, Numeral(m));
  }

  /** A typed expression: printed operands, any blanks around them. */
  function Typed(b0: nat, a: int, b1: nat, op: byte, b2: nat, b: int): seq<byte> {
    Blanks(b0) + Printed(a) + Blanks(b1) + [op] + Blanks(b2) + Printed(b) + [0]
  }

  /** The parser recovers every typed expression, exactly unless an operand is the least int. */
  lemma ParseTyped(b0: nat, a: i32, b1: nat, op: byte, b2: nat, b: i32)
    requires IsOp(op)
    ensures Terminated(Typed(b0, a, b1, op, b2, b))
    ensures Parse(Typed(b0, a, b1, op, b2, b)) == if a == INT_MIN || b == INT_MIN then Undefined else Expr(a, op, b)
  {
    hide Typed, Printed, NumberAt, NumberEnd, SkipBlanks, Parse;
    var line := Typed(b0, a, b1, op, b2, b);
    var i1 := b0;
    var e1 := i1 + |Printed(a)|;
    var j := e1 + b1;
    var i2 := j + 1 + b2;
    var e2 := i2 + |Printed(b)|;
    Pieces(b0, a, b1, op, b2, b);
    PrintedNotEmpty(a);
    PrintedNotEmpty(b);
    BlankOrOp(line, e1, j);
    PrintedReadsBack(line, i1, a);
    PrintedReadsBack(line, i2, b);
    SkipBlanksIs(line, 0, i1);
    SkipBlanksIs(line, e1, j);
    SkipBlanksIs(line, j + 1, i2);
    ParseParts(line, i1, j, i2);
  }

  lemma BlankOrOp(line: seq<byte>, e: nat, j: nat)
    requires e <= j < |line| && IsOp(line[j]) && forall k :: e <= k < j ==> line[k] == BLANK
    ensures !IsDigit(line[e]) && line[j] != BLANK
  {
  }

  lemma ParseParts(line: seq<byte>, i: nat, j: nat, k: nat)
    requires Terminated(line) && i < |line| && SkipBlanks(line, 0) == i && SkipBlanks(line, NumberEnd(line, i)) == j
    requires IsOp(line[j]) && j + 1 < |line| && SkipBlanks(line, j + 1) == k
    ensures Parse(line) == match (NumberAt(line, i), NumberAt(line, k))
                           case (Value(a), Value(b)) => Expr(a, line[j], b)
                           case _ => Undefined
  {
    hide SkipBlanks, NumberAt, NumberEnd;
  }

  lemma PrintedNotEmpty(v: int)
    ensures |Printed(v)| > 0
  {
  }

  lemma Pieces(b0: nat, a: i32, b1: nat, op: byte, b2: nat, b: i32)
    requires IsOp(op)
    ensures var line := Typed(b0, a, b1, op, b2, b);
            var e1 := b0 + |Printed(a)|;
            var j := e1 + b1;
            var i2 := j + 1 + b2;
            && |line| == i2 + |Printed(b)| + 1 && line[|line| - 1] == 0
            && line[b0..e1] == Printed(a) && line[i2..i2 + |Printed(b)|] == Printed(b) && line[j] == op
            && (forall k :: 0 <= k < b0 ==> line[k] == BLANK) && (forall k :: e1 <= k < j ==> line[k] == BLANK)
            && (forall k :: j + 1 <= k < i2 ==> line[k] == BLANK)
  {
    hide Printed;
    var line := Typed(b0, a, b1, op, b2, b);
    var p, q := Printed(a), Printed(b);
    assert line[b0..b0 + |p|] == p;
    var i2 := b0 + |p| + b1 + 1 + b2;
    assert line[i2..i2 + |q|] == q;
  }

  // ---------------------------------------------------------------- arithmetic

  function Magnitude(a: int): (m: nat)
    ensures a != 0 ==> m > 0
  {
    if a < 0 then -a else a
  }

  /** C division rounds towards zero. */
  function TruncDiv(a: int, b: int): int
    requires b != 0
  {
    var q := Magnitude(a) / Magnitude(b);
    if (a < 0) == (b < 0) then q else -q
  }

  /** The quotient leaves a remainder smaller than the divisor, with the dividend's sign. */
  lemma TruncDivMeaning(a: int, b: int)
    requires b != 0
    ensures var r := a - TruncDiv(a, b) * b;
            && (if b < 0 then b < r < -b else -b < r < b)
            && (a >= 0 ==> r >= 0) && (a <= 0 ==> r <= 0)
  {
    var q, r := DivMod(Magnitude(a), Magnitude(b));
    SignedQuotient(a, b, TruncDiv(a, b), q, r, Magnitude(b));
  }

  lemma DivMod(m: nat, d: nat) returns (q: nat, r: nat)
    requires d > 0
    ensures q == m / d && m == q * d + r && r < d
  {
    q, r := m / d, m % d;
  }

  /** The quotient of the magnitudes, with the signs put back. */
  lemma SignedQuotient(a: int, b: int, t: int, q: int, r: int, d: int)
    requires b != 0 && 0 <= r < d && d == (if b < 0 then -b else b)
    requires (if a < 0 then -a else a) == q * d + r && t == (if (a < 0) == (b < 0) then q else -q)
    ensures a - t * b == if a < 0 then -r else r
  {
    if b > 0 {
      assert t * b == if a < 0 then -(q * d) else q * d;
    } else {
      assert (-q) * b == q * d && q * b == -(q * d);
    }
  }

  datatype Answer = Quit | Error | DivisionByZero | Result(text: seq<byte>) | Overflowed

  function Compute(a: int, op: byte, b: int): int
    requires IsOp(op) && (op == SLASH ==> b != 0)
  {
    if op == PLUS then a + b else if op == MINUS then a - b else if op == TIMES then a * b else TruncDiv(a, b)
  }

  /** One round of the calculator on a line. */
  function Reply(line: seq<byte>): Answer
    requires Terminated(line)
  {
    if line[0] == 113 && line[1] == 0 then Quit
    else
      match Parse(line)
      case Undefined => Overflowed
      case InvalidOperator => Error
      case Expr(a, op, b) =>
        if op == SLASH && b == 0 then DivisionByZero
        else if IsOp(op) && INT_MIN <= Compute(a, op, b) <= INT_MAX then Result(Printed(Compute(a, op, b)))
        else Overflowed
  }

  /** What the operator with code c makes of a and b; division rounds toward zero. */
  lemma ComputeByCode(a: int, c: byte, b: int)
    requires c == 43 || c == 45 || c == 42 || (c == 47 && b != 0)
    ensures IsOp(c)
    ensures var r := Compute(a, c, b);
            && (c == 43 ==> r == a + b) && (c == 45 ==> r == a - b) && (c == 42 ==> r == a * b)
            && var left := a - r * b;
            c == 47 ==> && (if b > 0 then 0 < left + b && left < b else left + b < 0 && b < left)
                        && (a >= 0 ==> left >= 0) && (a <= 0 ==> left <= 0)
  {
    if c == 47 {
      TruncDivMeaning(a, b);
    }
    hide TruncDiv;
  }

  /** Every typed expression gets its value printed, exactly unless an operand or the value is
      out of range along the way, or it divides by zero. The operators by their codes. */
  lemma TypedIsAnswered(b0: nat, a: i32, b1: nat, c: byte, b2: nat, b: i32) returns (r: int)
    requires c == 43 || c == 45 || c == 42 || c == 47
    ensures Terminated(Typed(b0, a, b1, c, b2, b))
    ensures Reply(Typed(b0, a, b1, c, b2, b)) ==
            if a == INT_MIN || b == INT_MIN then Overflowed
            else if c == 47 && b == 0 then DivisionByZero
            else if -0x8000_0000 <= r <= 0x7fff_ffff then Result(Printed(r)) else Overflowed
    ensures (c == 43 ==> r == a + b) && (c == 45 ==> r == a - b) && (c == 42 ==> r == a * b)
    ensures var left := a - r * b;
            c == 47 && b != 0 ==>
              && (if b > 0 then 0 < left + b && left < b else left + b < 0 && b < left)
              && (a >= 0 ==> left >= 0) && (a <= 0 ==> left <= 0)
  {
    hide Typed, Parse, Printed, Compute;
    ParseTyped(b0, a, b1, c, b2, b);
    var line := Typed(b0, a, b1, c, b2, b);
    Pieces(b0, a, b1, c, b2, b);
    FirstPrinted(a);
    assert line[0] == if b0 > 0 then BLANK else line[b0..b0 + |Printed(a)|][0];
    if c != 47 || b != 0 {
      ComputeByCode(a, c, b);
      return Compute(a, c, b);
    }
    return 0;
  }

  /** On any line: the answer is the operator error exactly if the byte behind the first number
      and the blanks after it is none of the four operators. */
  lemma ErrorExactly(line: seq<byte>)
    requires Terminated(line)
    ensures var i := SkipBlanks(line, 0);
            var j := SkipBlanks(line, NumberEnd(line, i));
            Reply(line) == Error <==>
              && !(line[0] == 113 && line[1] == 0) && NumberAt(line, i).Value?
              && line[j] != 43 && line[j] != 45 && line[j] != 42 && line[j] != 47
    ensures Reply(line) == Quit <==> line[0] == 113 && line[1] == 0
  {
    hide SkipBlanks, NumberEnd, NumberAt;
  }

  /** A line that starts with a printed number, up to the byte c behind its blanks. */
  lemma WrongOperator(line: seq<byte>, b0: nat, a: i32, b1: nat, c: byte)
    requires Terminated(line) && a != INT_MIN && c != BLANK && (b1 == 0 ==> !IsDigit(c))
    requires Blanks(b0) + Printed(a) + Blanks(b1) + [c] <= line
    ensures Reply(line) == Error <==> c != 43 && c != 45 && c != 42 && c != 47
  {
    var start := Blanks(b0) + Printed(a) + Blanks(b1) + [c];
    var e := b0 + |Printed(a)|;
    FirstPrinted(a);
    hide Printed, NumberAt, NumberEnd, SkipBlanks, Reply;
    assert forall k :: 0 <= k < |start| ==> line[k] == start[k];
    assert line[b0..e] == Printed(a) by { assert start[b0..e] == Printed(a); }
    assert line[e + b1] == c && forall k :: e <= k < e + b1 ==> line[k] == BLANK;
    PrintedReadsBack(line, b0, a);
    SkipBlanksIs(line, 0, b0);
    SkipBlanksIs(line, e, e + b1);
    ErrorExactly(line);
    assert line[0] == if b0 > 0 then BLANK else line[b0..e][0];
  }

  lemma FirstPrinted(a: int)
    ensures |Printed(a)| > 0 && (Printed(a)[0] == MINUS || IsDigit(Printed(a)[0]))
  {
  }

  // ---------------------------------------------------------------- the loops

  method SkipSpaces(line: seq<byte>, start: nat) returns (i: nat)
    requires Terminated(line) && start < |line|
    ensures i == SkipBlanks(line, start)
  {
    i := start;
    while line[i] == BLANK
      invariant start <= i < |line| && SkipBlanks(line, start) == SkipBlanks(line, i)
      decreases |line| - i
    {
      i := i + 1;
    }
  }

  lemma DigitStep(line: seq<byte>, first: nat, i: nat)
    requires Terminated(line) && first <= i < |line| && AllDigits(line[first..i]) && IsDigit(line[i])
    ensures i + 1 < |line| && AllDigits(line[first..i + 1]) && line[i] >= ZERO
    ensures DecValue(line[first..i + 1]) == DecValue(line[first..i]) * 10 + (line[i] - ZERO)
    ensures SkipDigits(line, i) == SkipDigits(line, i + 1)
  {
    AppendDigit(line[first..i], line[i] - ZERO);
    assert line[first..i + 1] == line[first..i] + [line[i]];
    hide DecValue;
  }

  lemma NoDigit(line: seq<byte>, i: nat)
    requires Terminated(line) && i < |line| && !IsDigit(line[i])
    ensures SkipDigits(line, i) == i
  {
  }

  /** The number at start, and the index behind it. */
  method ReadNumber(line: seq<byte>, start: nat) returns (n: Number, i: nat)
    requires Terminated(line) && start < |line|
    ensures n == NumberAt(line, start) && i == NumberEnd(line, start)
  {
    i := start;
    var num: nat := 0;
    var negative := false;
    StartInside(line, start);
    if line[i] == MINUS {
      negative := true;
      i := i + 1;
    }
    ghost var first := i;
    assert line[first..i] == [] && DecValue([]) == 0;
    hide DecValue, SkipDigits, AllDigits, IsDigit;
    while IsDigit(line[i])
      invariant first <= i < |line| && SkipDigits(line, first) == SkipDigits(line, i)
      invariant AllDigits(line[first..i]) && num == DecValue(line[first..i])
      decreases |line| - i
    {
      DigitStep(line, first, i);
      num := num * 10 + (line[i] - ZERO);
      i := i + 1;
    }
    NoDigit(line, i);
    if num > INT_MAX {
      return Overflow, i;
    }
    return Value(if negative then -(num as int) else num), i;
  }

  method Calculate(line: seq<byte>) returns (answer: Answer)
    requires Terminated(line)
    ensures answer == Reply(line)
  {
    hide SkipBlanks, NumberAt, NumberEnd, Printed, TruncDiv;
    if line[0] == 113 && line[1] == 0 {
      return Quit;
    }
    var i := SkipSpaces(line, 0);
    var n1, after1 := ReadNumber(line, i);
    i := SkipSpaces(line, after1);
    if n1.Overflow? {
      return Overflowed;
    }
    var op := line[i];
    if !IsOp(op) {
      return Error;
    }
    OpInside(line, i);
    i := SkipSpaces(line, i + 1);
    var n2, after2 := ReadNumber(line, i);
    if n2.Overflow? {
      return Overflowed;
    }
    var a, b := n1.num, n2.num;
    if op == SLASH && b == 0 {
      return DivisionByZero;
    }
    var result := Compute(a, op, b);
    if result < INT_MIN || result > INT_MAX {
      return Overflowed;
    }
    var text := PrintDecimal(result);
    return Result(text);
  }
}
