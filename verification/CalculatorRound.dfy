/** One round of the calculator (os-1k/shell.c): readline into a 64-byte buffer, then the
    parser and the arithmetic on what was typed. */
module CalculatorRound {
  import opened Basics
  import Decimal
  import Readline
  import Calculator

  const LINE_SIZE := 64

  /** The keys that type text. */
  function Keys(text: seq<byte>): (keys: seq<Readline.Key>)
    requires forall i :: 0 <= i < |text| ==> text[i] < 0x80
    ensures |keys| == |text| && forall i :: 0 <= i < |text| ==> keys[i] == text[i]
  {
    seq(|text|, i requires 0 <= i < |text| => text[i])
  }

  predicate Plain(text: seq<byte>) { forall i :: 0 <= i < |text| ==> 0x20 <= text[i] < 0x7f }

  /** Plain text that fits, then Enter, is the line. */
  lemma {:induction false} PlainIsTyped(done: seq<byte>, text: seq<byte>, rest: seq<Readline.Key>, cap: nat)
    requires Plain(text) && |done| + |text| <= cap
    ensures Readline.Typed(done, Keys(text) + [Readline.NEWLINE] + rest, cap).0 == done + text
    decreases |text|
  {
    var keys := Keys(text) + [Readline.NEWLINE] + rest;
    if text == [] {
      assert keys[0] == Readline.NEWLINE;
      assert done + text == done;
    } else {
      assert keys[0] == text[0] && !Readline.EndsLine(keys[0]);
      assert keys[1..] == Keys(text[1..]) + [Readline.NEWLINE] + rest;
      assert Readline.Edit(done, keys[0]) == done + [text[0]];
      PlainIsTyped(done + [text[0]], text[1..], rest, cap);
      assert done + [text[0]] + text[1..] == done + text;
    }
  }

  /** The bytes of a typed expression, without the NUL. */
  function Text(b0: nat, a: Decimal.i32, b1: nat, op: byte, b2: nat, b: Decimal.i32): seq<byte> {
    Blanks(b0) + Decimal.Printed(a) + Blanks(b1) + [op] + Blanks(b2) + Decimal.Printed(b)
  }

  lemma PrintedPlain(v: int)
    ensures Plain(Decimal.Printed(v))
  {
    var n: nat := if v < 0 then -v else v;
    assert forall i :: 0 <= i < |Decimal.Numeral(n)| ==> Decimal.IsDigit(Decimal.Numeral(n)[i]);
  }

  lemma TextPlain(b0: nat, a: Decimal.i32, b1: nat, op: byte, b2: nat, b: Decimal.i32)
    requires Calculator.IsOp(op)
    ensures Plain(Text(b0, a, b1, op, b2, b))
    ensures Text(b0, a, b1, op, b2, b) + [0] == Calculator.Typed(b0, a, b1, op, b2, b)
  {
    PrintedPlain(a);
    PrintedPlain(b);
    hide Decimal.Printed;
  }

  /** What the calculator answers to the keys of one round. */
  function RoundReply(keys: seq<Readline.Key>): Calculator.Answer {
    Calculator.Reply(Readline.Typed([], keys, LINE_SIZE - 1).0 + [0])
  }

  /** Typing an expression of at most 63 bytes and Enter gets its value printed, exactly unless
      an operand or the value is out of range along the way, or it divides by zero. Operators by
      their codes; division rounds toward zero. */
  lemma ExpressionAnswered(b0: nat, a: Decimal.i32, b1: nat, c: byte, b2: nat, b: Decimal.i32, rest: seq<Readline.Key>)
    returns (r: int)
    requires c == 43 || c == 45 || c == 42 || c == 47
    requires |Text(b0, a, b1, c, b2, b)| < 64
    ensures Plain(Text(b0, a, b1, c, b2, b))
    ensures RoundReply(Keys(Text(b0, a, b1, c, b2, b)) + [Readline.NEWLINE] + rest) ==
            if a == Decimal.INT_MIN || b == Decimal.INT_MIN then Calculator.Overflowed
            else if c == 47 && b == 0 then Calculator.DivisionByZero
            else if -0x8000_0000 <= r <= 0x7fff_ffff then Calculator.Result(Decimal.Printed(r))
            else Calculator.Overflowed
    ensures (c == 43 ==> r == a + b) && (c == 45 ==> r == a - b) && (c == 42 ==> r == a * b)
    ensures var left := a - r * b;
            c == 47 && b != 0 ==>
              && (if b > 0 then 0 < left + b && left < b else left + b < 0 && b < left)
              && (a >= 0 ==> left >= 0) && (a <= 0 ==> left <= 0)
  {
    assert Calculator.IsOp(c);
    TextPlain(b0, a, b1, c, b2, b);
    var text := Text(b0, a, b1, c, b2, b);
    hide Text, Calculator.Reply, Decimal.Printed, Readline.Typed;
    PlainIsTyped([], text, rest, LINE_SIZE - 1);
    assert [] + text == text;
    r := Calculator.TypedIsAnswered(b0, a, b1, c, b2, b);
  }

  /** Typing a number and then tail, which starts with the first byte that is no blank: the answer
      is the operator error exactly if there is none, or it is no operator. */
  lemma OperatorError(b0: nat, a: Decimal.i32, b1: nat, tail: seq<byte>, rest: seq<Readline.Key>)
    requires a != Decimal.INT_MIN && Plain(tail)
    requires tail != [] ==> tail[0] != BLANK && (b1 == 0 ==> !Decimal.IsDigit(tail[0]))
    requires b0 + |Decimal.Printed(a)| + b1 + |tail| < 64
    ensures var text := Blanks(b0) + Decimal.Printed(a) + Blanks(b1) + tail;
            && Plain(text)
            && (RoundReply(Keys(text) + [Readline.NEWLINE] + rest) == Calculator.Error <==>
                  tail == [] || (tail[0] != 43 && tail[0] != 45 && tail[0] != 42 && tail[0] != 47))
  {
    PrintedPlain(a);
    hide Decimal.Printed, Readline.Typed, Calculator.Reply;
    var text := Blanks(b0) + Decimal.Printed(a) + Blanks(b1) + tail;
    PlainIsTyped([], text, rest, LINE_SIZE - 1);
    assert [] + text == text;
    var c := if tail == [] then 0 else tail[0];
    assert Blanks(b0) + Decimal.Printed(a) + Blanks(b1) + [c] <= text + [0];
    Calculator.WrongOperator(text + [0], b0, a, b1, c);
  }

  /** One round: the line, its answer, and the input consumed. */
  method Round(console: Readline.Console, line: array<byte>) returns (answer: Calculator.Answer)
    requires line.Length == LINE_SIZE
    requires console.at <= |console.input| && Readline.HasNewline(console.input[console.at..])
    modifies console`at, console`output, line
    ensures answer == RoundReply(console.input[old(console.at)..])
    ensures console.at == old(console.at) + Readline.Consumed(console.input[old(console.at)..], LINE_SIZE - 1)
  {
    hide Calculator.Reply, Readline.Typed, Readline.Consumed, Readline.HasNewline;
    ghost var keys := console.input[console.at..];
    var n := Readline.ReadLine(console, line, LINE_SIZE);
    assert line[..n + 1] == Readline.Typed([], keys, LINE_SIZE - 1).0 + [0];
    answer := Calculator.Calculate(line[..n + 1]);
  }
}
