/** readline (os-1k/user.c): the line it returns, and what a terminal that executes the bytes
    it echoes shows at every step. */
module Readline {
  import opened Basics

  const BACKSPACE := 0x08
  const DEL := 0x7f
  const NEWLINE := 10
  const RETURN := 13

  /** What getchar returns: a signed byte other than -1. */
  type Key = k: int | -0x80 <= k < 0x80 && k != -1

  predicate EndsLine(ch: Key) { ch == NEWLINE || ch == RETURN }

  predicate Erases(ch: Key) { ch == BACKSPACE || ch == DEL }

  predicate Printable(ch: Key) { 0x20 <= ch < 0x7f }

  /** One key inside the line. */
  function Edit(s: seq<byte>, ch: Key): seq<byte> {
    if Erases(ch) then (if s == [] then s else s[..|s| - 1])
    else if Printable(ch) then s + [ch]
    else s
  }

  /** The line typed by keys, starting from s: it is complete at a newline, or as soon as it
      holds cap bytes; the second part counts the keys up to there. */
  function Typed(s: seq<byte>, keys: seq<Key>, cap: nat): (seq<byte>, nat)
    decreases |keys|
  {
    if keys == [] || |s| >= cap then (s, 0)
    else if EndsLine(keys[0]) then (s, 1)
    else var (line, n) := Typed(Edit(s, keys[0]), keys[1..], cap); (line, n + 1)
  }

  predicate HasNewline(keys: seq<Key>) { exists i :: 0 <= i < |keys| && EndsLine(keys[i]) }

  /** Keys up to and including the first newline. */
  function UpToNewline(keys: seq<Key>): (n: nat)
    ensures n <= |keys|
  {
    if keys == [] then 0 else if EndsLine(keys[0]) then 1 else 1 + UpToNewline(keys[1..])
  }

  /** Keys that readline consumes: those of the line, and when it filled up all that follow
      up to the newline. */
  function Consumed(keys: seq<Key>, cap: nat): nat {
    var (line, n) := Typed([], keys, cap);
    if |line| >= cap && n <= |keys| then n + UpToNewline(keys[n..]) else n
  }

  /** Backspace and DEL take the last byte of the line back. */
  lemma EraseTakesLast(s: seq<byte>, b: byte, e: Key, keys: seq<Key>, cap: nat)
    requires |s| + 1 < cap && (e == 0x08 || e == 0x7f)
    ensures Typed(s + [b], [e] + keys, cap).0 == Typed(s, keys, cap).0
    ensures Typed(s + [b], [e] + keys, cap).1 == Typed(s, keys, cap).1 + 1
  {
    assert ([e] + keys)[1..] == keys && (s + [b])[..|s|] == s;
  }

  /** They do nothing on an empty line, and no other control key or byte from 0x80 up ever does. */
  lemma IgnoredKey(s: seq<byte>, e: Key, keys: seq<Key>, cap: nat)
    requires |s| < cap && e != 10 && e != 13
    requires if e == 0x08 || e == 0x7f then s == [] else e < 0x20
    ensures Typed(s, [e] + keys, cap).0 == Typed(s, keys, cap).0
    ensures Typed(s, [e] + keys, cap).1 == Typed(s, keys, cap).1 + 1
  {
    assert ([e] + keys)[1..] == keys;
  }

  /** A printable key that is taken back leaves no trace. */
  lemma ErasedKey(s: seq<byte>, c: Key, e: Key, keys: seq<Key>, cap: nat)
    requires |s| + 1 < cap && 0x20 <= c < 0x7f && (e == 0x08 || e == 0x7f)
    ensures Typed(s, [c, e] + keys, cap).0 == Typed(s, keys, cap).0
  {
    assert ([c, e] + keys)[1..] == [e] + keys;
    EraseTakesLast(s, c, e, keys, cap);
  }

  /** Key n - 1 is the first that is a newline or a return. */
  ghost predicate FirstEnd(keys: seq<Key>, n: nat) {
    && 0 < n <= |keys| && (keys[n - 1] == 10 || keys[n - 1] == 13)
    && forall i :: 0 <= i < n - 1 ==> keys[i] != 10 && keys[i] != 13
  }

  lemma {:induction false} SkippedLine(keys: seq<Key>)
    requires HasNewline(keys)
    ensures FirstEnd(keys, UpToNewline(keys))
    decreases |keys|
  {
    var i :| 0 <= i < |keys| && EndsLine(keys[i]);
    if !EndsLine(keys[0]) {
      assert EndsLine(keys[1..][i - 1]);
      SkippedLine(keys[1..]);
    }
  }

  /** The line ends at the first newline, or was full before it. */
  lemma {:induction false} TypedStops(s: seq<byte>, keys: seq<Key>, cap: nat)
    requires |s| <= cap && HasNewline(keys)
    ensures var (line, n) := Typed(s, keys, cap);
            if |line| < cap then FirstEnd(keys, n)
            else |line| == cap && n <= |keys| && forall i :: 0 <= i < n ==> keys[i] != 10 && keys[i] != 13
    decreases |keys|
  {
    if |s| < cap {
      TypedStep(s, keys, cap);
      if !EndsLine(keys[0]) {
        hide HasNewline;
        TypedStops(Edit(s, keys[0]), keys[1..], cap);
      }
    }
  }

  /** Whatever is typed, edited or cut off: readline consumes the input up to and including the
      first newline or return, so an overlong line is discarded to its end and no further. */
  lemma ConsumesLine(keys: seq<Key>, cap: nat)
    requires HasNewline(keys)
    ensures var n := Consumed(keys, cap);
            && 0 < n <= |keys| && (keys[n - 1] == 10 || keys[n - 1] == 13)
            && forall i :: 0 <= i < n - 1 ==> keys[i] != 10 && keys[i] != 13
  {
    var (line, n) := Typed([], keys, cap);
    TypedStops([], keys, cap);
    if |line| >= cap {
      var k :| 0 <= k < |keys| && EndsLine(keys[k]);
      assert EndsLine(keys[n..][k - n]);
      SkippedLine(keys[n..]);
      hide Typed, UpToNewline, EndsLine;
      EndBehind(keys, n, UpToNewline(keys[n..]));
    }
  }

  lemma EndBehind(keys: seq<Key>, n: nat, k: nat)
    requires n <= |keys| && FirstEnd(keys[n..], k) && forall i :: 0 <= i < n ==> keys[i] != 10 && keys[i] != 13
    ensures FirstEnd(keys, n + k)
  {
    var rest := keys[n..];
    assert keys[n + k - 1] == rest[k - 1];
    forall i | n <= i < n + k - 1
      ensures keys[i] != 10 && keys[i] != 13
    {
      assert keys[i] == rest[i - n];
    }
  }

  // ---------------------------------------------------------------- the terminal

  /** One line of cells, blank where nothing was written, and the cursor. */
  datatype Terminal = Terminal(cells: seq<byte>, cursor: nat)

  function Cell(t: Terminal, i: nat): byte { if i < |t.cells| then t.cells[i] else BLANK }

  /** Execute one output byte: backspace moves left, anything printable overwrites. */
  function Show(t: Terminal, b: byte): Terminal {
    if b == BACKSPACE then t.(cursor := if t.cursor > 0 then t.cursor - 1 else 0)
    else if t.cursor < |t.cells| then Terminal(t.cells[t.cursor := b], t.cursor + 1)
    else Terminal(t.cells + seq(t.cursor - |t.cells|, _ => BLANK) + [b], t.cursor + 1)
  }

  function ShowAll(t: Terminal, out: seq<byte>): Terminal
    decreases |out|
  {
    if out == [] then t else Show(ShowAll(t, out[..|out| - 1]), out[|out| - 1])
  }

  /** The terminal shows s, blanks behind it, and the cursor right after it. */
  ghost predicate Shows(t: Terminal, s: seq<byte>) {
    t.cursor == |s| && forall i: nat :: Cell(t, i) == if i < |s| then s[i] else BLANK
  }

  const EMPTY_LINE := Terminal([], 0)

  /** What readline echoes for one key. */
  function Echo(s: seq<byte>, ch: Key): seq<byte> {
    if Erases(ch) then (if s == [] then [] else [BACKSPACE, BLANK, BACKSPACE])
    else if Printable(ch) then [ch]
    else []
  }

  lemma {:induction false} ShowAppend(t: Terminal, a: seq<byte>, b: seq<byte>)
    ensures ShowAll(t, a + b) == ShowAll(ShowAll(t, a), b)
    decreases |b|
  {
    if b == [] {
      assert a + b == a;
    } else {
      assert (a + b)[..|a + b| - 1] == a + b[..|b| - 1];
      ShowAppend(t, a, b[..|b| - 1]);
    }
  }

  lemma ShowOne(t: Terminal, out: seq<byte>, b: byte)
    ensures ShowAll(t, out + [b]) == Show(ShowAll(t, out), b)
  {
    assert (out + [b])[..|out|] == out;
  }

  lemma ShowThree(t: Terminal, a: byte, b: byte, c: byte)
    ensures ShowAll(t, [a, b, c]) == Show(Show(Show(t, a), b), c)
    ensures ShowAll(t, [a]) == Show(t, a)
  {
    hide Show;
    ShowOne(t, [], a);
    ShowOne(t, [a], b);
    ShowOne(t, [a, b], c);
    assert [] + [a] == [a] && [a] + [b] == [a, b] && [a, b] + [c] == [a, b, c];
    assert ShowAll(t, []) == t;
  }

  /** A printable byte changes the cell under the cursor and no other. */
  lemma ShowWrites(t: Terminal, b: byte)
    requires b != BACKSPACE
    ensures Show(t, b).cursor == t.cursor + 1
    ensures forall i: nat :: Cell(Show(t, b), i) == if i == t.cursor then b else Cell(t, i)
  {
  }

  /** The echo of a key does to the screen what the key does to the line. */
  lemma EchoFollowsEdit(t: Terminal, s: seq<byte>, ch: Key)
    requires Shows(t, s)
    ensures Shows(ShowAll(t, Echo(s, ch)), Edit(s, ch))
  {
    if Erases(ch) && s != [] {
      ShowThree(t, BACKSPACE, BLANK, BACKSPACE);
      var back := Show(t, BACKSPACE);
      var wiped := Show(back, BLANK);
      ShowWrites(back, BLANK);
      assert forall i: nat :: Cell(back, i) == Cell(t, i);
      assert forall i: nat :: Cell(Show(wiped, BACKSPACE), i) == Cell(wiped, i);
      assert Shows(Show(wiped, BACKSPACE), s[..|s| - 1]);
    } else if Printable(ch) {
      ShowThree(t, ch, ch, ch);
      ShowWrites(t, ch);
      assert Shows(Show(t, ch), s + [ch]);
    } else {
      assert ShowAll(t, []) == t;
    }
  }

  /** The line and the echo after some keys, none of which ends the line. */
  function Line(keys: seq<Key>): seq<byte>
    decreases |keys|
  {
    if keys == [] then [] else Edit(Line(keys[..|keys| - 1]), keys[|keys| - 1])
  }

  function EchoOf(keys: seq<Key>): seq<byte>
    decreases |keys|
  {
    if keys == [] then [] else EchoOf(keys[..|keys| - 1]) + Echo(Line(keys[..|keys| - 1]), keys[|keys| - 1])
  }

  /** At every step the screen shows exactly the line. */
  lemma {:induction false} ScreenShowsLine(keys: seq<Key>)
    ensures Shows(ShowAll(EMPTY_LINE, EchoOf(keys)), Line(keys))
    decreases |keys|
  {
    if keys != [] {
      var before := keys[..|keys| - 1];
      ScreenShowsLine(before);
      EchoFollowsEdit(ShowAll(EMPTY_LINE, EchoOf(before)), Line(before), keys[|keys| - 1]);
      ShowAppend(EMPTY_LINE, EchoOf(before), Echo(Line(before), keys[|keys| - 1]));
    }
  }

  /** What readline has still to do at a point inside the line. */
  lemma TypedStep(s: seq<byte>, keys: seq<Key>, cap: nat)
    requires |s| < cap && HasNewline(keys)
    ensures keys != []
    ensures if EndsLine(keys[0]) then Typed(s, keys, cap) == (s, 1)
            else HasNewline(keys[1..])
                 && Typed(s, keys, cap) ==
                      (Typed(Edit(s, keys[0]), keys[1..], cap).0, Typed(Edit(s, keys[0]), keys[1..], cap).1 + 1)
  {
    var i :| 0 <= i < |keys| && EndsLine(keys[i]);
    if !EndsLine(keys[0]) {
      assert EndsLine(keys[1..][i - 1]);
    }
  }

  lemma LineStep(done: seq<Key>, key: Key)
    ensures Line(done + [key]) == Edit(Line(done), key)
    ensures |Edit(Line(done), key)| <= |Line(done)| + 1
  {
    assert (done + [key])[..|done|] == done;
  }

  /** m is the first point of keys at which the line started by done ends or is full. */
  ghost predicate CompleteAt(done: seq<Key>, keys: seq<Key>, cap: nat, m: nat) {
    && m <= |keys|
    && (forall i :: 0 <= i < m ==> !EndsLine(keys[i]) && |Line(done + keys[..i])| < cap)
    && (|Line(done + keys[..m])| == cap || (m < |keys| && EndsLine(keys[m])))
  }

  lemma PrefixShift(done: seq<Key>, keys: seq<Key>, j: nat)
    requires 0 < j <= |keys|
    ensures done + keys[..j] == done + [keys[0]] + keys[1..][..j - 1]
  {
  }

  lemma CompleteLater(done: seq<Key>, keys: seq<Key>, cap: nat, k: nat)
    requires keys != [] && !EndsLine(keys[0]) && |Line(done)| < cap && CompleteAt(done + [keys[0]], keys[1..], cap, k)
    ensures CompleteAt(done, keys, cap, k + 1) && done + keys[..k + 1] == done + [keys[0]] + keys[1..][..k]
  {
    hide Line, EndsLine;
    forall i | 0 <= i < k + 1
      ensures !EndsLine(keys[i]) && |Line(done + keys[..i])| < cap
    {
      if i == 0 {
        assert done + keys[..0] == done;
      } else {
        PrefixShift(done, keys, i);
        assert !EndsLine(keys[1..][i - 1]);
      }
    }
    PrefixShift(done, keys, k + 1);
  }

  /** The line readline completes is the fold of the edits over the keys before the first
      newline, cut at the first point where it is full. */
  lemma {:induction false} TypedIsFold(done: seq<Key>, keys: seq<Key>, cap: nat) returns (m: nat)
    requires |Line(done)| <= cap && HasNewline(keys)
    ensures CompleteAt(done, keys, cap, m)
    ensures Typed(Line(done), keys, cap).0 == Line(done + keys[..m])
    decreases |keys|
  {
    hide Line, EndsLine, HasNewline, Edit;
    if |Line(done)| == cap {
      assert done + keys[..0] == done;
      return 0;
    }
    TypedStep(Line(done), keys, cap);
    if EndsLine(keys[0]) {
      assert done + keys[..0] == done;
      return 0;
    }
    LineStep(done, keys[0]);
    var k := TypedIsFold(done + [keys[0]], keys[1..], cap);
    CompleteLater(done, keys, cap, k);
    return k + 1;
  }

  // ---------------------------------------------------------------- readline

  /** Input as getchar delivers it, output as putchar sends it. */
  class Console {
    const input: seq<Key>
    var at: nat
    var output: seq<byte>

    constructor (input: seq<Key>)
      ensures this.input == input && at == 0 && output == []
    {
      this.input := input;
      at, output := 0, [];
    }

    method GetChar() returns (ch: Key)
      requires at < |input|
      modifies this`at
      ensures ch == input[old(at)] && at == old(at) + 1
    {
      ch := input[at];
      at := at + 1;
    }

    method PutChar(b: byte)
      modifies this`output
      ensures output == old(output) + [b]
    {
      output := output + [b];
    }
  }

  /** Consumes input up to and including the next newline. */
  method SkipLine(console: Console)
    requires console.at <= |console.input| && HasNewline(console.input[console.at..])
    modifies console`at
    ensures console.at == old(console.at) + UpToNewline(console.input[old(console.at)..]) <= |console.input|
  {
    ghost var start, keys := console.at, console.input[console.at..];
    var ch := console.GetChar();
    while ch != NEWLINE && ch != RETURN && ch != -1
      invariant start < console.at <= |console.input| && ch == console.input[console.at - 1]
      invariant HasNewline(console.input[console.at - 1..])
      invariant UpToNewline(keys) == console.at - 1 - start + UpToNewline(console.input[console.at - 1..])
      decreases |console.input| - console.at
    {
      ghost var rest := console.input[console.at - 1..];
      ghost var i :| 0 <= i < |rest| && EndsLine(rest[i]);
      assert rest[1..] == console.input[console.at..];
      assert EndsLine(rest[1..][i - 1]);
      ch := console.GetChar();
    }
  }

  /** readline up to the point where the line is complete: by a newline, or full. */
  method TypeLine(console: Console, buf: array<byte>, cap: nat) returns (pos: nat, ended: bool, ghost echo: seq<byte>)
    requires cap <= buf.Length
    requires console.at <= |console.input| && HasNewline(console.input[console.at..])
    modifies console`at, console`output, buf
    ensures pos <= cap && (!ended ==> pos == cap)
    ensures var keys := console.input[old(console.at)..];
            var (line, k) := Typed([], keys, cap);
            && buf[..pos] == line && console.at == old(console.at) + k <= |console.input|
            && (ended <==> |line| < cap)
    ensures old(console.at) <= console.at && (!ended ==> HasNewline(console.input[console.at..]))
    ensures console.output == old(console.output) + echo && Shows(ShowAll(EMPTY_LINE, echo), buf[..pos])
    ensures forall i :: cap <= i < buf.Length ==> buf[i] == old(buf[i])
  {
    hide HasNewline, Shows, Show, ShowAll, Typed, EndsLine;
    ghost var keys, start := console.input[console.at..], console.at;
    echo := [];
    pos := 0;
    StartOfLine();
    while pos < cap
      invariant pos <= cap && start <= console.at <= |console.input| && HasNewline(console.input[console.at..])
      invariant Typed([], keys, cap).0 == Typed(buf[..pos], console.input[console.at..], cap).0
      invariant Typed([], keys, cap).1 == console.at - start + Typed(buf[..pos], console.input[console.at..], cap).1
      invariant console.output == old(console.output) + echo && Shows(ShowAll(EMPTY_LINE, echo), buf[..pos])
      invariant forall i :: cap <= i < buf.Length ==> buf[i] == old(buf[i])
      decreases |console.input| - console.at
    {
      ghost var rest, s := console.input[console.at..], buf[..pos];
      TypedStep(s, rest, cap);
      var ch := console.GetChar();
      assert ch == rest[0] && console.input[console.at..] == rest[1..];
      assert EndsLine(ch) <==> ch == NEWLINE || ch == RETURN by { Ending(ch); }
      if ch == NEWLINE || ch == RETURN {
        return pos, true, echo;
      } else if ch == BACKSPACE || ch == DEL {
        if pos > 0 {
          pos := pos - 1;
          console.PutChar(BACKSPACE);
          console.PutChar(BLANK);
          console.PutChar(BACKSPACE);
        }
      } else if ch >= 0x20 && ch < 0x7f {
        console.PutChar(ch);
        buf[pos] := ch;
        pos := pos + 1;
      }
      assert buf[..pos] == Edit(s, ch);
      EchoFollowsEdit(ShowAll(EMPTY_LINE, echo), s, ch);
      ShowAppend(EMPTY_LINE, echo, Echo(s, ch));
      assert console.output == old(console.output) + (echo + Echo(s, ch));
      echo := echo + Echo(s, ch);
    }
    FullLine(buf[..pos], console.input[console.at..], cap);
    return pos, false, echo;
  }

  lemma Ending(ch: Key)
    ensures EndsLine(ch) <==> ch == NEWLINE || ch == RETURN
  {
  }

  lemma StartOfLine()
    ensures Shows(ShowAll(EMPTY_LINE, []), [])
  {
  }

  lemma FullLine(s: seq<byte>, keys: seq<Key>, cap: nat)
    requires |s| >= cap
    ensures Typed(s, keys, cap) == (s, 0)
  {
  }

  /** For every input with a newline: the buffer holds the edited line, cut when it is full and
      NUL-terminated at the returned length, the input is consumed through that newline, and
      the echo made the screen show the line. */
  method ReadLine(console: Console, buf: array<byte>, bufsz: nat) returns (n: nat)
    requires 0 < bufsz <= buf.Length
    requires console.at <= |console.input| && HasNewline(console.input[console.at..])
    modifies console`at, console`output, buf
    ensures var keys := console.input[old(console.at)..];
            && n == |Typed([], keys, bufsz - 1).0| < bufsz
            && buf[..n] == Typed([], keys, bufsz - 1).0 && buf[n] == 0
            && console.at == old(console.at) + Consumed(keys, bufsz - 1)
    ensures old(console.at) < console.at <= |console.input|
    ensures console.input[console.at - 1] == 10 || console.input[console.at - 1] == 13
    ensures forall i :: old(console.at) <= i < console.at - 1 ==> console.input[i] != 10 && console.input[i] != 13
    ensures forall i :: bufsz <= i < buf.Length ==> buf[i] == old(buf[i])
    ensures exists echo :: console.output == old(console.output) + echo + [NEWLINE]
              && Shows(ShowAll(EMPTY_LINE, echo), buf[..n])
  {
    hide HasNewline, Shows, ShowAll, Typed;
    ghost var keys, start := console.input[console.at..], console.at;
    ConsumesLine(keys, bufsz - 1);
    var pos, ended, echo := TypeLine(console, buf, bufsz - 1);
    ghost var line := buf[..pos];
    n := pos;
    if ended {
      console.PutChar(NEWLINE);
      buf[pos] := 0;
    } else {
      buf[bufsz - 1] := 0;
      assert console.input[console.at..] == keys[console.at - start..];
      SkipLine(console);
      console.PutChar(NEWLINE);
    }
    assert buf[..n] == line;
  }
}
