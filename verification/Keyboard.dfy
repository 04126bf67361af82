/** The VMM's keyboard ring and the two-phase GETCHAR hypercall (src/main.c): a producer
    thread pushes, each vCPU asks with OUT and collects with IN. Every access to the ring is
    one step under its lock, so a run is any interleaving of such steps. */
module KeyboardSpec {
  import opened Basics

  const CAPACITY := 255    // KEYBOARD_BUFFER_SIZE - 1

  /** vcpu_context_t: pending_getchar and getchar_result (-1 for an empty ring). */
  datatype Vcpu = Vcpu(pending: bool, result: int)

  /** The ring's bytes, oldest first, the vCPUs, and the history of the run: bytes the ring
      accepted, bytes popped with the vCPU that popped them, bytes each vCPU was returned. */
  datatype System = System(ring: seq<byte>, vcpus: seq<Vcpu>,
                           accepted: seq<byte>, popped: seq<(nat, byte)>, returned: seq<seq<byte>>)

  /** A key arrives, vCPU v executes OUT, vCPU v executes IN. */
  datatype Event = Push(ch: byte) | Out(v: nat) | In(v: nat)

  function Pushed(ring: seq<byte>, ch: byte): seq<byte> {
    if |ring| < CAPACITY then ring + [ch] else ring
  }

  /** keyboard_buffer_pop */
  function Popped(ring: seq<byte>): (int, seq<byte>) {
    if ring == [] then (-1, ring) else (ring[0] as int, ring[1..])
  }

  /** What IN puts in AL: 0xFF for an empty ring, 0 if no GETCHAR is pending. */
  function InByte(c: Vcpu): byte {
    if !c.pending then 0 else if c.result < 0 || c.result > 0xff then 0xff else c.result
  }

  function Step(s: System, e: Event): System
    requires |s.returned| == |s.vcpus|
    requires e.Push? || e.v < |s.vcpus|
  {
    match e
    case Push(ch) =>
      if |s.ring| < CAPACITY then s.(ring := s.ring + [ch], accepted := s.accepted + [ch]) else s
    case Out(v) =>
      var (ch, rest) := Popped(s.ring);
      var s' := s.(ring := rest, vcpus := s.vcpus[v := Vcpu(true, ch)]);
      if s.ring == [] then s' else s'.(popped := s.popped + [(v, s.ring[0])])
    case In(v) =>
      var c := s.vcpus[v];
      var s' := s.(vcpus := s.vcpus[v := c.(pending := false)]);
      if c.pending && c.result >= 0 then s'.(returned := s.returned[v := s.returned[v] + [InByte(c)]]) else s'
  }

  /** user.c's getchar: after OUT always IN, before OUT never a pending answer. */
  predicate Alternates(s: System, e: Event) {
    match e
    case Push(_) => true
    case Out(v) => v < |s.vcpus| && !s.vcpus[v].pending
    case In(v) => v < |s.vcpus| && s.vcpus[v].pending
  }

  /** The bytes vCPU v popped, in order. */
  function PoppedBy(popped: seq<(nat, byte)>, v: nat): seq<byte> {
    if popped == [] then []
    else
      var last := popped[|popped| - 1];
      PoppedBy(popped[..|popped| - 1], v) + (if last.0 == v then [last.1] else [])
  }

  function BytesOf(popped: seq<(nat, byte)>): (bs: seq<byte>)
    ensures |bs| == |popped|
  {
    seq(|popped|, i requires 0 <= i < |popped| => popped[i].1)
  }

  /** The answer a vCPU still has to collect. */
  function Held(c: Vcpu): seq<byte> {
    if c.pending && 0 <= c.result <= 0xff then [c.result] else []
  }

  /** Nothing is lost, duplicated or reordered. */
  ghost predicate Conserved(s: System) {
    && |s.returned| == |s.vcpus| && |s.ring| <= CAPACITY
    && s.accepted == BytesOf(s.popped) + s.ring
    && (forall p :: p in s.popped ==> p.0 < |s.vcpus|)
    && (forall v :: 0 <= v < |s.vcpus| ==> -1 <= s.vcpus[v].result <= 0xff)
    && (forall v :: 0 <= v < |s.vcpus| ==> PoppedBy(s.popped, v) == s.returned[v] + Held(s.vcpus[v]))
  }

  function Start(n: nat): System {
    System([], seq(n, _ => Vcpu(false, 0)), [], [], seq(n, _ => []))
  }

  lemma StartConserved(n: nat)
    ensures Conserved(Start(n))
  {
    assert BytesOf([]) == [];
  }

  lemma PoppedOne(popped: seq<(nat, byte)>, v: nat, b: byte, w: nat)
    ensures PoppedBy(popped + [(v, b)], w) == PoppedBy(popped, w) + (if v == w then [b] else [])
    ensures BytesOf(popped + [(v, b)]) == BytesOf(popped) + [b]
  {
    assert (popped + [(v, b)])[..|popped|] == popped;
  }

  lemma OutConserves(s: System, v: nat)
    requires Conserved(s) && v < |s.vcpus| && !s.vcpus[v].pending
    ensures Conserved(Step(s, Out(v)))
  {
    var s' := Step(s, Out(v));
    if s.ring != [] {
      var b := s.ring[0];
      assert s.ring == [b] + s.ring[1..];
      assert BytesOf(s.popped) + ([b] + s.ring[1..]) == (BytesOf(s.popped) + [b]) + s.ring[1..];
      hide PoppedBy, BytesOf;
      PoppedOne(s.popped, v, b, v);
      forall w | 0 <= w < |s'.vcpus|
        ensures PoppedBy(s'.popped, w) == s'.returned[w] + Held(s'.vcpus[w])
      {
        PoppedOne(s.popped, v, b, w);
      }
    }
  }

  lemma StepConserves(s: System, e: Event)
    requires Conserved(s) && Alternates(s, e)
    ensures Conserved(Step(s, e))
  {
    hide PoppedBy, BytesOf;
    match e {
      case Push(ch) =>
        assert BytesOf(s.popped) + (s.ring + [ch]) == (BytesOf(s.popped) + s.ring) + [ch];
      case Out(v) =>
        OutConserves(s, v);
      case In(v) =>
    }
  }

  function Run(s: System, es: seq<Event>): (r: System)
    requires Follows(s, es)
    decreases |es|
  {
    if es == [] then s else Run(Step(s, es[0]), es[1..])
  }

  /** Every vCPU alternates OUT and IN through the run. */
  predicate Follows(s: System, es: seq<Event>)
    decreases |es|
  {
    es == [] || (|s.returned| == |s.vcpus| && Alternates(s, es[0]) && Follows(Step(s, es[0]), es[1..]))
  }

  lemma {:induction false} RunConserves(s: System, es: seq<Event>)
    requires Conserved(s) && Follows(s, es)
    ensures Conserved(Run(s, es))
    decreases |es|
  {
    if es != [] {
      StepConserves(s, es[0]);
      RunConserves(Step(s, es[0]), es[1..]);
    }
  }

  /** In every interleaving: the accepted bytes are the popped ones, in order, followed by the
      ring; at most 255 wait; and each vCPU has been returned exactly the bytes it popped, in
      order, save one it may still have to collect. */
  lemma EveryInterleaving(n: nat, es: seq<Event>)
    requires Follows(Start(n), es)
    ensures var s := Run(Start(n), es);
            && |s.ring| <= CAPACITY
            && s.accepted == BytesOf(s.popped) + s.ring
            && |s.vcpus| == |s.returned|
            && forall v :: 0 <= v < |s.vcpus| ==> PoppedBy(s.popped, v) == s.returned[v] + Held(s.vcpus[v])
  {
    StartConserved(n);
    RunConserves(Start(n), es);
  }

  /** The keys of a run, in order. */
  function Keys(es: seq<Event>): seq<byte> {
    if es == [] then [] else (if es[0].Push? then [es[0].ch] else []) + Keys(es[1..])
  }

  /** Keys that find 255 bytes waiting. */
  function Dropped(s: System, es: seq<Event>): nat
    requires Follows(s, es)
    decreases |es|
  {
    if es == [] then 0
    else (if es[0].Push? && |s.ring| >= 255 then 1 else 0) + Dropped(Step(s, es[0]), es[1..])
  }

  /** A key is accepted exactly if it does not find 255 bytes waiting: the accepted bytes are all
      keys, in order, exactly if none did. */
  lemma {:induction false} KeysAccepted(s: System, es: seq<Event>)
    requires Follows(s, es)
    ensures |Run(s, es).accepted| + Dropped(s, es) == |s.accepted| + |Keys(es)|
    ensures Run(s, es).accepted == s.accepted + Keys(es) <==> Dropped(s, es) == 0
    decreases |es|
  {
    if es != [] {
      AcceptStep(s, es[0]);
      hide Step, Alternates;
      KeysAccepted(Step(s, es[0]), es[1..]);
      if es[0].Push? {
        assert Keys(es) == [es[0].ch] + Keys(es[1..]);
        assert s.accepted + [es[0].ch] + Keys(es[1..]) == s.accepted + ([es[0].ch] + Keys(es[1..]));
      } else {
        assert Keys(es) == Keys(es[1..]);
      }
    }
  }

  lemma AcceptStep(s: System, e: Event)
    requires |s.returned| == |s.vcpus| && Alternates(s, e)
    ensures Step(s, e).accepted == if e.Push? && |s.ring| < 255 then s.accepted + [e.ch] else s.accepted
  {
  }

  /** One GETCHAR, OUT and then IN: the vCPU takes the oldest waiting byte, if there is one, and
      nothing else changes. */
  lemma GetcharTakesOldest(s: System, v: nat)
    requires Conserved(s) && v < |s.vcpus| && !s.vcpus[v].pending
    ensures Follows(s, [Out(v), In(v)])
    ensures var t := Run(s, [Out(v), In(v)]);
            && t.accepted == s.accepted && |t.vcpus| == |s.vcpus| && !t.vcpus[v].pending
            && (forall w :: 0 <= w < |s.vcpus| && w != v ==> t.vcpus[w] == s.vcpus[w])
            && if s.ring == [] then t.ring == [] && t.returned == s.returned && t.vcpus[v].result == -1
               else t.ring == s.ring[1..] && t.returned == s.returned[v := s.returned[v] + [s.ring[0]]]
                    && t.vcpus[v].result == s.ring[0] as int
  {
    var s' := Step(s, Out(v));
    assert [Out(v), In(v)][1..] == [In(v)] && [In(v)][1..] == [];
    StepConserves(s, Out(v));
    assert Run(s, [Out(v), In(v)]) == Run(s', [In(v)]) == Run(Step(s', In(v)), []);
  }

  /** Alternation is needed: a second OUT before the IN drops the byte of the first. */
  lemma SecondOutLoses(s: System, v: nat)
    requires Conserved(s) && v < |s.vcpus| && s.vcpus[v].pending
    ensures Conserved(Step(s, Out(v))) <==> Held(s.vcpus[v]) == []
  {
    var s' := Step(s, Out(v));
    if s.ring != [] {
      var b := s.ring[0];
      assert s.ring == [b] + s.ring[1..];
      assert BytesOf(s.popped) + ([b] + s.ring[1..]) == (BytesOf(s.popped) + [b]) + s.ring[1..];
      forall w | 0 <= w < |s'.vcpus|
        ensures PoppedBy(s'.popped, w) == PoppedBy(s.popped, w) + if w == v then [b] else []
      {
        PoppedOne(s.popped, v, b, w);
      }
      PoppedOne(s.popped, v, b, v);
      assert |PoppedBy(s'.popped, v)| == |s.returned[v]| + |Held(s.vcpus[v])| + 1;
    }
  }

  /** user.c reads AL as a signed byte and retries on -1: the byte IN delivers reaches the
      program exactly if it is not 0xFF. */
  function GuestGetchar(al: byte): GuestRead {
    if al == 0xff then Retry else Got(if al < 0x80 then al as int else al as int - 0x100)
  }

  datatype GuestRead = Retry | Got(ch: int)

  lemma GuestSeesByte(c: Vcpu)
    requires c.pending && -1 <= c.result <= 0xff
    ensures GuestGetchar(InByte(c)) == Retry <==> c.result == -1 || c.result == 0xff
    ensures 0 <= c.result < 0x80 ==> GuestGetchar(InByte(c)) == Got(c.result)
    ensures 0x80 <= c.result < 0xff ==> GuestGetchar(InByte(c)) == Got(c.result - 0x100)
  {
  }
}

module Keyboard {
  import opened Basics
  import opened ByteQueue
  import opened KeyboardSpec

  const KEYBOARD_BUFFER_SIZE := 256

  /** The bytes of the ring between read position tail and write position head. */
  function Waiting(b: seq<byte>, tail: nat, head: nat): (w: seq<byte>)
    requires |b| == KEYBOARD_BUFFER_SIZE && tail < |b| && head < |b|
    ensures |w| == Count(KEYBOARD_BUFFER_SIZE, tail, head)
    ensures forall i :: 0 <= i < |w| ==> w[i] == b[Place(KEYBOARD_BUFFER_SIZE, tail, i)]
  {
    seq(Count(KEYBOARD_BUFFER_SIZE, tail, head),
        i requires 0 <= i < Count(KEYBOARD_BUFFER_SIZE, tail, head) => b[Place(KEYBOARD_BUFFER_SIZE, tail, i)])
  }

  lemma RingPush(b: seq<byte>, tail: nat, head: nat, ch: byte)
    requires |b| == KEYBOARD_BUFFER_SIZE && tail < |b| && head < |b|
    ensures var next := (head + 1) % KEYBOARD_BUFFER_SIZE;
            && (next == tail <==> |Waiting(b, tail, head)| == CAPACITY)
            && (next != tail ==> Waiting(b[head := ch], tail, next) == Waiting(b, tail, head) + [ch])
  {
    Wrap(head, KEYBOARD_BUFFER_SIZE);
    var next := (head + 1) % KEYBOARD_BUFFER_SIZE;
    if next != tail {
      var c := Count(KEYBOARD_BUFFER_SIZE, tail, head);
      assert Count(KEYBOARD_BUFFER_SIZE, tail, next) == c + 1 && Place(KEYBOARD_BUFFER_SIZE, tail, c) == head;
      assert forall i :: 0 <= i < c ==> Place(KEYBOARD_BUFFER_SIZE, tail, i) != head;
      hide Place, Count;
      assert Waiting(b[head := ch], tail, next) == Waiting(b, tail, head) + [ch];
    }
  }

  lemma RingPop(b: seq<byte>, tail: nat, head: nat)
    requires |b| == KEYBOARD_BUFFER_SIZE && tail < |b| && head < |b|
    ensures tail == head <==> Waiting(b, tail, head) == []
    ensures tail != head ==> Waiting(b, tail, head) == [b[tail]] + Waiting(b, (tail + 1) % KEYBOARD_BUFFER_SIZE, head)
  {
    Wrap(tail, KEYBOARD_BUFFER_SIZE);
    var next := (tail + 1) % KEYBOARD_BUFFER_SIZE;
    if tail != head {
      var c := Count(KEYBOARD_BUFFER_SIZE, next, head);
      assert Count(KEYBOARD_BUFFER_SIZE, tail, head) == c + 1 && Place(KEYBOARD_BUFFER_SIZE, tail, 0) == tail;
      assert forall i :: 0 <= i < c ==>
          Place(KEYBOARD_BUFFER_SIZE, next, i) == Place(KEYBOARD_BUFFER_SIZE, tail, i + 1);
      hide Place, Count;
      assert Waiting(b, tail, head) == [b[tail]] + Waiting(b, next, head);
    }
  }

  class KeyboardBuffer {
    const buffer: array<byte>
    var head: nat    // write position
    var tail: nat    // read position

    ghost predicate Valid()
      reads this
    {
      buffer.Length == KEYBOARD_BUFFER_SIZE && head < KEYBOARD_BUFFER_SIZE && tail < KEYBOARD_BUFFER_SIZE
    }

    ghost function Contents(): seq<byte>
      requires Valid()
      reads this, buffer
    {
      Waiting(buffer[..], tail, head)
    }

    constructor ()
      ensures Valid() && Contents() == [] && fresh(buffer)
    {
      buffer := new byte[KEYBOARD_BUFFER_SIZE](_ => 0);
      head, tail := 0, 0;
    }

    method Push(ch: byte)
      requires Valid()
      modifies this`head, buffer
      ensures Valid() && Contents() == Pushed(old(Contents()), ch)
      ensures Contents() == if |old(Contents())| < 255 then old(Contents()) + [ch] else old(Contents())
    {
      hide Waiting;
      RingPush(buffer[..], tail, head, ch);
      var nextHead := (head + 1) % KEYBOARD_BUFFER_SIZE;
      if nextHead != tail {
        ghost var b := buffer[..];
        buffer[head] := ch;
        assert buffer[..] == b[head := ch];
        head := nextHead;
      }
    }

    /** -1 for an empty ring. */
    method Pop() returns (ch: int)
      requires Valid()
      modifies this`tail
      ensures Valid() && (ch, Contents()) == Popped(old(Contents()))
      ensures if old(Contents()) == [] then ch == -1 && Contents() == []
              else ch == old(Contents())[0] as int && Contents() == old(Contents())[1..]
    {
      hide Waiting;
      RingPop(buffer[..], tail, head);
      if head == tail {
        return -1;
      }
      ch := buffer[tail];
      tail := (tail + 1) % KEYBOARD_BUFFER_SIZE;
    }

    method HasData() returns (r: bool)
      requires Valid()
      ensures r <==> Contents() != []
    {
      r := head != tail;
    }
  }

  /** The ring and the vCPU contexts, with the history of the run as ghost state. */
  class Vmm {
    const keyboard: KeyboardBuffer
    const vcpus: array<Vcpu>
    ghost var accepted: seq<byte>
    ghost var popped: seq<(nat, byte)>
    ghost var returned: seq<seq<byte>>

    ghost predicate Valid()
      reads this, keyboard, keyboard.buffer, vcpus
    {
      keyboard.Valid() && Conserved(View())
    }

    ghost function View(): System
      requires keyboard.Valid()
      reads this, keyboard, keyboard.buffer, vcpus
    {
      System(keyboard.Contents(), vcpus[..], accepted, popped, returned)
    }

    constructor (n: nat)
      ensures Valid() && View() == Start(n)
      ensures fresh(keyboard) && fresh(keyboard.buffer) && fresh(vcpus)
    {
      keyboard := new KeyboardBuffer();
      vcpus := new Vcpu[n](_ => Vcpu(false, 0));
      accepted, popped, returned := [], [], seq(n, _ => []);
      new;
      StartConserved(n);
      assert View() == Start(n);
    }

    /** The stdin thread. */
    method KeyArrives(ch: byte)
      requires Valid()
      modifies this`accepted, keyboard`head, keyboard.buffer
      ensures Valid() && View() == Step(old(View()), Push(ch))
    {
      StepConserves(View(), Push(ch));
      if |keyboard.Contents()| < CAPACITY {
        accepted := accepted + [ch];
      }
      keyboard.Push(ch);
    }

    /** The HC_GETCHAR case of handle_hypercall_out. */
    method HypercallOut(v: nat)
      requires Valid() && v < vcpus.Length
      modifies this`popped, keyboard`tail, vcpus
      ensures keyboard.Valid() && View() == Step(old(View()), Out(v))
      ensures !old(vcpus[v].pending) ==> Valid()
    {
      ghost var s := View();
      if !vcpus[v].pending {
        StepConserves(s, Out(v));
      }
      var ch := keyboard.Pop();
      if ch != -1 {
        popped := popped + [(v, s.ring[0])];
      }
      vcpus[v] := Vcpu(true, ch);
      assert vcpus[..] == s.vcpus[v := Vcpu(true, ch)];
    }

    /** handle_hypercall_in: the byte put in AL. */
    method HypercallIn(v: nat) returns (al: byte)
      requires Valid() && v < vcpus.Length
      modifies this`returned, vcpus
      ensures Valid() && View() == Step(old(View()), In(v)) && al == InByte(old(vcpus[v]))
      ensures !old(vcpus[v]).pending ==> al == 0
      ensures old(vcpus[v]).pending ==> al as int == if old(vcpus[v]).result == -1 then 0xff else old(vcpus[v]).result
    {
      ghost var s := View();
      if vcpus[v].pending {
        StepConserves(s, In(v));
        al := if vcpus[v].result == -1 then 0xff else vcpus[v].result;
        if vcpus[v].result >= 0 {
          returned := returned[v := returned[v] + [al]];
        }
        vcpus[v] := vcpus[v].(pending := false);
        assert vcpus[..] == s.vcpus[v := s.vcpus[v].(pending := false)];
      } else {
        al := 0;
        assert s.vcpus[v := s.vcpus[v].(pending := false)] == s.vcpus;
      }
    }
  }
}
