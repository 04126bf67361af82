/** HLeOs's Queue (src/std/queue.rs): a ring of fixed-width slots in a byte buffer, and the
    bounded first-in first-out queue it stands for. */
module ByteQueue {
  import opened Basics
  import opened LittleEndian

  const EMPTY := 0xdead_beaf_cafe_babe

  // ---------------------------------------------------------------- the ring

  /** Slots start..start + count of a ring of n, wrapping once. */
  function Place(n: nat, start: nat, i: nat): (s: nat)
    requires start < n && i < n
    ensures s < n
  {
    if start + i < n then start + i else start + i - n
  }

  function Count(n: nat, head: nat, tail: nat): (c: nat)
    requires head < n && tail < n
    ensures c < n
  {
    if head <= tail then tail - head else tail + n - head
  }

  lemma {:induction false} SlotInside(s: nat, n: nat, unit: nat)
    requires s < n
    ensures s * unit + unit <= n * unit
    decreases n
  {
    if s + 1 < n {
      SlotInside(s, n - 1, unit);
    }
    NextMultiple(n - 1, unit);
  }

  lemma NextMultiple(k: nat, unit: nat)
    ensures (k + 1) * unit == k * unit + unit
  {
  }

  function Slot(b: seq<byte>, unit: nat, n: nat, s: nat): nat
    requires n * unit <= |b| && s < n
  {
    SlotInside(s, n, unit);
    Value(b[s * unit..s * unit + unit])
  }

  /** The queued values, oldest first. */
  function Queued(b: seq<byte>, unit: nat, n: nat, head: nat, tail: nat): (c: seq<nat>)
    requires n * unit <= |b| && head < n && tail < n
    ensures |c| == Count(n, head, tail)
    ensures forall i :: 0 <= i < |c| ==> c[i] == Slot(b, unit, n, Place(n, head, i))
  {
    seq(Count(n, head, tail), i requires 0 <= i < Count(n, head, tail) => Slot(b, unit, n, Place(n, head, i)))
  }

  /** Only the bytes of slot s changed. */
  ghost predicate OnlySlot(b: seq<byte>, b': seq<byte>, unit: nat, s: nat) {
    |b'| == |b| && forall a :: 0 <= a < |b| && !(s * unit <= a < s * unit + unit) ==> b'[a] == b[a]
  }

  lemma SlotsApart(b: seq<byte>, b': seq<byte>, unit: nat, n: nat, s: nat, t: nat)
    requires n * unit <= |b| && s < n && t < n && s != t && OnlySlot(b, b', unit, s)
    ensures Slot(b', unit, n, t) == Slot(b, unit, n, t)
  {
    SlotInside(t, n, unit);
    if s < t {
      SlotInside(s, t, unit);
    } else {
      SlotInside(t, s, unit);
    }
    assert b'[t * unit..t * unit + unit] == b[t * unit..t * unit + unit];
  }

  /** Filling the slot at tail appends one value. */
  lemma Enqueued(b: seq<byte>, b': seq<byte>, unit: nat, n: nat, head: nat, tail: nat)
    requires n * unit <= |b| && head < n && tail < n && Count(n, head, tail) < n - 1
    requires OnlySlot(b, b', unit, tail)
    ensures var tail' := if tail + 1 < n then tail + 1 else 0;
            Queued(b', unit, n, head, tail') == Queued(b, unit, n, head, tail) + [Slot(b', unit, n, tail)]
  {
    hide Slot;
    var tail' := if tail + 1 < n then tail + 1 else 0;
    var c := Count(n, head, tail);
    assert Count(n, head, tail') == c + 1 && Place(n, head, c) == tail;
    forall i | 0 <= i < c
      ensures Slot(b', unit, n, Place(n, head, i)) == Slot(b, unit, n, Place(n, head, i))
    {
      SlotsApart(b, b', unit, n, tail, Place(n, head, i));
    }
  }

  /** The i-th slot from the next head is the (i + 1)-st from this one. */
  lemma NextPlace(n: nat, head: nat, tail: nat, i: nat)
    requires head < n && tail < n && head != tail
    ensures var head' := if head + 1 < n then head + 1 else 0;
            && Count(n, head, tail) == Count(n, head', tail) + 1 && Place(n, head, 0) == head
            && (i < Count(n, head', tail) ==> Place(n, head', i) == Place(n, head, i + 1))
  {
  }

  lemma Dequeued(b: seq<byte>, unit: nat, n: nat, head: nat, tail: nat)
    requires n * unit <= |b| && head < n && tail < n && head != tail
    ensures var head' := if head + 1 < n then head + 1 else 0;
            Queued(b, unit, n, head, tail) == [Slot(b, unit, n, head)] + Queued(b, unit, n, head', tail)
  {
    hide Slot, Place, Count;
    var head' := if head + 1 < n then head + 1 else 0;
    NextPlace(n, head, tail, 0);
    var q, rest := Queued(b, unit, n, head, tail), Queued(b, unit, n, head', tail);
    forall i | 0 <= i < |rest|
      ensures q[i + 1] == rest[i]
    {
      NextPlace(n, head, tail, i);
    }
    assert q == [q[0]] + q[1..];
  }

  lemma SlotIs(b: seq<byte>, unit: nat, n: nat, s: nat)
    requires n * unit <= |b| && s < n
    ensures s * unit + unit <= |b| && Slot(b, unit, n, s) == Value(b[s * unit..s * unit + unit])
  {
    SlotInside(s, n, unit);
  }

  class Queue {
    const buffer: array<byte>
    const unit: nat
    const maxLen: nat     // one more than the queue holds
    var head: nat
    var tail: nat

    ghost predicate Valid()
      reads this
    {
      unit <= 8 && head < maxLen && tail < maxLen && maxLen * unit <= buffer.Length
    }

    ghost function Contents(): seq<nat>
      requires Valid()
      reads this, buffer
    {
      Queued(buffer[..], unit, maxLen, head, tail)
    }

    constructor (buffer: array<byte>, unit: nat, max: nat)
      requires unit <= 8 && (max + 1) * unit <= buffer.Length
      ensures Valid() && Contents() == [] && this.buffer == buffer && this.unit == unit && maxLen == max + 1
    {
      this.buffer := buffer;
      this.unit := unit;
      this.maxLen := max + 1;
      head, tail := 0, 0;
    }

    method IsEmpty() returns (r: bool)
      requires Valid()
      ensures r <==> Contents() == []
    {
      r := head == tail;
    }

    method IsFull() returns (r: bool)
      requires Valid()
      ensures r <==> |Contents()| == maxLen - 1
    {
      Wrap(tail, maxLen);
      r := (tail + 1) % maxLen == head;
    }

    method Enqueue(data: u64) returns (ok: bool)
      requires Valid()
      modifies this`tail, buffer
      ensures Valid() && (ok <==> old(|Contents()|) < maxLen - 1)
      ensures Contents() == if ok then old(Contents()) + [Value(Bytes(data, unit))] else old(Contents())
    {
      var full := IsFull();
      if full {
        return false;
      }
      SlotInside(tail, maxLen, unit);
      ghost var before := buffer[..];
      StoreBytes(buffer, tail * unit, data, unit);
      Enqueued(before, buffer[..], unit, maxLen, head, tail);
      Wrap(tail, maxLen);
      tail := (tail + 1) % maxLen;
      return true;
    }

    /** The empty queue answers with a marker value. */
    method Dequeue() returns (ret: nat)
      requires Valid()
      modifies this`head
      ensures Valid()
      ensures if old(Contents()) == [] then ret == 0xdead_beaf_cafe_babe && Contents() == []
              else ret == old(Contents())[0] && Contents() == old(Contents())[1..]
    {
      hide Queued, Slot, Value;
      var empty := IsEmpty();
      if empty {
        return EMPTY;
      }
      SlotInside(head, maxLen, unit);
      ret := LoadBytes(head * unit);
      Dequeued(buffer[..], unit, maxLen, head, tail);
      Wrap(head, maxLen);
      SlotIs(buffer[..], unit, maxLen, head);
      head := (head + 1) % maxLen;
    }

    /** The load loop of dequeue: ret |= tmp << 8 * i sets bits that are still zero. */
    method LoadBytes(base: nat) returns (ret: nat)
      requires base + unit <= buffer.Length
      ensures ret == Value(buffer[..][base..base + unit])
    {
      var i := 0;
      ret := 0;
      while i < unit
        invariant i <= unit && ret == Value(buffer[base..base + i])
      {
        ValueAppend(buffer[base..base + i], buffer[base + i]);
        assert buffer[base..base + i + 1] == buffer[base..base + i] + [buffer[base + i]];
        ret := ret + Pow(0x100, i) * buffer[base + i];
        i := i + 1;
      }
      assert buffer[base..base + unit] == buffer[..][base..base + unit];
    }
  }

  lemma Wrap(i: nat, n: nat)
    requires i < n
    ensures (i + 1) % n == if i + 1 < n then i + 1 else 0
  {
    if i + 1 == n {
      assert n % n == 0;
    }
  }
}
