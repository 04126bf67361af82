/** HLeOs's preemptive scheduling: the ready queue (src/hleos/thread.rs) and the timer arm of
    the interrupt handler (src/hleos/interrupt/handler.rs). Threads are their addresses. */
module RoundRobin {
  import opened Basics
  import opened ByteQueue

  const CAPACITY := 7      // Queue::new(buffer, 8, 7)
  const QUANTUM := 100

  /** The scheduler between two timer ticks. */
  datatype Threads = Threads(running: nat, ready: seq<nat>, ms: nat)

  /** Thread addresses come from the heap: never null, never the queue's empty marker. */
  predicate IsThread(t: nat) { t < U64_LIMIT && t != 0 && t != EMPTY }

  predicate ThreadsOk(s: Threads) {
    && |s.ready| <= CAPACITY
    && IsThread(s.running) && forall t :: t in s.ready ==> IsThread(t)
  }

  /** ready_thread: a full queue drops the thread. */
  function Readied(ready: seq<nat>, t: nat): seq<nat> {
    if |ready| < CAPACITY then ready + [t] else ready
  }

  /** The switch: the current thread is readied, the head of the queue runs. */
  function Switch(s: Threads): Threads
    requires ThreadsOk(s)
  {
    var q := Readied(s.ready, s.running);
    Threads(q[0], q[1..], 1)
  }

  function Tick(s: Threads): (r: Threads)
    requires ThreadsOk(s)
    ensures ThreadsOk(r)
  {
    if s.ms >= QUANTUM then Switch(s) else s.(ms := s.ms + 1)
  }

  /** All threads, the running one first. */
  function All(s: Threads): seq<nat> { [s.running] + s.ready }

  /** A switch conserves the threads exactly if the queue has room for the current one; with a
      full queue exactly the running thread is lost. */
  lemma SwitchConserves(s: Threads)
    requires ThreadsOk(s)
    ensures multiset(All(Switch(s))) == multiset(All(s)) <==> |s.ready| < CAPACITY
    ensures |s.ready| < CAPACITY ==> All(Switch(s)) == All(s)[1..] + [s.running]
    ensures |s.ready| == CAPACITY ==> multiset(All(s)) == multiset(All(Switch(s))) + multiset{s.running}
  {
    var q := Readied(s.ready, s.running);
    assert All(Switch(s)) == q by {
      assert q == [q[0]] + q[1..];
    }
    assert All(s)[1..] == s.ready;
    assert All(s) == [s.running] + s.ready;
    if |s.ready| == CAPACITY {
      assert |multiset(All(s))| == CAPACITY + 1 && |multiset(q)| == CAPACITY;
    }
  }

  function Ticks(s: Threads, n: nat): (r: Threads)
    requires ThreadsOk(s)
    ensures ThreadsOk(r)
  {
    if n == 0 then s else Tick(Ticks(s, n - 1))
  }

  /** s rotated left by k. */
  function Rotated(s: seq<nat>, k: nat): seq<nat>
    requires k <= |s|
  {
    s[k..] + s[..k]
  }

  /** k modulo n, counted up. */
  function Turn(k: nat, n: nat): (t: nat)
    requires n > 0
    ensures t < n
  {
    if k == 0 then 0 else var t := Turn(k - 1, n); if t + 1 == n then 0 else t + 1
  }

  lemma {:induction false} TurnIsRemainder(k: nat, n: nat)
    requires n > 0
    ensures Turn(k, n) == k % n
    decreases k
  {
    if k > 0 {
      TurnIsRemainder(k - 1, n);
      var q, r := (k - 1) / n, (k - 1) % n;
      assert k - 1 == n * q + r;
      if r + 1 == n {
        assert n * (q + 1) == n * q + n;
        QuotientIs(k, n, q + 1, 0);
      } else {
        QuotientIs(k, n, q, r + 1);
      }
    } else {
      QuotientIs(0, n, 0, 0);
    }
  }

  lemma NextQuantum(n: nat)
    requires n > 0
    ensures n % QUANTUM == if (n - 1) % QUANTUM + 1 == QUANTUM then 0 else (n - 1) % QUANTUM + 1
    ensures n / QUANTUM == if (n - 1) % QUANTUM + 1 == QUANTUM then (n - 1) / QUANTUM + 1 else (n - 1) / QUANTUM
  {
  }

  /** Ticks since the current thread's quantum began, n ticks from now if it runs that long.
      Only before the very first tick is the counter zero. */
  function Elapsed(s: Threads, n: nat): nat
    requires s.ms + n > 0
  {
    s.ms + n - 1
  }

  /** Strict round robin: with room in the queue, after n ticks the threads stand rotated by
      the number of quanta that ended meanwhile, and nothing is lost. */
  lemma {:induction false} StrictRoundRobin(s: Threads, n: nat)
    requires ThreadsOk(s) && |s.ready| < CAPACITY && s.ms <= QUANTUM && s.ms + n > 0
    ensures Ticks(s, n).ms == 1 + Elapsed(s, n) % QUANTUM
    ensures All(Ticks(s, n)) == Rotated(All(s), Turn(Elapsed(s, n) / QUANTUM, |All(s)|))
    decreases n
  {
    if n == 0 || s.ms + n == 1 {
      assert Rotated(All(s), 0) == All(s);
      assert Ticks(s, 0) == s;
    } else {
      StrictRoundRobin(s, n - 1);
      NextQuantum(Elapsed(s, n));
      hide Rotated, Turn, Switch;
      TickRotates(Ticks(s, n - 1), All(s), Elapsed(s, n - 1) / QUANTUM);
    }
  }

  lemma TickRotates(p: Threads, all: seq<nat>, k: nat)
    requires ThreadsOk(p) && p.ms <= QUANTUM && 0 < |all| <= CAPACITY
    requires All(p) == Rotated(all, Turn(k, |all|))
    ensures Tick(p).ms == if p.ms == QUANTUM then 1 else p.ms + 1
    ensures All(Tick(p)) == Rotated(all, Turn(if p.ms == QUANTUM then k + 1 else k, |all|))
  {
    if p.ms == QUANTUM {
      SwitchConserves(p);
      RotateOnce(all, k);
      assert All(p)[0] == p.running;
    }
  }

  lemma RotateOnce(all: seq<nat>, k: nat)
    requires |all| > 0
    ensures var r := Rotated(all, Turn(k, |all|)); Rotated(all, Turn(k + 1, |all|)) == r[1..] + [r[0]]
  {
    var i := Turn(k, |all|);
    if i + 1 == |all| {
      assert Rotated(all, 0) == all;
    }
  }

  /** So every thread runs for exactly 100 ticks in its turn, and its next turn comes after every
      other thread's; nothing is ever lost. */
  lemma RunsInTurn(s: Threads, n: nat)
    requires ThreadsOk(s) && |s.ready| < CAPACITY && s.ms <= QUANTUM && s.ms + n > 0
    ensures var all := [s.running] + s.ready;
            var k := (s.ms + n - 1) / 100 % |all|;
            Ticks(s, n).running == all[k] && Ticks(s, n).ready == all[k + 1..] + all[..k]
  {
    hide Ticks, Rotated, Turn, ThreadsOk;
    StrictRoundRobin(s, n);
    TurnIsRemainder(Elapsed(s, n) / QUANTUM, |All(s)|);
    AtTurn(Ticks(s, n), All(s), Turn(Elapsed(s, n) / QUANTUM, |All(s)|));
  }

  lemma AtTurn(t: Threads, all: seq<nat>, k: nat)
    requires k < |all| && All(t) == Rotated(all, k)
    ensures t.running == all[k] && t.ready == all[k + 1..] + all[..k]
  {
    assert t.running == All(t)[0] && t.ready == All(t)[1..];
    assert Rotated(all, k)[1..] == all[k + 1..] + all[..k];
  }
}

module Threads {
  import opened Basics
  import opened LittleEndian
  import opened ByteQueue
  import opened RoundRobin

  class Scheduler {
    const readyQueue: Queue
    var runningThread: u64
    var timerMs: nat
    var timerSec: nat

    ghost predicate Valid()
      reads this, readyQueue, readyQueue.buffer
    {
      && readyQueue.Valid() && readyQueue.unit == 8 && readyQueue.maxLen == CAPACITY + 1
      && ThreadsOk(View())
    }

    ghost function View(): RoundRobin.Threads
      requires readyQueue.Valid()
      reads this, readyQueue, readyQueue.buffer
    {
      RoundRobin.Threads(runningThread, readyQueue.Contents(), timerMs)
    }

    constructor (readyQueue: Queue, running: u64)
      requires readyQueue.Valid() && readyQueue.unit == 8 && readyQueue.maxLen == CAPACITY + 1
      requires readyQueue.Contents() == [] && IsThread(running)
      ensures Valid() && this.readyQueue == readyQueue && View() == RoundRobin.Threads(running, [], 0)
    {
      this.readyQueue := readyQueue;
      runningThread := running;
      timerMs, timerSec := 0, 0;
    }

    method ReadyThread(th: u64) returns (ok: bool)
      requires Valid() && IsThread(th)
      modifies readyQueue`tail, readyQueue.buffer
      ensures Valid() && (ok <==> |old(readyQueue.Contents())| < CAPACITY)
      ensures View() == old(View()).(ready := Readied(old(View()).ready, th))
      ensures View().ready == if |old(View()).ready| < 7 then old(View()).ready + [th] else old(View()).ready
    {
      ok := readyQueue.Enqueue(th);
      ValueOfBytes(th, 8);
      WordWidth();
    }

    /** pop_thread: null for the empty queue, which is then left as it is. */
    method PopThread() returns (th: u64)
      requires Valid()
      modifies readyQueue`head
      ensures Valid()
      ensures if old(View()).ready == [] then th == 0 && View() == old(View())
              else th == old(View()).ready[0] && View() == old(View()).(ready := old(View()).ready[1..])
    {
      ghost var c := readyQueue.Contents();
      assert c != [] ==> c[0] in c;
      var ret := readyQueue.Dequeue();
      if ret != EMPTY {
        return ret;
      }
      return 0;
    }

    /** load_thread never returns: it leaves for the thread it loads. */
    method LoadThread(th: u64)
      modifies this`runningThread
      ensures runningThread == th
    {
      runningThread := th;
    }

    /** The timer arm of common_interrupt_handler. */
    method TimerTick()
      requires Valid()
      modifies this, readyQueue, readyQueue.buffer
      ensures Valid() && View() == Tick(old(View()))
      ensures runningThread != 0 && runningThread != 0xdead_beaf_cafe_babe
      ensures timerSec == old(timerSec) + if old(timerMs) >= QUANTUM then 1 else 0
    {
      if timerMs >= QUANTUM {
        var _ := ReadyThread(runningThread);
        timerMs := 0;
        timerSec := timerSec + 1;
        timerMs := timerMs + 1;
        ghost var q := readyQueue.Contents();
        assert q[0] in q;
        var next := PopThread();
        LoadThread(next);
        return;
      }
      timerMs := timerMs + 1;
    }
  }
}
