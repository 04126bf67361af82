/** The process table as the scheduler sees it, and what yield and exit do to it
    (os-1k/kernel.c). Slots are indices into procs; PROCS_MAX is its length. */
module Scheduler {

  const PROCS_MAX := 8

  datatype State = Unused | Runnable | Exited

  /** pageTable is the physical address that goes into CR3. */
  datatype Process = Process(pid: nat, state: State, pageTable: nat)

  type Table = ps: seq<Process> | |ps| == PROCS_MAX witness seq(PROCS_MAX, _ => Process(0, Unused, 0))

  predicate Used(p: Process) { p.state != Unused }

  /** Slot i may be picked: runnable, and not the idle process. */
  predicate Pickable(p: Process) { p.state == Runnable && p.pid > 0 }

  /** The first unused slot, PROCS_MAX if there is none. */
  function FirstUnused(ps: Table, from: nat := 0): (slot: nat)
    requires from <= PROCS_MAX
    ensures from <= slot <= PROCS_MAX
    ensures slot < PROCS_MAX ==> !Used(ps[slot])
    ensures forall k :: from <= k < slot ==> Used(ps[k])
    decreases PROCS_MAX - from
  {
    if from == PROCS_MAX || !Used(ps[from]) then from else FirstUnused(ps, from + 1)
  }

  // ---------------------------------------------------------------- yield

  /** idle is the slot of the process that runs when nothing else can. */
  datatype Sched = Sched(procs: Table, current: nat, idle: nat)

  /** pid is slot + 1, except that the idle process has pid 0 and sits in slot 0. */
  predicate SchedOk(s: Sched) {
    && s.idle == 0 && s.current < PROCS_MAX
    && Used(s.procs[0]) && s.procs[0].pid == 0
    && (forall k :: 0 < k < PROCS_MAX && Used(s.procs[k]) ==> s.procs[k].pid == k + 1)
    && s.procs[s.current].state == Runnable
  }

  /** The scan of yield from step i on: slot (pid + i) % PROCS_MAX, the idle slot if none is found. */
  function Scan(procs: Table, pid: nat, idle: nat, i: nat): nat
    requires i <= PROCS_MAX
    decreases PROCS_MAX - i
  {
    if i == PROCS_MAX then idle
    else if Pickable(procs[(pid + i) % PROCS_MAX]) then (pid + i) % PROCS_MAX
    else Scan(procs, pid, idle, i + 1)
  }

  lemma ScanStep(procs: Table, pid: nat, idle: nat, i: nat)
    requires i < PROCS_MAX
    ensures var at := (pid + i) % PROCS_MAX;
            Scan(procs, pid, idle, i) ==
            if procs[at].state == Runnable && procs[at].pid > 0 then at else Scan(procs, pid, idle, i + 1)
  {
  }

  lemma ScanEnd(procs: Table, pid: nat, idle: nat)
    ensures Scan(procs, pid, idle, PROCS_MAX) == idle
  {
  }

  function Next(s: Sched): nat
    requires s.current < PROCS_MAX
  {
    Scan(s.procs, s.procs[s.current].pid, s.idle, 0)
  }

  /** Steps the scan takes from pid to slot t. */
  function Distance(pid: nat, t: nat): nat { (t - pid) % PROCS_MAX }

  lemma DistanceOf(pid: nat, i: nat)
    requires i < PROCS_MAX
    ensures Distance(pid, (pid + i) % PROCS_MAX) == i
  {
  }

  lemma AtDistance(pid: nat, t: nat)
    requires t < PROCS_MAX
    ensures (pid + Distance(pid, t)) % PROCS_MAX == t
  {
  }

  lemma {:induction false} ScanFindsFirst(procs: Table, pid: nat, idle: nat, i: nat)
    requires i <= PROCS_MAX && idle < PROCS_MAX
    requires forall t :: 0 <= t < PROCS_MAX && Distance(pid, t) < i ==> !Pickable(procs[t])
    ensures var n := Scan(procs, pid, idle, i);
            && n < PROCS_MAX
            && ((forall t :: 0 <= t < PROCS_MAX ==> !Pickable(procs[t])) ==> n == idle)
            && ((exists t :: 0 <= t < PROCS_MAX && Pickable(procs[t])) ==>
                  Pickable(procs[n]) && forall t :: 0 <= t < PROCS_MAX && Pickable(procs[t]) ==>
                      Distance(pid, n) <= Distance(pid, t))
    decreases PROCS_MAX - i
  {
    if i < PROCS_MAX {
      var at := (pid + i) % PROCS_MAX;
      DistanceOf(pid, i);
      if !Pickable(procs[at]) {
        forall t | 0 <= t < PROCS_MAX && Distance(pid, t) < i + 1
          ensures !Pickable(procs[t])
        {
          AtDistance(pid, t);
        }
        hide Distance, Pickable;
        ScanFindsFirst(procs, pid, idle, i + 1);
        ScanStep(procs, pid, idle, i);
      }
    } else {
      forall t | 0 <= t < PROCS_MAX
        ensures Distance(pid, t) < PROCS_MAX
      {
      }
    }
  }

  /** yield picks the runnable non-idle process cyclically nearest after the current one, and
      the idle process exactly when there is none. */
  lemma NextIsNearest(s: Sched)
    requires SchedOk(s)
    ensures Next(s) < PROCS_MAX
    ensures (Next(s) == s.idle) <==> forall t :: 0 <= t < PROCS_MAX ==> !Pickable(s.procs[t])
    ensures Next(s) != s.idle ==> Pickable(s.procs[Next(s)])
    ensures forall t :: 0 <= t < PROCS_MAX && Pickable(s.procs[t]) ==>
              Distance(s.procs[s.current].pid, Next(s)) <= Distance(s.procs[s.current].pid, t)
  {
    ScanFindsFirst(s.procs, s.procs[s.current].pid, s.idle, 0);
    assert !Pickable(s.procs[0]);
  }

  // ---------------------------------------------------------------- runs

  /** What can happen to the process table: the current process yields or exits, or the
      kernel creates a process. */
  datatype Event = Yield | Exit | Create(pageTable: nat)

  datatype Outcome = Going(s: Sched) | Halted

  /** The current process, marked exited, before the scan of its last yield. */
  function Gone(s: Sched): Sched
    requires s.current < PROCS_MAX
  {
    s.(procs := s.procs[s.current := s.procs[s.current].(state := Exited)])
  }

  lemma NextRunnable(s: Sched)
    requires s.current < PROCS_MAX && s.idle < PROCS_MAX
    ensures Next(s) < PROCS_MAX && (Next(s) == s.idle || Pickable(s.procs[Next(s)]))
  {
    ScanFindsFirst(s.procs, s.procs[s.current].pid, s.idle, 0);
  }

  /** The picked process resumes where it stopped. A process that is not runnable stopped in
      the yield of its own exit call, or never left it; the panic comes next. */
  function Resume(s: Sched): Outcome
    requires s.current < PROCS_MAX && s.idle < PROCS_MAX
  {
    NextRunnable(s);
    if s.procs[Next(s)].state == Runnable then Going(s.(current := Next(s))) else Halted
  }

  /** Every step keeps the process table well formed. */
  function Step(s: Sched, e: Event): (o: Outcome)
    requires SchedOk(s)
    ensures o.Going? ==> SchedOk(o.s)
  {
    match e
    case Yield => Resume(s)
    case Exit => Resume(Gone(s))
    case Create(pageTable) =>
      var slot := FirstUnused(s.procs);
      if slot == PROCS_MAX then Halted
      else Going(s.(procs := s.procs[slot := Process(slot + 1, Runnable, pageTable)]))
  }

  /** A plain yield always goes on: the current process itself can be picked, or is idle. */
  lemma YieldGoesOn(s: Sched)
    requires SchedOk(s)
    ensures Next(s) < PROCS_MAX && Used(s.procs[Next(s)])
    ensures Step(s, Yield) == Going(s.(current := Next(s))) && SchedOk(s.(current := Next(s)))
  {
    NextIsNearest(s);
  }

  /** The panic after yield in the exit call is reached exactly when no other process can be
      picked and idle is exiting or has exited. */
  lemma ExitPanicsExactly(s: Sched)
    requires SchedOk(s)
    ensures Step(s, Exit).Halted? <==>
              && (forall t :: 0 <= t < PROCS_MAX && t != s.current ==> !Pickable(s.procs[t]))
              && (s.current == s.idle || s.procs[s.idle].state == Exited)
  {
    var gone := Gone(s);
    ScanFindsFirst(gone.procs, gone.procs[gone.current].pid, gone.idle, 0);
    assert forall t :: 0 <= t < PROCS_MAX ==> (Pickable(gone.procs[t]) <==> t != s.current && Pickable(s.procs[t]));
  }

  function Run(s: Sched, es: seq<Event>): (o: Outcome)
    requires SchedOk(s)
    ensures o.Going? ==> SchedOk(o.s)
    decreases |es|
  {
    if es == [] then Going(s)
    else
      match Step(s, es[0])
      case Halted => Halted
      case Going(t) => Run(t, es[1..])
  }

  /** Whatever happens afterwards, an exited process, idle included, never runs again; its slot
      is not reused either. */
  lemma {:induction false} ExitedNeverRuns(s: Sched, es: seq<Event>, p: nat)
    requires SchedOk(s) && p < PROCS_MAX && s.procs[p].state == Exited
    ensures Run(s, es).Going? ==> Run(s, es).s.current != p && Run(s, es).s.procs[p] == s.procs[p]
    decreases |es|
  {
    if es != [] {
      var o := Step(s, es[0]);
      if o.Going? {
        assert o.s.procs[p] == s.procs[p];
        ExitedNeverRuns(o.s, es[1..], p);
      }
    }
  }

  /** What an exit changes: the state of the process that exits, and which one is current. */
  lemma ExitMarks(s: Sched)
    requires SchedOk(s) && Step(s, Exit).Going?
    ensures var t := Step(s, Exit).s;
            && t.procs == s.procs[s.current := s.procs[s.current].(state := Exited)] && t.idle == s.idle
            && t.current != s.current && t.procs[t.current].state == Runnable
  {
    NextRunnable(Gone(s));
  }

  /** Whatever happens after a process's exit, it is not current again, and its slot keeps its pid
      and its directory and stays taken, marked exited. */
  lemma ExitIsForever(s: Sched, es: seq<Event>)
    requires SchedOk(s) && Run(s, [Exit] + es).Going?
    ensures var t := Run(s, [Exit] + es).s;
            t.current != s.current && t.procs[s.current] == s.procs[s.current].(state := Exited)
  {
    assert ([Exit] + es)[1..] == es;
    ExitMarks(s);
    ExitedNeverRuns(Step(s, Exit).s, es, s.current);
  }

  /** A creation fills the first unused slot with a runnable process and leaves everything else,
      slots of exited processes included; the panic comes exactly if no slot is unused. */
  lemma CreateTakesSlot(s: Sched, dir: nat)
    requires SchedOk(s)
    ensures Step(s, Create(dir)).Halted? <==> forall k :: 0 <= k < PROCS_MAX ==> s.procs[k].state != Unused
    ensures Step(s, Create(dir)).Going? ==>
              exists slot :: 0 <= slot < PROCS_MAX && s.procs[slot].state == Unused
                  && (forall k :: 0 <= k < slot ==> s.procs[k].state != Unused)
                  && Step(s, Create(dir)).s == s.(procs := s.procs[slot := Process(slot + 1, Runnable, dir)])
  {
    var slot := FirstUnused(s.procs);
    assert slot < PROCS_MAX ==> s.procs[slot].state == Unused;
  }

  /** When the only process that can be picked exits, idle runs; when idle exits as well, the
      panic is reached. */
  lemma LastExitThenIdle(s: Sched)
    requires SchedOk(s) && s.current != s.idle && s.procs[s.idle].state == Runnable
    requires forall t :: 0 <= t < PROCS_MAX && t != s.current ==> !Pickable(s.procs[t])
    ensures Step(s, Exit) == Going(Gone(s).(current := s.idle))
    ensures Step(Gone(s).(current := s.idle), Exit).Halted?
  {
    var gone := Gone(s);
    NextRunnable(gone);
    assert forall t :: 0 <= t < PROCS_MAX ==> !Pickable(gone.procs[t]);
    ScanFindsFirst(gone.procs, gone.procs[gone.current].pid, gone.idle, 0);
    ExitPanicsExactly(gone.(current := gone.idle));
  }

  /** So idle can exit while one other process is left, which then runs; when that one exits
      too, idle is picked, resumes in its own exit call and panics. */
  lemma PanicAfterIdleExit(s: Sched, p: nat)
    requires SchedOk(s) && s.current == s.idle && p < PROCS_MAX && Pickable(s.procs[p])
    requires forall t :: 0 <= t < PROCS_MAX && t != p ==> !Pickable(s.procs[t])
    ensures Step(s, Exit).Going? && Step(s, Exit).s.current == p
    ensures Step(Step(s, Exit).s, Exit).Halted?
  {
    ExitPanicsExactly(s);
    var gone := Gone(s);
    NextRunnable(gone);
    ScanFindsFirst(gone.procs, 0, 0, 0);
    assert Pickable(gone.procs[p]);
    ExitPanicsExactly(Step(s, Exit).s);
  }

  // ---------------------------------------------------------------- fairness

  /** Times the scheduler is called in es. */
  function Yields(es: seq<Event>): nat {
    if es == [] then 0 else (if es[0].Create? then 0 else 1) + Yields(es[1..])
  }

  /** p can be picked in every state of the run, and the run does not halt. */
  predicate StaysRunnable(s: Sched, es: seq<Event>, p: nat)
    requires SchedOk(s) && p < PROCS_MAX
    decreases |es|
  {
    && Pickable(s.procs[p])
    && (es != [] ==> Step(s, es[0]).Going? && StaysRunnable(Step(s, es[0]).s, es[1..], p))
  }

  /** Some scheduler call of the run picks p. */
  predicate Served(s: Sched, es: seq<Event>, p: nat)
    requires SchedOk(s)
    decreases |es|
  {
    && es != []
    && Step(s, es[0]).Going?
    && var s' := Step(s, es[0]).s;
    ((!es[0].Create? && s'.current == p) || Served(s', es[1..], p))
  }

  /** Processes the scheduler may still pick before p. */
  function Wait(s: Sched, p: nat): nat
    requires SchedOk(s) && p < PROCS_MAX
  {
    Distance(if s.current == s.idle then 1 else s.current + 1, p)
  }

  lemma DistanceAfter(pid: nat, n: nat, p: nat)
    requires pid <= PROCS_MAX && n < PROCS_MAX && p < PROCS_MAX && n != p && Distance(pid, n) <= Distance(pid, p)
    ensures Distance(n + 1, p) == Distance(pid, p) - Distance(pid, n) - 1
  {
    var d, e := Distance(pid, n), Distance(pid, p);
    assert d == (if n >= pid then n - pid else n - pid + PROCS_MAX);
    assert e == (if p >= pid then p - pid else p - pid + PROCS_MAX);
  }

  /** A scheduler call that does not pick p picks a process before it. */
  lemma PickCloser(s: Sched, p: nat)
    requires s.current < PROCS_MAX && s.idle == 0 && !Pickable(s.procs[0]) && 0 < p < PROCS_MAX && Pickable(s.procs[p])
    requires s.procs[s.current].pid == (if s.current == 0 then 0 else s.current + 1)
    ensures 0 < Next(s) < PROCS_MAX
    ensures Next(s) != p ==> Distance(Next(s) + 1, p) < Distance(if s.current == 0 then 1 else s.current + 1, p)
  {
    var pid := s.procs[s.current].pid;
    ScanFindsFirst(s.procs, pid, s.idle, 0);
    var n := Next(s);
    assert Pickable(s.procs[n]) && Distance(pid, n) <= Distance(pid, p);
    if n != p {
      DistanceAfter(pid, n, p);
      if s.current == 0 {
        assert Distance(0, n) == n && Distance(0, p) == p && Distance(1, p) == p - 1;
      }
    }
  }

  lemma StepCloser(s: Sched, e: Event, p: nat)
    requires SchedOk(s) && 0 < p < PROCS_MAX && Pickable(s.procs[p])
    requires Step(s, e).Going? && Pickable(Step(s, e).s.procs[p])
    ensures e.Create? ==> Wait(Step(s, e).s, p) == Wait(s, p)
    ensures !e.Create? && Step(s, e).s.current != p ==> Wait(Step(s, e).s, p) < Wait(s, p)
  {
    if !e.Create? {
      hide Scan, Distance;
      PickCloser(if e.Exit? then Gone(s) else s, p);
    }
  }

  lemma {:induction false} ServedInTime(s: Sched, es: seq<Event>, p: nat)
    requires SchedOk(s) && 0 < p < PROCS_MAX && StaysRunnable(s, es, p) && Yields(es) > Wait(s, p)
    ensures Served(s, es, p)
    decreases |es|
  {
    var s' := Step(s, es[0]).s;
    StepCloser(s, es[0], p);
    if es[0].Create? || s'.current != p {
      ServedInTime(s', es[1..], p);
    }
  }

  lemma WaitBound(s: Sched, p: nat)
    requires SchedOk(s) && 0 < p < PROCS_MAX && p != s.current
    ensures Wait(s, p) < PROCS_MAX - 1
  {
  }

  /** A process that stays runnable is picked within seven scheduler calls, whatever
      the other processes do meanwhile. */
  lemma NoStarvation(s: Sched, es: seq<Event>, p: nat)
    requires SchedOk(s) && 0 < p < PROCS_MAX && p != s.current
    requires StaysRunnable(s, es, p) && Yields(es) >= 7
    ensures Served(s, es, p)
  {
    WaitBound(s, p);
    ServedInTime(s, es, p);
  }
}
