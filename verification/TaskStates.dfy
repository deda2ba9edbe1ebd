/** What becomes of the tasks themselves: who is switched in and out, who sleeps, who wakes, who dies and why. */
module TaskStates {
  import opened Wrappers
  import opened RunQueue
  import opened SchedulerRuns

  // ----- Switching -----

  /** Some task other than the current one is Ready at place `q`. */
  ghost predicate ReadyAt(c: Cpu, q: nat) {
    q < |c.tasks| && q != c.current && c.tasks[q].state == Ready
  }

  /** Place `q` holds the first Ready task after the current one, going round the queue. */
  ghost predicate NextUp(c: Cpu, q: nat) {
    && c.current < |c.tasks|
    && ReadyAt(c, q)
    && forall p | ReadyAt(c, p) :: Distance(c, q) <= Distance(c, p)
  }

  ghost predicate Crowded(c: Cpu) {
    exists q :: ReadyAt(c, q)
  }

  /** What leaving the CPU does to a task. */
  function Leaving(t: Task): Task {
    if t.state == Running then Task(t.id, Ready, t.ticks, t.left, t.quantum, t.isUser) else t
  }

  function Entering(t: Task): Task {
    Task(t.id, Running, t.ticks, t.left, t.quantum, t.isUser)
  }

  function FullQuantum(t: Task): Task {
    Task(t.id, t.state, t.ticks, t.quantum, t.quantum, t.isUser)
  }

  /** From `c` to `c'` the CPU has gone to the task at `q`; every third task is as it was. */
  ghost predicate HandsOver(c: Cpu, c': Cpu, q: nat, out: Task, in_: Task) {
    && c.current < |c.tasks| == |c'.tasks| && q < |c.tasks| && q != c.current
    && c'.current == q
    && c'.tasks[q] == in_
    && c'.tasks[c.current] == out
    && forall i | 0 <= i < |c.tasks| && i != q && i != c.current :: c'.tasks[i] == c.tasks[i]
  }

  lemma ScanFinds(c: Cpu, q: nat)
    requires CpuOk(c) && NextUp(c, q)
    ensures |c.tasks| > 1 && PickNext(c) == Some(q)
  {
    hide Scan, After;
    var d := Distance(c, q);
    AfterDistance(c, d);
    assert After(c, d) == q;
    var r := Scan(c, 1);
    var i := r.value;
    assert 1 <= i <= d;
    AfterDistance(c, i);
    assert ReadyAt(c, After(c, i));
  }

  lemma ScanFindsNone(c: Cpu)
    requires CpuOk(c) && !Crowded(c) && c.tasks != []
    ensures PickNext(c).Some? ==> PickNext(c).value == c.current
  {
    hide Scan, After;
    var r := Scan(c, 1);
    if r.Some? { assert !ReadyAt(c, After(c, r.value)); }
  }

  /** A waiting task has a nearest one. */
  lemma SomeNextUp(c: Cpu) returns (q: nat)
    requires CpuOk(c) && Crowded(c)
    ensures NextUp(c, q)
  {
    hide Scan, After;
    var p :| ReadyAt(c, p);
    AfterDistance(c, Distance(c, p));
    assert After(c, Distance(c, p)) == p;
    var i := Scan(c, 1).value;
    AfterDistance(c, i);
    q := After(c, i);
    forall p | ReadyAt(c, p) ensures Distance(c, q) <= Distance(c, p) {
      AfterDistance(c, Distance(c, p));
      assert After(c, Distance(c, p)) == p;
    }
  }

  lemma SwitchIs(c: Cpu, q: nat)
    requires CpuOk(c) && q < |c.tasks| && q != c.current
    ensures HandsOver(c, SwitchTo(c, q), q, Leaving(c.tasks[c.current]), Entering(c.tasks[q]))
  {
  }

  /** A yield does nothing while no other task is Ready; else the first Ready task after the current one runs, the old
      one goes back to Ready if it was Running and keeps its state if it sleeps or is Dead. */
  lemma YieldIs(c: Cpu) returns (q: nat)
    requires CpuOk(c)
    ensures !Crowded(c) ==> Yield(c) == c
    ensures Crowded(c) ==>
      && NextUp(c, q)
      && HandsOver(c, Yield(c), q, Leaving(c.tasks[c.current]), Entering(c.tasks[q]))
  {
    hide PickNext, Crowded, HandsOver, SwitchTo, CpuOk;
    q := 0;
    if Crowded(c) {
      q := SomeNextUp(c);
      ScanFinds(c, q);
      SwitchIs(c, q);
    } else if |c.tasks| > 1 {
      ScanFindsNone(c);
    }
  }

  /** Before the quantum has run out a preemption does nothing. Then the current task gets a full quantum again, and if
      another task is Ready the first one after it runs, with a full quantum too. */
  lemma PreemptIs(c: Cpu) returns (q: nat)
    requires CpuOk(c)
    ensures |c.tasks| < 2 || c.tasks[c.current].left > 0 ==> Preempt(c) == c
    ensures |c.tasks| >= 2 && c.tasks[c.current].left == 0 && !Crowded(c) ==>
      Preempt(c) == Cpu(c.tasks[c.current := FullQuantum(c.tasks[c.current])], c.current)
    ensures |c.tasks| >= 2 && c.tasks[c.current].left == 0 && Crowded(c) ==>
      && NextUp(c, q)
      && HandsOver(c, Preempt(c), q, Leaving(FullQuantum(c.tasks[c.current])), FullQuantum(Entering(c.tasks[q])))
  {
    hide PickNext, SwitchTo;
    q := 0;
    if |c.tasks| >= 2 && c.tasks[c.current].left == 0 {
      var c1 := c.(tasks := Refill(c.tasks, c.current));
      assert forall p: nat :: ReadyAt(c, p) <==> ReadyAt(c1, p);
      if Crowded(c) {
        q := SomeNextUp(c);
        SameNext(c, c1, q);
        ScanFinds(c1, q);
        SwitchIs(c1, q);
      } else {
        ScanFindsNone(c1);
      }
    }
  }

  lemma SameNext(c: Cpu, c1: Cpu, q: nat)
    requires c.current == c1.current && |c.tasks| == |c1.tasks| && NextUp(c, q)
    requires forall i | 0 <= i < |c.tasks| :: c1.tasks[i].state == c.tasks[i].state
    ensures NextUp(c1, q)
  {
    forall p | ReadyAt(c1, p) ensures Distance(c1, q) <= Distance(c1, p) {
      assert ReadyAt(c, p);
    }
  }

  // ----- The quantum -----

  /** After `k` timer ticks without any other section. */
  function Charges(c: Cpu, k: nat): Cpu {
    if k == 0 then c else Charge(Charges(c, k - 1))
  }

  lemma {:induction false} ChargesAre(c: Cpu, k: nat)
    requires CpuOk(c) && c.tasks != []
    ensures var t, c' := c.tasks[c.current], Charges(c, k);
      && c'.current == c.current && |c'.tasks| == |c.tasks|
      && c'.tasks[c.current] ==
           Task(t.id, t.state, t.ticks + k, if k < t.left then t.left - k else 0, t.quantum, t.isUser)
      && forall i | 0 <= i < |c.tasks| && i != c.current :: c'.tasks[i] == c.tasks[i]
  {
    if k > 0 { ChargesAre(c, k - 1); }
  }

  /** A task with `left` ticks left keeps the CPU against preemption for that many ticks and not one more: the next
      preemption hands the CPU to the first Ready task after it, and the task itself waits with a full quantum. */
  lemma QuantumRunsOut(c: Cpu, k: nat) returns (q: nat)
    requires CpuOk(c) && c.tasks != [] && Crowded(c)
    ensures k < c.tasks[c.current].left ==> Preempt(Charges(c, k)) == Charges(c, k)
    ensures k >= c.tasks[c.current].left ==>
      && NextUp(c, q)
      && var t, u := c.tasks[c.current], c.tasks[q];
         HandsOver(c, Preempt(Charges(c, k)), q,
           Task(t.id, if t.state == Running then Ready else t.state, t.ticks + k, t.quantum, t.quantum, t.isUser),
           Task(u.id, Running, u.ticks, u.quantum, u.quantum, u.isUser))
  {
    hide Charges, Preempt, CpuOk;
    ChargesAre(c, k);
    var c1 := Charges(c, k);
    ChargedOk(c, c1);
    q := PreemptIs(c1);
    if k >= c.tasks[c.current].left { SameNext(c1, c, q); }
  }

  lemma ChargedOk(c: Cpu, c1: Cpu)
    requires CpuOk(c) && Crowded(c) && c.current == c1.current && |c.tasks| == |c1.tasks|
    requires forall i | 0 <= i < |c.tasks| :: c1.tasks[i].state == c.tasks[i].state
    ensures CpuOk(c1) && Crowded(c1) && |c.tasks| >= 2 && c.current < |c.tasks|
  {
    var q :| ReadyAt(c, q);
    assert ReadyAt(c1, q);
  }

  // ----- Sleepers and the dead -----

  /** Every task called `id` is in state `st`. */
  ghost predicate AllIn(c: Cpu, id: nat, st: TaskState) {
    forall i | 0 <= i < |c.tasks| && c.tasks[i].id == id :: c.tasks[i].state == st
  }

  ghost predicate Current(c: Cpu, id: nat) {
    c.current < |c.tasks| && c.tasks[c.current].id == id
  }

  /** The sections that may end a sleep until `w` or bring a Dead task back: a wake-up at or after `w`, a kill of a
      sleeper, a sleep requested by the task itself, a new task of that name. */
  ghost predicate Disturbs(c: Cpu, e: Event, id: nat, st: TaskState) {
    match e
    case WakeE(now) => st.Sleeping? && now >= st.wake
    case KillE(victim) => victim == id && st != Dead
    case SleepE(_) => Current(c, id)
    case PushE(t) => t.id == id
    case _ => false
  }

  /** From `c` to `c'` the tasks called `id` have all stayed in their state, a sleeper is still there, and none of them
      has been given the CPU. */
  ghost predicate Undisturbed(c: Cpu, c': Cpu, id: nat, st: TaskState) {
    && AllIn(c', id, st)
    && (st.Sleeping? ==> Count(c'.tasks, id) == Count(c.tasks, id))
    && (Current(c', id) ==> Current(c, id))
  }

  lemma SameSeats(c: Cpu, c': Cpu, id: nat, st: TaskState)
    requires |c'.tasks| == |c.tasks| && AllIn(c', id, st)
    requires forall i | 0 <= i < |c.tasks| :: c'.tasks[i].id == c.tasks[i].id
    requires Current(c', id) ==> Current(c, id)
    ensures Undisturbed(c, c', id, st)
  {
    SameNames(c'.tasks, c.tasks, id);
  }

  lemma YieldLeaves(c: Cpu, id: nat, st: TaskState)
    requires CpuOk(c) && AllIn(c, id, st) && st != Ready && st != Running
    ensures Undisturbed(c, Yield(c), id, st) && Undisturbed(c, Preempt(c), id, st)
  {
    hide Yield, Preempt, Crowded, Distance, Count, CpuOk;
    var q := YieldIs(c);
    var p := PreemptIs(c);
    if c.tasks != [] { InQueue(c); }
    SameSeats(c, Yield(c), id, st);
    SameSeats(c, Preempt(c), id, st);
  }

  lemma NoneReaped(c: Cpu, n: nat, id: nat)
    requires n <= |c.tasks| && forall i | 0 <= i < n && c.tasks[i].id == id :: c.tasks[i].state != Dead
    ensures Reaped(c, n, id) == 0
  {
  }

  lemma ReapLeaves(c: Cpu, id: nat, st: TaskState)
    requires CpuOk(c) && AllIn(c, id, st)
    ensures Undisturbed(c, Reap(c), id, st)
  {
    hide Kept, Count, Reaped;
    var c', n := Reap(c), |c.tasks|;
    ReapOk(c);
    forall j | 0 <= j < |c'.tasks| && c'.tasks[j].id == id ensures c'.tasks[j].state == st {
      var i := KeptFrom(c, n, j);
    }
    if st.Sleeping? {
      NoneReaped(c, n, id);
      LocalCount(c, ReapE, id);
    }
  }

  lemma TakeLeaves(c: Cpu, id: nat, st: TaskState)
    requires CpuOk(c) && AllIn(c, id, st) && st != Ready && st != Running
    ensures Undisturbed(c, Take(c), id, st)
  {
    hide FirstStealable, Count;
    TakeCount(c, id);
    if Victim(c).Some? {
      var i, r := Victim(c).value, Take(c);
      assert forall j | 0 <= j < |r.tasks| :: r.tasks[j] == if j < i then c.tasks[j] else c.tasks[j + 1];
    }
  }

  /** One locked section that does not address them leaves sleepers asleep and the dead dead. */
  lemma StaysPut(c: Cpu, e: Event, id: nat, st: TaskState)
    requires CpuOk(c) && EventOk(e) && AllIn(c, id, st) && st != Ready && st != Running && !Disturbs(c, e, id, st)
    ensures CpuOk(RunQueue.Apply(c, e)) && Undisturbed(c, RunQueue.Apply(c, e), id, st)
  {
    hide Yield, Preempt, Reap, Take, Count, Undisturbed, CpuOk;
    ApplyOk(c, e);
    if c.tasks != [] { InQueue(c); }
    match e {
      case YieldE => YieldLeaves(c, id, st);
      case PreemptE => YieldLeaves(c, id, st);
      case ReapE => ReapLeaves(c, id, st);
      case TakeE => TakeLeaves(c, id, st);
      case PushE(t) => PushLeaves(c, t, id, st);
      case _ => SameSeats(c, RunQueue.Apply(c, e), id, st);
    }
  }

  lemma PushLeaves(c: Cpu, t: Task, id: nat, st: TaskState)
    requires CpuOk(c) && AllIn(c, id, st) && t.id != id
    ensures Undisturbed(c, Push(c, t), id, st)
  {
    hide Count;
    PushCount(c, t, id);
  }

  ghost predicate TraceOk(c: Cpu, es: seq<Event>) {
    CpuOk(c) && forall i | 0 <= i < |es| :: EventOk(es[i])
  }

  /** No section of the trace disturbs the tasks called `id`. */
  ghost predicate LeftAlone(c: Cpu, es: seq<Event>, id: nat, st: TaskState)
    requires TraceOk(c, es)
    decreases es
  {
    es == [] ||
    (!Disturbs(c, es[0], id, st) && (ApplyOk(c, es[0]); LeftAlone(RunQueue.Apply(c, es[0]), es[1..], id, st)))
  }

  lemma {:induction false} TraceLeaves(c: Cpu, es: seq<Event>, id: nat, st: TaskState)
    requires TraceOk(c, es) && AllIn(c, id, st) && st != Ready && st != Running && LeftAlone(c, es, id, st)
    ensures CpuOk(Trace(c, es)) && Undisturbed(c, Trace(c, es), id, st)
    decreases es
  {
    hide CpuOk, EventOk, RunQueue.Apply, Disturbs, Count, Current;
    if es != [] {
      assert EventOk(es[0]);
      if c.tasks != [] { InQueue(c); }
      StaysPut(c, es[0], id, st);
      TraceLeaves(RunQueue.Apply(c, es[0]), es[1..], id, st);
    }
  }

  /** A task that sleeps until `w` is neither run, lost nor woken by any later sections but its own, until the first
      wake-up at or after `w` makes it Ready. */
  lemma SleepsUntil(c: Cpu, w: nat, es: seq<Event>, now: nat)
    requires TraceOk(c, es) && c.tasks != []
    requires forall i | 0 <= i < |c.tasks| && i != c.current :: c.tasks[i].id != c.tasks[c.current].id
    requires CpuOk(Sleep(c, w)) ==> LeftAlone(Sleep(c, w), es, c.tasks[c.current].id, Sleeping(w))
    ensures CpuOk(Sleep(c, w))
    ensures var id, d := c.tasks[c.current].id, Trace(Sleep(c, w), es);
      && Count(d.tasks, id) == Count(c.tasks, id) > 0
      && AllIn(d, id, Sleeping(w))
      && AllIn(Wake(d, now), id, if now >= w then Ready else Sleeping(w))
  {
    hide Trace, Count, LeftAlone;
    var id, c1 := c.tasks[c.current].id, Sleep(c, w);
    ApplyOk(c, SleepE(w));
    SameNames(c1.tasks, c.tasks, id);
    TraceLeaves(c1, es, id, Sleeping(w));
    SomeNamed(c.tasks, c.current, id);
  }

  lemma {:induction false} SomeNamed(t: seq<Task>, i: nat, id: nat)
    requires i < |t| && t[i].id == id
    ensures Count(t, id) > 0
  {
    if i > 0 { SomeNamed(t[1..], i - 1, id); }
  }

  lemma {:induction false} NoneNamed(t: seq<Task>, id: nat)
    requires forall i | 0 <= i < |t| :: t[i].id != id
    ensures Count(t, id) == 0
  {
    if t != [] { NoneNamed(t[1..], id); }
  }

  /** Only the first task of that name dies, and nothing else changes. */
  lemma KillIs(c: Cpu, id: nat)
    ensures var c' := Kill(c, id);
      && c'.current == c.current && |c'.tasks| == |c.tasks|
      && (forall i | 0 <= i < |c.tasks| && c.tasks[i].id != id :: c'.tasks[i] == c.tasks[i])
      && (forall i | 0 <= i < |c.tasks| && c.tasks[i].id == id ::
            var t := c.tasks[i];
            c'.tasks[i] == if FirstOf(c.tasks, i) then Task(id, Dead, t.ticks, t.left, t.quantum, t.isUser) else t)
  {
    hide FindId;
    FindsFirst(c.tasks, id);
  }

  ghost predicate FirstOf(t: seq<Task>, i: nat)
    requires i < |t|
  {
    forall j | 0 <= j < i :: t[j].id != t[i].id
  }

  lemma {:induction false} FindsFirst(t: seq<Task>, id: nat)
    ensures FindId(t, id).Some? ==> FindId(t, id).value < |t| && FirstOf(t, FindId(t, id).value)
  {
    if t != [] && t[0].id != id { FindsFirst(t[1..], id); }
  }

  /** A killed task never comes back: whatever the later sections are, it stays Dead, is never given the CPU again, and
      the first reaping that finds it off the CPU removes it. */
  lemma KilledForGood(c: Cpu, id: nat, es: seq<Event>)
    requires TraceOk(c, es)
    requires forall i, j | 0 <= i < j < |c.tasks| && c.tasks[i].id == id :: c.tasks[j].id != id
    requires CpuOk(Kill(c, id)) ==> LeftAlone(Kill(c, id), es, id, Dead)
    ensures CpuOk(Kill(c, id))
    ensures var d := Trace(Kill(c, id), es);
      && AllIn(d, id, Dead)
      && (Current(d, id) ==> Current(c, id))
      && (!Current(d, id) ==> Count(Reap(d).tasks, id) == 0)
  {
    hide Trace, Count, LeftAlone, Kill, Kept, CpuOk;
    ApplyOk(c, KillE(id));
    KillIs(c, id);
    TraceLeaves(Kill(c, id), es, id, Dead);
    var d := Trace(Kill(c, id), es);
    if !Current(d, id) { ReapRemoves(d, id); }
  }

  lemma ReapRemoves(c: Cpu, id: nat)
    requires CpuOk(c) && AllIn(c, id, Dead) && !Current(c, id)
    ensures Count(Reap(c).tasks, id) == 0
  {
    hide Kept, Count;
    forall j | 0 <= j < |Reap(c).tasks| ensures Reap(c).tasks[j].id != id {
      var i := KeptFrom(c, |c.tasks|, j);
    }
    NoneNamed(Reap(c).tasks, id);
  }

  // ----- Why a task is reaped -----

  ghost predicate NoneDead(c: Cpu, id: nat) {
    forall i | 0 <= i < |c.tasks| && c.tasks[i].id == id :: c.tasks[i].state != Dead
  }

  lemma SwitchSpares(c: Cpu, id: nat)
    requires CpuOk(c) && NoneDead(c, id)
    ensures NoneDead(Yield(c), id) && NoneDead(Preempt(c), id)
  {
    hide Yield, Preempt, Crowded, Distance, CpuOk;
    var q := YieldIs(c);
    var p := PreemptIs(c);
    if c.tasks != [] { InQueue(c); }
  }

  lemma ReapSpares(c: Cpu, id: nat)
    requires NoneDead(c, id)
    ensures NoneDead(Reap(c), id)
  {
    hide Kept;
    forall j | 0 <= j < |Reap(c).tasks| && Reap(c).tasks[j].id == id ensures Reap(c).tasks[j].state != Dead {
      var i := KeptFrom(c, |c.tasks|, j);
    }
  }

  lemma TakeSpares(c: Cpu, id: nat)
    requires NoneDead(c, id)
    ensures NoneDead(Take(c), id)
  {
    hide FirstStealable;
    if Victim(c).Some? {
      var i, r := Victim(c).value, Take(c);
      assert forall j | 0 <= j < |r.tasks| :: r.tasks[j] == if j < i then c.tasks[j] else c.tasks[j + 1];
    }
  }

  /** No section but a kill of that name makes a task Dead. */
  lemma OnlyKillKills(c: Cpu, e: Event, id: nat)
    requires CpuOk(c) && EventOk(e) && NoneDead(c, id) && e != KillE(id)
    ensures NoneDead(RunQueue.Apply(c, e), id)
  {
    hide Yield, Preempt, Reap, Take, CpuOk;
    if c.tasks != [] { InQueue(c); }
    match e {
      case YieldE => SwitchSpares(c, id);
      case PreemptE => SwitchSpares(c, id);
      case ReapE => ReapSpares(c, id);
      case TakeE => TakeSpares(c, id);
      case _ =>
    }
  }

  /** Nobody called `id` is Dead in any queue. */
  ghost predicate NoneDeadAnywhere(s: Sys, id: nat) {
    forall k | 0 <= k < |s.cpus| :: NoneDead(s.cpus[k], id)
  }

  lemma StepSpares(s: Sys, a: Step, id: nat)
    requires SysOk(s) && StepOk(s, a) && NoneDeadAnywhere(s, id)
    requires a.Local? ==> a.event != KillE(id)
    ensures NoneDeadAnywhere(SchedulerRuns.Apply(s, a), id) && Lost(s, a, id) == 0
  {
    hide RunQueue.Apply, CpuOk, NoneDead, Reaped;
    var s' := SchedulerRuns.Apply(s, a);
    forall k | 0 <= k < |s'.cpus| ensures NoneDead(s'.cpus[k], id) {
      SectionEffect(s, a, k);
      var r := Sections(s, a, k);
      if r != [] { OnlyKillKills(s.cpus[k], r[0], id); }
    }
    if a.Local? { NoneDeadNoneReaped(s.cpus[a.cpu], id); }
  }

  lemma NoneDeadNoneReaped(c: Cpu, id: nat)
    requires NoneDead(c, id)
    ensures Reaped(c, |c.tasks|, id) == 0
  {
    NoneReaped(c, |c.tasks|, id);
  }

  ghost predicate Kills(steps: seq<Step>, i: nat, id: nat) {
    i < |steps| && steps[i].Local? && steps[i].event == KillE(id)
  }

  /** Over every run: a task is reaped only if a kill named it, or it was Dead to begin with. */
  lemma {:induction false} ReapedOnlyIfKilled(s: Sys, steps: seq<Step>, id: nat)
    requires RunOk(s, steps) && TotalLost(s, steps, id) > 0
    ensures !NoneDeadAnywhere(s, id) || exists i: nat :: Kills(steps, i, id)
    decreases steps
  {
    hide SysOk, SchedulerRuns.Apply, Lost, NoneDeadAnywhere, StepOk;
    if NoneDeadAnywhere(s, id) && !Kills(steps, 0, id) {
      StepSpares(s, steps[0], id);
      ReapedOnlyIfKilled(SchedulerRuns.Apply(s, steps[0]), steps[1..], id);
      var i: nat :| Kills(steps[1..], i, id);
      assert Kills(steps, i + 1, id);
    }
  }

  /** From boot on, no task is ever reaped that nobody killed. */
  lemma BootReaps(n: nat, steps: seq<Step>, id: nat)
    requires 0 < n <= MAX_CPUS && RunOk(Boot(n), steps) && TotalLost(Boot(n), steps, id) > 0
    ensures exists i: nat :: Kills(steps, i, id)
  {
    hide RunOk, TotalLost, Kills;
    ReapedOnlyIfKilled(Boot(n), steps, id);
  }

  // ----- Issuing and delivering -----

  /** A new task has the next number and a full quantum, has run for no tick, and is Ready; delivering puts a task at
      the end of the queue it was meant for. */
  lemma IssueIs(s: Sys, dest: nat, isUser: bool, i: nat)
    requires SysOk(s) && dest < |s.cpus|
    ensures var t := Task(s.nextTid, Ready, 0, 10, 10, isUser);
      SchedulerRuns.Apply(s, Issue(dest, isUser)) == Sys(s.cpus, s.moving + [Moving(dest, t)], s.nextTid + 1)
    ensures i < |s.moving| ==>
      var s', m := SchedulerRuns.Apply(s, Deliver(i)), s.moving[i];
      && m.dest < |s.cpus| == |s'.cpus| && s'.nextTid == s.nextTid
      && s'.cpus == s.cpus[m.dest := Cpu(s.cpus[m.dest].tasks + [m.task], s.cpus[m.dest].current)]
      && s'.moving == s.moving[..i] + s.moving[i + 1..]
  {
  }

  // ----- Stealing -----

  /** A task that may go to another CPU: waiting there, a kernel task, and not the idle task at place 0. */
  ghost predicate MayLeave(c: Cpu, i: nat) {
    0 < i < |c.tasks| && i != c.current && c.tasks[i].state == Ready && !c.tasks[i].isUser
  }

  /** A steal takes the first task that may leave a queue of more than two, and with a full quantum sends it to the
      thief; the rest of the queue keeps its order and its current task. If there is none, nothing changes. */
  lemma StealIs(s: Sys, thief: nat, victim: nat) returns (i: nat)
    requires SysOk(s) && StepOk(s, Steal(thief, victim))
    ensures var c, s' := s.cpus[victim], SchedulerRuns.Apply(s, Steal(thief, victim));
      if |c.tasks| > 2 && exists j: nat :: MayLeave(c, j) then
        && MayLeave(c, i) && (forall j: nat | MayLeave(c, j) :: i <= j)
        && s'.moving == s.moving + [Moving(thief, FullQuantum(c.tasks[i]))]
        && s'.nextTid == s.nextTid
        && s'.cpus == s.cpus[victim := Cpu(c.tasks[..i] + c.tasks[i + 1..], s'.cpus[victim].current)]
        && s'.cpus[victim].current < |s'.cpus[victim].tasks|
        && s'.cpus[victim].tasks[s'.cpus[victim].current] == c.tasks[c.current]
      else
        s' == s
  {
    hide FirstStealable;
    var c := s.cpus[victim];
    assert CpuOk(c);
    assert forall j: nat :: MayLeave(c, j) <==> j < |c.tasks| && Stealable(c, j);
    i := match Victim(c) case None => 0 case Some(k) => k;
  }

  /** No user task called `id` in this queue. */
  ghost predicate NoUser(c: Cpu, id: nat) {
    forall i | 0 <= i < |c.tasks| && c.tasks[i].id == id :: !c.tasks[i].isUser
  }

  /** User tasks called `id` are in the queue of CPU `k` or on their way to it. */
  ghost predicate AtHome(s: Sys, id: nat, k: nat) {
    && (forall c | 0 <= c < |s.cpus| && c != k :: NoUser(s.cpus[c], id))
    && (forall m | 0 <= m < |s.moving| && s.moving[m].task.id == id && s.moving[m].task.isUser :: s.moving[m].dest == k)
  }

  lemma SwitchNoUser(c: Cpu, id: nat)
    requires CpuOk(c) && NoUser(c, id)
    ensures NoUser(Yield(c), id) && NoUser(Preempt(c), id)
  {
    hide Yield, Preempt, Crowded, Distance, CpuOk;
    var q := YieldIs(c);
    var p := PreemptIs(c);
    if c.tasks != [] { InQueue(c); }
  }

  lemma RemoveNoUser(c: Cpu, id: nat)
    requires NoUser(c, id)
    ensures NoUser(Reap(c), id) && NoUser(Take(c), id)
  {
    hide Kept, FirstStealable;
    forall j | 0 <= j < |Reap(c).tasks| && Reap(c).tasks[j].id == id ensures !Reap(c).tasks[j].isUser {
      var i := KeptFrom(c, |c.tasks|, j);
    }
    if Victim(c).Some? {
      var i, r := Victim(c).value, Take(c);
      assert forall j | 0 <= j < |r.tasks| :: r.tasks[j] == if j < i then c.tasks[j] else c.tasks[j + 1];
    }
  }

  lemma SectionNoUser(c: Cpu, e: Event, id: nat)
    requires CpuOk(c) && NoUser(c, id) && (e.PushE? ==> e.task.id == id ==> !e.task.isUser)
    ensures NoUser(RunQueue.Apply(c, e), id)
  {
    hide Yield, Preempt, Reap, Take, CpuOk;
    if c.tasks != [] { InQueue(c); }
    match e {
      case YieldE => SwitchNoUser(c, id);
      case PreemptE => SwitchNoUser(c, id);
      case ReapE => RemoveNoUser(c, id);
      case TakeE => RemoveNoUser(c, id);
      case _ =>
    }
  }

  lemma StepAtHome(s: Sys, a: Step, id: nat, k: nat)
    requires SysOk(s) && StepOk(s, a) && AtHome(s, id, k)
    requires a.Issue? && a.isUser && s.nextTid == id ==> a.dest == k
    ensures AtHome(SchedulerRuns.Apply(s, a), id, k)
  {
    hide RunQueue.Apply, CpuOk, NoUser;
    var s' := SchedulerRuns.Apply(s, a);
    forall c | 0 <= c < |s'.cpus| && c != k ensures NoUser(s'.cpus[c], id) {
      SectionEffect(s, a, c);
      var r := Sections(s, a, c);
      if r != [] { SectionNoUser(s.cpus[c], r[0], id); }
    }
    if a.Steal? {
      var i := StealIs(s, a.thief, a.victim);
    }
  }

  /** Over every run: a user task stays on the CPU it was issued to. */
  lemma {:induction false} UserTasksStay(s: Sys, steps: seq<Step>, id: nat, k: nat)
    requires RunOk(s, steps) && AtHome(s, id, k) && id < s.nextTid
    ensures AtHome(Run(s, steps), id, k)
    decreases steps
  {
    hide SysOk, SchedulerRuns.Apply, AtHome, StepOk;
    if steps != [] {
      StepAtHome(s, steps[0], id, k);
      TidsGrow(s, steps[..1]);
      UserTasksStay(SchedulerRuns.Apply(s, steps[0]), steps[1..], id, k);
    }
  }

  // ----- Quanta over runs -----

  ghost predicate Fair(c: Cpu) {
    forall i | 0 <= i < |c.tasks| :: c.tasks[i].left <= c.tasks[i].quantum == 10
  }

  ghost predicate AllFair(s: Sys) {
    && (forall k | 0 <= k < |s.cpus| :: Fair(s.cpus[k]))
    && (forall m | 0 <= m < |s.moving| :: s.moving[m].task.left == s.moving[m].task.quantum == 10)
  }

  lemma SwitchFair(c: Cpu)
    requires CpuOk(c) && Fair(c)
    ensures Fair(Yield(c)) && Fair(Preempt(c))
  {
    hide Yield, Preempt, Crowded, Distance, CpuOk;
    var q := YieldIs(c);
    var p := PreemptIs(c);
    if c.tasks != [] { InQueue(c); }
  }

  lemma RemoveFair(c: Cpu)
    requires Fair(c)
    ensures Fair(Reap(c)) && Fair(Take(c))
  {
    hide Kept, FirstStealable;
    forall j | 0 <= j < |Reap(c).tasks| ensures Reap(c).tasks[j].left <= Reap(c).tasks[j].quantum == 10 {
      var i := KeptFrom(c, |c.tasks|, j);
    }
    if Victim(c).Some? {
      var i, r := Victim(c).value, Take(c);
      assert forall j | 0 <= j < |r.tasks| :: r.tasks[j] == if j < i then c.tasks[j] else c.tasks[j + 1];
    }
  }

  lemma SectionFair(c: Cpu, e: Event)
    requires CpuOk(c) && Fair(c) && (e.PushE? ==> e.task.left == e.task.quantum == 10)
    ensures Fair(RunQueue.Apply(c, e))
  {
    hide Yield, Preempt, Reap, Take, CpuOk;
    if c.tasks != [] { InQueue(c); }
    match e {
      case YieldE => SwitchFair(c);
      case PreemptE => SwitchFair(c);
      case ReapE => RemoveFair(c);
      case TakeE => RemoveFair(c);
      case _ =>
    }
  }

  lemma StepFair(s: Sys, a: Step)
    requires SysOk(s) && StepOk(s, a) && AllFair(s)
    ensures AllFair(SchedulerRuns.Apply(s, a))
  {
    hide RunQueue.Apply, CpuOk, Fair;
    var s' := SchedulerRuns.Apply(s, a);
    forall k | 0 <= k < |s'.cpus| ensures Fair(s'.cpus[k]) {
      SectionEffect(s, a, k);
      var r := Sections(s, a, k);
      if r != [] { SectionFair(s.cpus[k], r[0]); }
    }
    if a.Steal? {
      var i := StealIs(s, a.thief, a.victim);
      assert Fair(s.cpus[a.victim]);
      StolenFair(s.cpus[a.victim], i);
    }
  }

  lemma StolenFair(c: Cpu, i: nat)
    requires Fair(c)
    ensures i < |c.tasks| ==> FullQuantum(c.tasks[i]).left == FullQuantum(c.tasks[i]).quantum == 10
  {
  }

  lemma {:induction false} FairRuns(s: Sys, steps: seq<Step>)
    requires RunOk(s, steps) && AllFair(s)
    ensures AllFair(Run(s, steps))
    decreases steps
  {
    hide SysOk, SchedulerRuns.Apply, AllFair, StepOk;
    if steps != [] {
      StepFair(s, steps[0]);
      FairRuns(SchedulerRuns.Apply(s, steps[0]), steps[1..]);
    }
  }

  /** From boot on, whatever the interleaving: every task has the quantum of 10 ticks, none ever holds more, and every
      task that arrives at a queue arrives with all of it. */
  lemma BootFair(n: nat, steps: seq<Step>)
    requires 0 < n <= MAX_CPUS && RunOk(Boot(n), steps)
    ensures AllFair(Run(Boot(n), steps))
  {
    hide RunOk, Run;
    FairRuns(Boot(n), steps);
  }
}
