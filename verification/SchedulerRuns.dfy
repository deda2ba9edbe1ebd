/** All CPUs together: tasks are issued, delivered, run, stolen and reaped in any interleaving of locked sections. */
module SchedulerRuns {
  import opened RunQueue

  const DEFAULT_QUANTUM: nat := 10
  const MAX_CPUS: nat := 8

  /** A task between two locked sections: just created, or taken from another CPU's queue. */
  datatype Moving = Moving(dest: nat, task: Task)

  datatype Sys = Sys(cpus: seq<Cpu>, moving: seq<Moving>, nextTid: nat)

  datatype Step =
    | Local(cpu: nat, event: Event)
    | Issue(dest: nat, isUser: bool)
    | Deliver(index: nat)
    | Steal(thief: nat, victim: nat)

  function NewTask(id: nat, isUser: bool): Task {
    Task(id, Ready, 0, DEFAULT_QUANTUM, DEFAULT_QUANTUM, isUser)
  }

  /** `root_for_cpu`. */
  function IdleTask(cpu: nat): Task {
    Task(if cpu == 0 then 0 else 1000 + cpu, Running, 0, DEFAULT_QUANTUM, DEFAULT_QUANTUM, false)
  }

  /** After `init` and one `init_ap` per further CPU. */
  function Boot(n: nat): Sys
    requires 0 < n <= MAX_CPUS
  {
    Sys(seq(n, i requires 0 <= i < n =>
      Cpu(if i == 0 then [IdleTask(0), NewTask(1, false)] else [IdleTask(i)], 0)), [], 2)
  }

  predicate StepOk(s: Sys, a: Step) {
    match a
    case Local(cpu, e) => cpu < |s.cpus| && !e.PushE? && !e.TakeE?
    case Issue(dest, isUser) => dest < |s.cpus|
    case Deliver(i) => i < |s.moving|
    case Steal(thief, victim) => thief < |s.cpus| && victim < |s.cpus| && thief != victim
  }

  ghost predicate SysOk(s: Sys) {
    && (forall i | 0 <= i < |s.cpus| :: CpuOk(s.cpus[i]))
    && (forall i | 0 <= i < |s.moving| :: s.moving[i].dest < |s.cpus| && s.moving[i].task.state == Ready)
  }

  function Apply(s: Sys, a: Step): Sys
    requires SysOk(s) && StepOk(s, a)
  {
    match a
    case Local(cpu, e) => s.(cpus := s.cpus[cpu := RunQueue.Apply(s.cpus[cpu], e)])
    case Issue(dest, isUser) =>
      s.(moving := s.moving + [Moving(dest, NewTask(s.nextTid, isUser))], nextTid := s.nextTid + 1)
    case Deliver(i) =>
      var m := s.moving[i];
      s.(cpus := s.cpus[m.dest := Push(s.cpus[m.dest], m.task)], moving := s.moving[..i] + s.moving[i + 1..])
    case Steal(thief, victim) =>
      match Victim(s.cpus[victim])
      case None => s
      case Some(i) =>
        var t := s.cpus[victim].tasks[i];
        s.(cpus := s.cpus[victim := Take(s.cpus[victim])], moving := s.moving + [Moving(thief, t.(left := t.quantum))])
  }

  lemma ApplyKeeps(s: Sys, a: Step)
    requires SysOk(s) && StepOk(s, a)
    ensures SysOk(Apply(s, a)) && |Apply(s, a).cpus| == |s.cpus|
  {
    hide CpuOk, RunQueue.Apply, Victim, Take, Push;
    match a {
      case Local(cpu, e) =>
        assert CpuOk(s.cpus[cpu]);
        ApplyOk(s.cpus[cpu], e);
      case Issue(_, _) =>
      case Deliver(i) =>
        var m := s.moving[i];
        PushOk(s.cpus[m.dest], m.task);
      case Steal(_, victim) =>
        assert CpuOk(s.cpus[victim]);
        TakeOk(s.cpus[victim]);
    }
  }

  lemma PushOk(c: Cpu, t: Task)
    requires CpuOk(c) && t.state == Ready
    ensures CpuOk(Push(c, t))
  {
  }

  lemma TakeOk(c: Cpu)
    requires CpuOk(c)
    ensures CpuOk(Take(c))
    ensures Victim(c).Some? ==> Victim(c).value < |c.tasks| && c.tasks[Victim(c).value].state == Ready
  {
    hide FirstStealable;
  }

  // ----- Conservation -----

  function One(b: bool): nat {
    if b then 1 else 0
  }

  /** How many tasks of a queue are called `id`. */
  function Count(t: seq<Task>, id: nat): nat {
    if t == [] then 0 else One(t[0].id == id) + Count(t[1..], id)
  }

  function CountCpus(cpus: seq<Cpu>, id: nat): nat {
    if cpus == [] then 0 else Count(cpus[0].tasks, id) + CountCpus(cpus[1..], id)
  }

  function CountMoving(m: seq<Moving>, id: nat): nat {
    if m == [] then 0 else One(m[0].task.id == id) + CountMoving(m[1..], id)
  }

  /** How many tasks called `id` are in the queues or in flight. */
  function Copies(s: Sys, id: nat): nat {
    CountCpus(s.cpus, id) + CountMoving(s.moving, id)
  }

  lemma {:induction false} CountAppend(t: seq<Task>, u: seq<Task>, id: nat)
    ensures Count(t + u, id) == Count(t, id) + Count(u, id)
  {
    if t == [] {
      assert t + u == u;
    } else {
      CountAppend(t[1..], u, id);
      assert (t + u)[1..] == t[1..] + u;
    }
  }

  lemma {:induction false} MovingAppend(m: seq<Moving>, n: seq<Moving>, id: nat)
    ensures CountMoving(m + n, id) == CountMoving(m, id) + CountMoving(n, id)
  {
    if m == [] {
      assert m + n == n;
    } else {
      MovingAppend(m[1..], n, id);
      assert (m + n)[1..] == m[1..] + n;
    }
  }

  lemma {:induction false} SameNames(t: seq<Task>, u: seq<Task>, id: nat)
    requires |t| == |u| && forall i | 0 <= i < |t| :: t[i].id == u[i].id
    ensures Count(t, id) == Count(u, id)
  {
    if t != [] { SameNames(t[1..], u[1..], id); }
  }

  lemma {:induction false} CpuUpdate(cpus: seq<Cpu>, i: nat, c: Cpu, id: nat)
    requires i < |cpus|
    ensures CountCpus(cpus[i := c], id) + Count(cpus[i].tasks, id) == CountCpus(cpus, id) + Count(c.tasks, id)
  {
    if i == 0 {
      assert cpus[0 := c][1..] == cpus[1..];
    } else {
      CpuUpdate(cpus[1..], i - 1, c, id);
      assert cpus[i := c][1..] == cpus[1..][i - 1 := c];
    }
  }

  lemma RemoveCount(t: seq<Task>, i: nat, id: nat)
    requires i < |t|
    ensures Count(t[..i] + t[i + 1..], id) + One(t[i].id == id) == Count(t, id)
  {
    assert t == t[..i] + [t[i]] + t[i + 1..];
    CountAppend(t[..i] + [t[i]], t[i + 1..], id);
    CountAppend(t[..i], [t[i]], id);
    CountAppend(t[..i], t[i + 1..], id);
  }

  lemma RemoveMoving(m: seq<Moving>, i: nat, id: nat)
    requires i < |m|
    ensures CountMoving(m[..i] + m[i + 1..], id) + One(m[i].task.id == id) == CountMoving(m, id)
  {
    assert m == m[..i] + [m[i]] + m[i + 1..];
    MovingAppend(m[..i] + [m[i]], m[i + 1..], id);
    MovingAppend(m[..i], [m[i]], id);
    MovingAppend(m[..i], m[i + 1..], id);
  }

  /** How many of the first `n` tasks are called `id`, Dead and not current. */
  function Reaped(c: Cpu, n: nat, id: nat): nat
    requires n <= |c.tasks|
  {
    if n == 0 then 0 else One(Doomed(c, n - 1) && c.tasks[n - 1].id == id) + Reaped(c, n - 1, id)
  }

  lemma {:induction false} ReapedRest(c: Cpu, n: nat, id: nat)
    requires n <= |c.tasks|
    ensures Count(Kept(c, n), id) + Reaped(c, n, id) == Count(c.tasks[..n], id)
  {
    if n > 0 {
      ReapedRest(c, n - 1, id);
      assert c.tasks[..n] == c.tasks[..n - 1] + [c.tasks[n - 1]];
      CountAppend(c.tasks[..n - 1], [c.tasks[n - 1]], id);
      CountAppend(Kept(c, n - 1), [c.tasks[n - 1]], id);
    }
  }

  lemma LocalCount(c: Cpu, e: Event, id: nat)
    requires CpuOk(c) && !e.PushE? && !e.TakeE?
    ensures Count(RunQueue.Apply(c, e).tasks, id) + (if e.ReapE? then Reaped(c, |c.tasks|, id) else 0) ==
      Count(c.tasks, id)
  {
    hide Count, Kept, Scan, After, Reaped;
    if e.ReapE? {
      ReapedRest(c, |c.tasks|, id);
      assert c.tasks[..|c.tasks|] == c.tasks;
    } else {
      SameNames(RunQueue.Apply(c, e).tasks, c.tasks, id);
    }
  }

  function Gained(s: Sys, a: Step, id: nat): nat {
    One(a.Issue? && s.nextTid == id)
  }

  function Lost(s: Sys, a: Step, id: nat): nat
    requires StepOk(s, a)
  {
    if a.Local? && a.event.ReapE? then Reaped(s.cpus[a.cpu], |s.cpus[a.cpu].tasks|, id) else 0
  }

  /** Tasks in the queues plus tasks in flight change only by issuing and by reaping Dead tasks. */
  lemma StepConserves(s: Sys, a: Step, id: nat)
    requires SysOk(s) && StepOk(s, a)
    ensures Copies(Apply(s, a), id) + Lost(s, a, id) == Copies(s, id) + Gained(s, a, id)
  {
    hide RunQueue.Apply, Victim, Take, Push, Count, CountCpus, CountMoving, Reaped;
    match a {
      case Local(cpu, e) =>
        LocalCount(s.cpus[cpu], e, id);
        CpuUpdate(s.cpus, cpu, RunQueue.Apply(s.cpus[cpu], e), id);
      case Issue(dest, isUser) =>
        MovingAppend(s.moving, [Moving(dest, NewTask(s.nextTid, isUser))], id);
        OneMoving(Moving(dest, NewTask(s.nextTid, isUser)), id);
      case Deliver(i) =>
        var m := s.moving[i];
        PushCount(s.cpus[m.dest], m.task, id);
        CpuUpdate(s.cpus, m.dest, Push(s.cpus[m.dest], m.task), id);
        RemoveMoving(s.moving, i, id);
      case Steal(thief, victim) =>
        var c := s.cpus[victim];
        TakeCount(c, id);
        if Victim(c).Some? {
          var t := c.tasks[Victim(c).value];
          CpuUpdate(s.cpus, victim, Take(c), id);
          MovingAppend(s.moving, [Moving(thief, t.(left := t.quantum))], id);
          OneMoving(Moving(thief, t.(left := t.quantum)), id);
        }
    }
  }

  lemma OneMoving(m: Moving, id: nat)
    ensures CountMoving([m], id) == One(m.task.id == id)
  {
  }

  lemma PushCount(c: Cpu, t: Task, id: nat)
    ensures Count(Push(c, t).tasks, id) == Count(c.tasks, id) + One(t.id == id)
  {
    CountAppend(c.tasks, [t], id);
  }

  lemma TakeCount(c: Cpu, id: nat)
    ensures Victim(c).Some? ==>
      Victim(c).value < |c.tasks| &&
        Count(Take(c).tasks, id) + One(c.tasks[Victim(c).value].id == id) == Count(c.tasks, id)
  {
    hide Count, FirstStealable;
    if Victim(c).Some? { RemoveCount(c.tasks, Victim(c).value, id); }
  }

  // ----- Runs -----

  ghost predicate RunOk(s: Sys, steps: seq<Step>)
    decreases steps
  {
    SysOk(s) && (steps != [] ==> StepOk(s, steps[0]) && RunOk(Apply(s, steps[0]), steps[1..]))
  }

  function Run(s: Sys, steps: seq<Step>): Sys
    requires RunOk(s, steps)
    decreases steps
  {
    if steps == [] then s else Run(Apply(s, steps[0]), steps[1..])
  }

  function TotalGained(s: Sys, steps: seq<Step>, id: nat): nat
    requires RunOk(s, steps)
    decreases steps
  {
    if steps == [] then 0 else Gained(s, steps[0], id) + TotalGained(Apply(s, steps[0]), steps[1..], id)
  }

  function TotalLost(s: Sys, steps: seq<Step>, id: nat): nat
    requires RunOk(s, steps)
    decreases steps
  {
    if steps == [] then 0 else Lost(s, steps[0], id) + TotalLost(Apply(s, steps[0]), steps[1..], id)
  }

  /** Over every interleaving: no task is lost, duplicated or invented on its way between the queues. */
  lemma {:induction false} RunConserves(s: Sys, steps: seq<Step>, id: nat)
    requires RunOk(s, steps)
    ensures SysOk(Run(s, steps))
    ensures Copies(Run(s, steps), id) + TotalLost(s, steps, id) == Copies(s, id) + TotalGained(s, steps, id)
    decreases steps
  {
    hide SysOk, Apply, Copies, Lost, Gained;
    if steps != [] {
      StepConserves(s, steps[0], id);
      RunConserves(Apply(s, steps[0]), steps[1..], id);
    }
  }

  /** Names are unique, and names not yet issued belong at most to idle tasks of further CPUs. */
  ghost predicate NamesOk(s: Sys) {
    forall id: nat :: Copies(s, id) <= 1 && (Copies(s, id) > 0 ==> id < s.nextTid || id >= 1001)
  }

  lemma StepNames(s: Sys, a: Step)
    requires SysOk(s) && StepOk(s, a) && NamesOk(s) && (a.Issue? ==> s.nextTid <= 1000)
    ensures NamesOk(Apply(s, a))
  {
    hide SysOk, Copies, Lost;
    forall id: nat ensures Copies(Apply(s, a), id) <= 1 &&
      (Copies(Apply(s, a), id) > 0 ==> id < Apply(s, a).nextTid || id >= 1001) {
      StepConserves(s, a, id);
      assert a.Issue? ==> Copies(s, s.nextTid) == 0;
    }
  }

  lemma {:induction false} TidsGrow(s: Sys, steps: seq<Step>)
    requires RunOk(s, steps)
    ensures Run(s, steps).nextTid >= s.nextTid
    decreases steps
  {
    hide SysOk;
    if steps != [] { TidsGrow(Apply(s, steps[0]), steps[1..]); }
  }

  /** While at most the names 1 to 1000 have been issued, no two tasks anywhere share a name. */
  lemma {:induction false} UniqueTids(s: Sys, steps: seq<Step>)
    requires RunOk(s, steps) && NamesOk(s) && Run(s, steps).nextTid <= 1001
    ensures NamesOk(Run(s, steps))
    decreases steps
  {
    hide SysOk, NamesOk;
    if steps != [] {
      TidsGrow(Apply(s, steps[0]), steps[1..]);
      StepNames(s, steps[0]);
      UniqueTids(Apply(s, steps[0]), steps[1..]);
    }
  }

  lemma CountOne(t: Task, id: nat)
    ensures Count([t], id) == One(t.id == id)
  {
  }

  lemma {:induction false} BootCount(n: nat, k: nat, id: nat)
    requires 0 < k <= n <= MAX_CPUS
    ensures CountCpus(Boot(n).cpus[k..], id) == One(1000 + k <= id < 1000 + n)
    decreases n - k
  {
    var cpus := Boot(n).cpus;
    if k < n {
      BootCount(n, k + 1, id);
      assert cpus[k..][1..] == cpus[k + 1..] && cpus[k..][0].tasks == [IdleTask(k)];
      CountOne(IdleTask(k), id);
    }
  }

  /** The boot state is in order. */
  lemma BootOk(n: nat)
    requires 0 < n <= MAX_CPUS
    ensures SysOk(Boot(n)) && NamesOk(Boot(n))
    ensures forall id: nat :: Copies(Boot(n), id) == One(id < 2 || 1001 <= id < 1000 + n)
  {
    var cpus := Boot(n).cpus;
    forall id: nat ensures Copies(Boot(n), id) == One(id < 2 || 1001 <= id < 1000 + n) {
      BootCount(n, 1, id);
      assert cpus[0].tasks == [IdleTask(0)] + [NewTask(1, false)];
      CountAppend([IdleTask(0)], [NewTask(1, false)], id);
      CountOne(IdleTask(0), id);
      CountOne(NewTask(1, false), id);
    }
  }

  /** Issuing keeps names unique exactly when the next number is not already some task's name. */
  lemma IssueUniqueIff(s: Sys, dest: nat, isUser: bool)
    requires SysOk(s) && dest < |s.cpus| && forall id: nat :: Copies(s, id) <= 1
    ensures (forall id: nat :: Copies(Apply(s, Issue(dest, isUser)), id) <= 1) <==> Copies(s, s.nextTid) == 0
  {
    hide SysOk, Copies;
    var s' := Apply(s, Issue(dest, isUser));
    forall id: nat ensures Copies(s', id) == Copies(s, id) + One(id == s.nextTid) {
      StepConserves(s, Issue(dest, isUser), id);
    }
    assert Copies(s', s.nextTid) == Copies(s, s.nextTid) + 1;
  }

  function Issues(k: nat): seq<Step> {
    if k == 0 then [] else [Issue(0, false)] + Issues(k - 1)
  }

  lemma {:induction false} ManyIssues(s: Sys, k: nat)
    requires SysOk(s) && |s.cpus| > 0
    ensures RunOk(s, Issues(k)) && Run(s, Issues(k)).nextTid == s.nextTid + k
    ensures forall id: nat :: Copies(Run(s, Issues(k)), id) == Copies(s, id) + One(s.nextTid <= id < s.nextTid + k)
    decreases k
  {
    if k > 0 {
      var a := Issue(0, false);
      ApplyKeeps(s, a);
      assert Issues(k)[0] == a && Issues(k)[1..] == Issues(k - 1);
      ManyIssues(Apply(s, a), k - 1);
      forall id: nat ensures Copies(Run(s, Issues(k)), id) == Copies(s, id) + One(s.nextTid <= id < s.nextTid + k) {
        StepConserves(s, a, id);
      }
    }
  }

  /** The bound is tight: with a second CPU, the thousandth spawn after boot takes the name of its idle task. */
  lemma TidClash(n: nat)
    requires 2 <= n <= MAX_CPUS
    ensures SysOk(Boot(n)) && RunOk(Boot(n), Issues(1000)) && Copies(Run(Boot(n), Issues(1000)), 1001) == 2
  {
    hide Boot, Issues, Run, RunOk, SysOk, Copies;
    BootOk(n);
    BootShape(n);
    ManyIssues(Boot(n), 1000);
    assert Copies(Boot(n), 1001) == 1;
  }

  lemma BootShape(n: nat)
    requires 0 < n <= MAX_CPUS
    ensures |Boot(n).cpus| == n && Boot(n).nextTid == 2
  {
  }

  // ----- The run as seen by one queue -----

  /** The locked sections of one step on the queue of CPU `k`. */
  function Sections(s: Sys, a: Step, k: nat): (r: seq<Event>)
    requires SysOk(s) && StepOk(s, a)
    ensures |r| <= 1 && forall i | 0 <= i < |r| :: EventOk(r[i])
  {
    match a
    case Local(cpu, e) => if cpu == k then [e] else []
    case Issue(_, _) => []
    case Deliver(i) => if s.moving[i].dest == k then [PushE(s.moving[i].task)] else []
    case Steal(_, victim) => if victim == k then [TakeE] else []
  }

  function Project(s: Sys, steps: seq<Step>, k: nat): (r: seq<Event>)
    requires RunOk(s, steps)
    ensures forall i | 0 <= i < |r| :: EventOk(r[i])
    decreases steps
  {
    if steps == [] then [] else Sections(s, steps[0], k) + Project(Apply(s, steps[0]), steps[1..], k)
  }

  lemma SectionEffect(s: Sys, a: Step, k: nat)
    requires SysOk(s) && StepOk(s, a) && k < |s.cpus|
    ensures var r := Sections(s, a, k);
      k < |Apply(s, a).cpus| && Apply(s, a).cpus[k] == if r == [] then s.cpus[k] else RunQueue.Apply(s.cpus[k], r[0])
  {
  }

  /** Every run of the system is, for each queue, a trace of its own locked sections. */
  lemma {:induction false} RunIsTrace(s: Sys, steps: seq<Step>, k: nat)
    requires RunOk(s, steps) && k < |s.cpus|
    ensures k < |Run(s, steps).cpus| && Run(s, steps).cpus[k] == Trace(s.cpus[k], Project(s, steps, k))
    decreases steps
  {
    hide RunQueue.Apply, Apply, Sections;
    if steps != [] {
      SectionEffect(s, steps[0], k);
      ApplyKeeps(s, steps[0]);
      RunIsTrace(Apply(s, steps[0]), steps[1..], k);
      var r, rest := Sections(s, steps[0], k), Project(Apply(s, steps[0]), steps[1..], k);
      if r == [] { assert r + rest == rest; } else { assert (r + rest)[1..] == rest && (r + rest)[0] == r[0]; }
    }
  }

  /** Bounded bypass in the whole system, whatever the other CPUs do. */
  lemma SystemBypass(s: Sys, steps: seq<Step>, k: nat, id: nat)
    requires RunOk(s, steps) && k < |s.cpus|
    requires WaitsThroughout(s.cpus[k], Project(s, steps, k), id)
    ensures k < |Run(s, steps).cpus| && Run(s, steps).cpus[k] == Trace(s.cpus[k], Project(s, steps, k))
    ensures CountSwitches(s.cpus[k], Project(s, steps, k)) < |s.cpus[k].tasks| - 1 + CountPushes(Project(s, steps, k))
  {
    hide Project, Run, Trace, CountSwitches, CountPushes, WaitsThroughout, Apply, StepOk, CpuOk;
    RunIsTrace(s, steps, k);
    BoundedBypass(s.cpus[k], Project(s, steps, k), id);
  }
}
