/** One CPU's run queue: round-robin selection, switching, waking, killing, reaping and stealing. */
module RunQueue {
  import opened Wrappers

  datatype TaskState = Ready | Running | Sleeping(wake: nat) | Dead

  datatype Task = Task(id: nat, state: TaskState, ticks: nat, left: nat, quantum: nat, isUser: bool)

  datatype Cpu = Cpu(tasks: seq<Task>, current: nat)

  /** A valid current index, and only the current task may be Running. */
  ghost predicate CpuOk(c: Cpu) {
    && (if c.tasks == [] then c.current == 0 else c.current < |c.tasks|)
    && forall i | 0 <= i < |c.tasks| && c.tasks[i].state == Running :: i == c.current
  }

  /** The index `i` places after the current one, cyclically. */
  function After(c: Cpu, i: nat): (r: nat)
    requires c.tasks != []
    ensures r < |c.tasks|
  {
    (c.current + i) % |c.tasks|
  }

  /** The scan of `pick_next` from the `i`-th place on. */
  function Scan(c: Cpu, i: nat): (r: Option<nat>)
    requires c.tasks != []
    ensures r.Some? ==> i <= r.value <= |c.tasks| && c.tasks[After(c, r.value)].state == Ready
                        && forall j: nat | i <= j < r.value :: c.tasks[After(c, j)].state != Ready
    ensures r == None ==> forall j: nat | i <= j <= |c.tasks| :: c.tasks[After(c, j)].state != Ready
    decreases |c.tasks| + 1 - i
  {
    if i > |c.tasks| then None
    else if c.tasks[After(c, i)].state == Ready then Some(i)
    else Scan(c, i + 1)
  }

  function PickNext(c: Cpu): Option<nat>
    requires c.tasks != [] ==> c.current < |c.tasks|
  {
    if c.tasks == [] then None
    else match Scan(c, 1)
      case Some(i) => Some(After(c, i))
      case None =>
        if c.tasks[c.current].state == Running || c.tasks[c.current].state == Ready then Some(c.current) else None
  }

  function SetState(t: seq<Task>, i: nat, s: TaskState): seq<Task>
    requires i < |t|
  {
    t[i := t[i].(state := s)]
  }

  /** The switch itself: the old task becomes Ready if it was Running, the new one Running and current. */
  function SwitchTo(c: Cpu, next: nat): Cpu
    requires c.current < |c.tasks| && next < |c.tasks|
  {
    var t := if c.tasks[c.current].state == Running then SetState(c.tasks, c.current, Ready) else c.tasks;
    c.(tasks := SetState(t, next, Running), current := next)
  }

  function Yield(c: Cpu): Cpu
    requires c.tasks != [] ==> c.current < |c.tasks|
  {
    if |c.tasks| < 2 then c
    else match PickNext(c)
      case None => c
      case Some(next) => if next == c.current then c else SwitchTo(c, next)
  }

  function Refill(t: seq<Task>, i: nat): seq<Task>
    requires i < |t|
  {
    t[i := t[i].(left := t[i].quantum)]
  }

  function Preempt(c: Cpu): Cpu {
    if |c.tasks| < 2 || c.current >= |c.tasks| || c.tasks[c.current].left > 0 then c
    else
      var c1 := c.(tasks := Refill(c.tasks, c.current));
      match PickNext(c1)
      case None => c1
      case Some(next) =>
        if next == c.current then c1
        else var c2 := SwitchTo(c1, next); c2.(tasks := Refill(c2.tasks, next))
  }

  function WakeTask(t: Task, now: nat): Task {
    if t.state.Sleeping? && now >= t.state.wake then t.(state := Ready) else t
  }

  function Wake(c: Cpu, now: nat): Cpu {
    c.(tasks := seq(|c.tasks|, i requires 0 <= i < |c.tasks| => WakeTask(c.tasks[i], now)))
  }

  /** Accounting of one timer tick to the current task. */
  function Charge(c: Cpu): Cpu {
    if c.current < |c.tasks| then
      var t := c.tasks[c.current];
      c.(tasks := c.tasks[c.current := t.(ticks := t.ticks + 1, left := if t.left > 0 then t.left - 1 else 0)])
    else c
  }

  function Sleep(c: Cpu, wake: nat): Cpu {
    if c.current < |c.tasks| then c.(tasks := SetState(c.tasks, c.current, Sleeping(wake))) else c
  }

  function FindId(t: seq<Task>, id: nat): (r: Option<nat>)
    ensures r.Some? ==> r.value < |t| && t[r.value].id == id
    ensures r == None ==> forall i | 0 <= i < |t| :: t[i].id != id
  {
    if t == [] then None
    else if t[0].id == id then Some(0)
    else match FindId(t[1..], id) case None => None case Some(i) => Some(i + 1)
  }

  function Kill(c: Cpu, id: nat): Cpu {
    match FindId(c.tasks, id)
    case None => c
    case Some(i) => c.(tasks := SetState(c.tasks, i, Dead))
  }

  function Push(c: Cpu, t: Task): Cpu {
    c.(tasks := c.tasks + [t])
  }

  predicate Doomed(c: Cpu, i: nat)
    requires i < |c.tasks|
  {
    i != c.current && c.tasks[i].state == Dead
  }

  /** What reaping leaves of the first `n` tasks. */
  function Kept(c: Cpu, n: nat): (r: seq<Task>)
    requires n <= |c.tasks|
    ensures |r| <= n
  {
    if n == 0 then [] else if Doomed(c, n - 1) then Kept(c, n - 1) else Kept(c, n - 1) + [c.tasks[n - 1]]
  }

  function Reap(c: Cpu): Cpu {
    if c.current >= |c.tasks| then c.(tasks := Kept(c, |c.tasks|))
    else c.(tasks := Kept(c, |c.tasks|), current := |Kept(c, c.current)|)
  }

  /** The task `try_steal_task` would take from this queue. */
  predicate Stealable(c: Cpu, i: nat)
    requires i < |c.tasks|
  {
    i != 0 && i != c.current && c.tasks[i].state == Ready && !c.tasks[i].isUser
  }

  function FirstStealable(c: Cpu, i: nat): (r: Option<nat>)
    ensures r.Some? ==> i <= r.value < |c.tasks| && Stealable(c, r.value)
    ensures r.Some? ==> forall j | i <= j < r.value :: !Stealable(c, j)
    ensures r == None ==> forall j | i <= j < |c.tasks| :: !Stealable(c, j)
    decreases |c.tasks| - i
  {
    if i >= |c.tasks| then None else if Stealable(c, i) then Some(i) else FirstStealable(c, i + 1)
  }

  function Victim(c: Cpu): Option<nat> {
    if |c.tasks| > 2 then FirstStealable(c, 0) else None
  }

  function Remove(c: Cpu, i: nat): Cpu
    requires i < |c.tasks|
  {
    c.(tasks := c.tasks[..i] + c.tasks[i + 1..], current := if c.current > i then c.current - 1 else c.current)
  }

  function Take(c: Cpu): Cpu {
    match Victim(c) case None => c case Some(i) => Remove(c, i)
  }

  // ----- Locked sections -----

  datatype Event =
    | YieldE | PreemptE | WakeE(now: nat) | ChargeE | SleepE(wake: nat) | KillE(id: nat) | ReapE
    | PushE(task: Task) | TakeE

  function Apply(c: Cpu, e: Event): Cpu
    requires c.tasks != [] ==> c.current < |c.tasks|
  {
    match e
    case YieldE => Yield(c)
    case PreemptE => Preempt(c)
    case WakeE(now) => Wake(c, now)
    case ChargeE => Charge(c)
    case SleepE(wake) => Sleep(c, wake)
    case KillE(id) => Kill(c, id)
    case ReapE => Reap(c)
    case PushE(task) => Push(c, task)
    case TakeE => Take(c)
  }

  /** Tasks are pushed Ready: new ones, and stolen ones. */
  predicate EventOk(e: Event) {
    e.PushE? ==> e.task.state == Ready
  }

  // ----- Reaping -----

  lemma {:induction false} KeptPrefix(c: Cpu, i: nat, n: nat)
    requires i <= n <= |c.tasks|
    ensures Kept(c, i) <= Kept(c, n)
    ensures i < n && !Doomed(c, i) ==> |Kept(c, i)| < |Kept(c, n)| && Kept(c, n)[|Kept(c, i)|] == c.tasks[i]
  {
    if i < n {
      KeptPrefix(c, i, n - 1);
    }
  }

  lemma {:induction false} KeptFrom(c: Cpu, n: nat, j: nat) returns (i: nat)
    requires n <= |c.tasks| && j < |Kept(c, n)|
    ensures i < n && !Doomed(c, i) && |Kept(c, i)| == j && Kept(c, n)[j] == c.tasks[i]
  {
    if Doomed(c, n - 1) || j < |Kept(c, n - 1)| {
      i := KeptFrom(c, n - 1, j);
    } else {
      i := n - 1;
    }
  }

  /** Place `j` of the reaped queue holds a task that had to stay. */
  ghost predicate Survivor(c: Cpu, j: nat) {
    exists i :: 0 <= i < |c.tasks| && !Doomed(c, i) && |Kept(c, i)| == j
  }

  /** Reaping removes exactly the Dead tasks that are not current, keeps the others in order, and the current task stays
      the same task. */
  lemma ReapOk(c: Cpu)
    requires CpuOk(c)
    ensures var r := Reap(c);
      && CpuOk(r)
      && (forall i | 0 <= i < |c.tasks| && !Doomed(c, i) ::
            |Kept(c, i)| < |r.tasks| && r.tasks[|Kept(c, i)|] == c.tasks[i])
      && (forall i, j | 0 <= i < j < |c.tasks| && !Doomed(c, i) :: |Kept(c, i)| < |Kept(c, j)|)
      && (forall j | 0 <= j < |r.tasks| :: Survivor(c, j))
      && (c.tasks != [] ==> r.tasks[r.current] == c.tasks[c.current])
  {
    hide Kept;
    var r, n := Reap(c), |c.tasks|;
    forall i | 0 <= i < n && !Doomed(c, i) ensures |Kept(c, i)| < |r.tasks| && r.tasks[|Kept(c, i)|] == c.tasks[i] {
      KeptPrefix(c, i, n);
    }
    forall i, j | 0 <= i < j < n && !Doomed(c, i) ensures |Kept(c, i)| < |Kept(c, j)| {
      KeptPrefix(c, i, j);
    }
    forall j | 0 <= j < |r.tasks|
      ensures Survivor(c, j)
      ensures r.tasks[j].state == Running ==> j == r.current
    {
      var i := KeptFrom(c, n, j);
      assert 0 <= i < n && !Doomed(c, i) && |Kept(c, i)| == j;
    }
    if c.tasks == [] { assert |r.tasks| == 0; }
  }

  lemma ApplyOk(c: Cpu, e: Event)
    requires CpuOk(c) && EventOk(e)
    ensures CpuOk(Apply(c, e))
  {
    hide Kept, FirstStealable, Reap, Yield, Preempt;
    match e
    case YieldE => YieldOk(c);
    case PreemptE => PreemptOk(c);
    case ReapE => ReapOk(c);
    case _ =>
  }

  lemma SwitchOk(c: Cpu, next: nat)
    requires CpuOk(c) && next < |c.tasks|
    ensures CpuOk(SwitchTo(c, next)) && |SwitchTo(c, next).tasks| == |c.tasks|
  {
  }

  lemma YieldOk(c: Cpu)
    requires CpuOk(c)
    ensures CpuOk(Yield(c))
  {
    hide Scan, After, SwitchTo, CpuOk;
    if c.tasks != [] { InQueue(c); }
    var r := Yield(c);
    if r != c { SwitchOk(c, PickNext(c).value); }
  }

  lemma InQueue(c: Cpu)
    requires CpuOk(c) && c.tasks != []
    ensures c.current < |c.tasks|
  {
  }

  lemma RefillOk(c: Cpu, i: nat)
    requires CpuOk(c) && i < |c.tasks|
    ensures CpuOk(c.(tasks := Refill(c.tasks, i)))
  {
  }

  lemma PreemptOk(c: Cpu)
    requires CpuOk(c)
    ensures CpuOk(Preempt(c))
  {
    hide Scan, After, SwitchTo, CpuOk, Refill;
    if Preempt(c) != c {
      RefillOk(c, c.current);
      var c1 := c.(tasks := Refill(c.tasks, c.current));
      var p := PickNext(c1);
      if p.Some? && p.value != c.current {
        SwitchOk(c1, p.value);
        RefillOk(SwitchTo(c1, p.value), p.value);
      }
    }
  }

  // ----- Bounded bypass -----

  /** Task `id` waits in the queue: Ready, not current, and the only one of that name. */
  ghost predicate Waits(c: Cpu, id: nat, p: nat) {
    && p < |c.tasks| && p != c.current && c.tasks[p].id == id && c.tasks[p].state == Ready
    && forall i | 0 <= i < |c.tasks| && i != p :: c.tasks[i].id != id
  }

  /** How many places after the current one position `p` is, cyclically. */
  function Distance(c: Cpu, p: nat): nat
    requires p < |c.tasks| && c.current < |c.tasks|
  {
    if p >= c.current then p - c.current else p + |c.tasks| - c.current
  }

  lemma AfterDistance(c: Cpu, i: nat)
    requires c.tasks != [] && c.current < |c.tasks| && i < |c.tasks|
    ensures Distance(c, After(c, i)) == i && (c.current + i < |c.tasks| ==> After(c, i) == c.current + i)
    ensures c.current + i >= |c.tasks| ==> After(c, i) == c.current + i - |c.tasks|
  {
  }

  /** While some task waits, the scan stops no later than at that task. */
  lemma ScanReaches(c: Cpu, id: nat, p: nat)
    requires CpuOk(c) && Waits(c, id, p)
    ensures Scan(c, 1).Some? && 1 <= Scan(c, 1).value <= Distance(c, p) < |c.tasks|
    ensures var q := After(c, Scan(c, 1).value);
      q != c.current && c.tasks[q].state == Ready && (q != p ==> Distance(c.(current := q), p) < Distance(c, p))
  {
    hide Scan;
    var d := Distance(c, p);
    AfterDistance(c, d);
    assert After(c, d) == p;
    var i := Scan(c, 1).value;
    AfterDistance(c, i);
  }

  predicate Switches(c: Cpu, e: Event)
    requires c.tasks != [] ==> c.current < |c.tasks|
  {
    (e.YieldE? || e.PreemptE?) && Apply(c, e).current != c.current
  }

  /** While a task waits, a yield always switches, and so does a preemption of an expired quantum. */
  lemma WaitingForcesSwitch(c: Cpu, id: nat, p: nat)
    requires CpuOk(c) && Waits(c, id, p)
    ensures Switches(c, YieldE) && (c.tasks[c.current].left == 0 ==> Switches(c, PreemptE))
  {
    hide Scan, After;
    ScanReaches(c, id, p);
    var c1 := c.(tasks := Refill(c.tasks, c.current));
    ScanReaches(c1, id, p);
  }

  lemma KeepsPlace(c: Cpu, c': Cpu, id: nat, p: nat, p': nat)
    requires Waits(c, id, p) && Waits(c', id, p') && |c'.tasks| >= |c.tasks|
    requires forall i | 0 <= i < |c.tasks| :: c'.tasks[i].id == c.tasks[i].id
    ensures p' == p
  {
  }

  lemma YieldStep(c: Cpu, id: nat, p: nat, p': nat)
    requires CpuOk(c) && Waits(c, id, p) && Waits(Yield(c), id, p')
    ensures Distance(Yield(c), p') < Distance(c, p)
  {
    hide Scan, After;
    ScanReaches(c, id, p);
    KeepsPlace(c, Yield(c), id, p, p');
  }

  lemma PreemptStep(c: Cpu, id: nat, p: nat, p': nat)
    requires CpuOk(c) && Waits(c, id, p) && Waits(Preempt(c), id, p')
    ensures Distance(Preempt(c), p') <= Distance(c, p) - if Switches(c, PreemptE) then 1 else 0
  {
    hide Scan, After;
    KeepsPlace(c, Preempt(c), id, p, p');
    if c.tasks[c.current].left == 0 {
      ScanReaches(c.(tasks := Refill(c.tasks, c.current)), id, p);
    }
  }

  lemma ReapStep(c: Cpu, id: nat, p: nat, p': nat)
    requires CpuOk(c) && Waits(c, id, p) && Waits(Reap(c), id, p')
    ensures CpuOk(Reap(c)) && Distance(Reap(c), p') <= Distance(c, p)
  {
    hide Kept, Distance;
    var n := |c.tasks|;
    ReapOk(c);
    assert p' == |Kept(c, p)|;
    KeptGap(c, 0, p);
    KeptGap(c, 0, c.current);
    if p > c.current {
      KeptGap(c, c.current, p);
    } else {
      KeptGap(c, c.current, n);
    }
    DistanceIs(c, p);
    DistanceIs(Reap(c), p');
    KeptGap(c, p, n);
    KeptPrefix(c, c.current, n);
    KeptPrefix(c, p, n);
    if p < c.current { KeptPrefix(c, p, c.current); } else { KeptPrefix(c, c.current, p); }
  }

  lemma DistanceIs(c: Cpu, p: nat)
    requires p < |c.tasks| && c.current < |c.tasks|
    ensures Distance(c, p) == if p >= c.current then p - c.current else p + |c.tasks| - c.current
  {
  }

  /** Between two places, reaping keeps at most as many tasks as there were. */
  lemma {:induction false} KeptGap(c: Cpu, i: nat, n: nat)
    requires i <= n <= |c.tasks|
    ensures |Kept(c, i)| <= |Kept(c, n)| <= |Kept(c, i)| + (n - i)
  {
    if i < n { KeptGap(c, i, n - 1); }
  }

  lemma TakeStep(c: Cpu, id: nat, p: nat, p': nat)
    requires CpuOk(c) && Waits(c, id, p) && Waits(Take(c), id, p')
    ensures Distance(Take(c), p') <= Distance(c, p)
  {
    hide FirstStealable;
    if Victim(c).Some? {
      var i := Victim(c).value;
      var r := Remove(c, i);
      assert forall j | 0 <= j < |r.tasks| :: r.tasks[j] == if j < i then c.tasks[j] else c.tasks[j + 1];
      assert p' == (if p < i then p else p - 1);
    }
  }

  /** One locked section: the waiting task comes one place nearer at each switch, and each push sets it back by at most
      one; wakes, sleeps, kills, reaps and steals of others never set it back. */
  lemma BypassStep(c: Cpu, e: Event, id: nat, p: nat, p': nat)
    requires CpuOk(c) && EventOk(e) && Waits(c, id, p) && Waits(Apply(c, e), id, p')
    ensures CpuOk(Apply(c, e))
    ensures Distance(Apply(c, e), p') + (if Switches(c, e) then 1 else 0) <= Distance(c, p) + if e.PushE? then 1 else 0
  {
    hide Scan, After, Kept, FirstStealable, Victim, Reap, Take, Yield, Preempt;
    ApplyOk(c, e);
    match e {
      case YieldE => YieldStep(c, id, p, p');
      case PreemptE => PreemptStep(c, id, p, p');
      case ReapE => ReapStep(c, id, p, p');
      case TakeE => TakeStep(c, id, p, p');
      case PushE(task) => KeepsPlace(c, Push(c, task), id, p, p');
      case _ => KeepsPlace(c, Apply(c, e), id, p, p');
    }
  }

  // ----- Whole traces of one CPU -----

  function Trace(c: Cpu, es: seq<Event>): Cpu
    requires CpuOk(c) && forall i | 0 <= i < |es| :: EventOk(es[i])
    decreases es
  {
    if es == [] then c else ApplyOk(c, es[0]); Trace(Apply(c, es[0]), es[1..])
  }

  /** The task waits before, between and after all the sections. */
  ghost predicate WaitsThroughout(c: Cpu, es: seq<Event>, id: nat)
    requires CpuOk(c) && forall i | 0 <= i < |es| :: EventOk(es[i])
    decreases es
  {
    && (exists p :: Waits(c, id, p))
    && (es != [] ==> (ApplyOk(c, es[0]); WaitsThroughout(Apply(c, es[0]), es[1..], id)))
  }

  function CountSwitches(c: Cpu, es: seq<Event>): nat
    requires CpuOk(c) && forall i | 0 <= i < |es| :: EventOk(es[i])
    decreases es
  {
    if es == [] then 0
    else ApplyOk(c, es[0]); (if Switches(c, es[0]) then 1 else 0) + CountSwitches(Apply(c, es[0]), es[1..])
  }

  function CountPushes(es: seq<Event>): nat {
    if es == [] then 0 else (if es[0].PushE? then 1 else 0) + CountPushes(es[1..])
  }

  lemma {:induction false} BypassTrace(c: Cpu, es: seq<Event>, id: nat, p: nat)
    requires CpuOk(c) && forall i | 0 <= i < |es| :: EventOk(es[i])
    requires Waits(c, id, p) && WaitsThroughout(c, es, id)
    ensures CountSwitches(c, es) < Distance(c, p) + CountPushes(es)
    decreases es
  {
    hide Apply, Switches;
    if es != [] {
      ApplyOk(c, es[0]);
      var c1 := Apply(c, es[0]);
      var p1 :| Waits(c1, id, p1);
      BypassStep(c, es[0], id, p, p1);
      BypassTrace(c1, es[1..], id, p1);
    }
  }

  /** Bounded bypass: as long as a task waits in a queue of length n, fewer than n - 1 switches plus the pushes have
      happened; so it is selected within n - 1 switches plus the number of tasks pushed meanwhile. */
  lemma BoundedBypass(c: Cpu, es: seq<Event>, id: nat)
    requires CpuOk(c) && forall i | 0 <= i < |es| :: EventOk(es[i])
    requires WaitsThroughout(c, es, id)
    ensures CountSwitches(c, es) < |c.tasks| - 1 + CountPushes(es)
  {
    var p :| Waits(c, id, p);
    BypassTrace(c, es, id, p);
  }
}
