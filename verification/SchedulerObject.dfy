/** The per-CPU scheduler object: its task vector and current index, changed in place under the queue's lock. */
module SchedulerObject {
  import opened Wrappers
  import opened RunQueue

  class CpuScheduler {
    var tasks: seq<Task>
    var current: nat

    ghost function View(): Cpu
      reads this
    {
      Cpu(tasks, current)
    }

    constructor ()
      ensures View() == Cpu([], 0) && CpuOk(View())
    {
      tasks, current := [], 0;
    }

    /** Round robin: the first Ready task after the current one, cyclically; else the current one if it can run. */
    method PickNext() returns (r: Option<nat>)
      requires tasks != [] ==> current < |tasks|
      ensures r == RunQueue.PickNext(View())
      ensures r.Some? ==> r.value < |tasks|
    {
      if tasks == [] {
        return None;
      }
      var i := 1;
      while i <= |tasks|
        invariant 1 <= i <= |tasks| + 1 && Scan(View(), i) == Scan(View(), 1)
      {
        var idx := (current + i) % |tasks|;
        if tasks[idx].state == Ready {
          return Some(idx);
        }
        i := i + 1;
      }
      r := if tasks[current].state == Running || tasks[current].state == Ready then Some(current) else None;
    }

    method SwitchTo(next: nat)
      requires current < |tasks| && next < |tasks|
      modifies this
      ensures View() == RunQueue.SwitchTo(old(View()), next)
    {
      if tasks[current].state == Running {
        tasks := SetState(tasks, current, Ready);
      }
      tasks := SetState(tasks, next, Running);
      current := next;
    }

    method Yield()
      requires CpuOk(View())
      modifies this
      ensures View() == RunQueue.Yield(old(View())) && CpuOk(View())
    {
      ApplyOk(View(), YieldE);
      hide Scan, After;
      if |tasks| < 2 {
        return;
      }
      var next := PickNext();
      if next.Some? && next.value != current {
        SwitchTo(next.value);
      }
    }

    method Preempt() returns (switched: bool)
      requires CpuOk(View())
      modifies this
      ensures View() == RunQueue.Preempt(old(View())) && CpuOk(View())
      ensures switched == Switches(old(View()), PreemptE)
    {
      ApplyOk(View(), PreemptE);
      hide Scan, After;
      if |tasks| < 2 || tasks[current].left > 0 {
        return false;
      }
      tasks := Refill(tasks, current);
      var next := PickNext();
      if next == None || next.value == current {
        return false;
      }
      SwitchTo(next.value);
      tasks := Refill(tasks, next.value);
      switched := true;
    }

    /** Makes every sleeper whose tick has come Ready. */
    method Wake(now: nat)
      modifies this
      ensures View() == RunQueue.Wake(old(View()), now)
    {
      var i := 0;
      while i < |tasks|
        invariant 0 <= i <= |tasks| == |old(tasks)| && current == old(current)
        invariant forall j | 0 <= j < |tasks| ::
          tasks[j] == if j < i then WakeTask(old(tasks)[j], now) else old(tasks)[j]
      {
        tasks := tasks[i := WakeTask(tasks[i], now)];
        i := i + 1;
      }
    }

    method Kill(id: nat) returns (found: bool)
      requires CpuOk(View())
      modifies this
      ensures View() == RunQueue.Kill(old(View()), id) && CpuOk(View())
      ensures found <==> exists i :: 0 <= i < |old(tasks)| && old(tasks)[i].id == id
    {
      ApplyOk(View(), KillE(id));
      var i := 0;
      while i < |tasks|
        invariant 0 <= i <= |tasks| && View() == old(View())
        invariant forall j | 0 <= j < i :: tasks[j].id != id
      {
        if tasks[i].id == id {
          FindIdIs(tasks, id, i);
          tasks := SetState(tasks, i, Dead);
          return true;
        }
        i := i + 1;
      }
      found := false;
    }

    static lemma {:induction false} FindIdIs(t: seq<Task>, id: nat, i: nat)
      requires i < |t| && t[i].id == id && forall j | 0 <= j < i :: t[j].id != id
      ensures FindId(t, id) == Some(i)
    {
      if i > 0 {
        assert t[0].id != id;
        FindIdIs(t[1..], id, i - 1);
      }
    }

    /** Removes the Dead tasks one by one; the current index follows its task. */
    method ReapDead() returns (reaped: nat)
      requires CpuOk(View())
      modifies this
      ensures View() == Reap(old(View())) && CpuOk(View())
      ensures reaped == |old(tasks)| - |tasks|
    {
      hide Progress, CpuOk, Reap;
      ghost var c, n := View(), 0;
      var i := 0;
      reaped := 0;
      ReapStart(c);
      while i < |tasks|
        invariant Progress(c, tasks, current, i, n, reaped)
        decreases |c.tasks| - n
      {
        ReapTurn(c, tasks, current, i, n, reaped);
        if i == current || tasks[i].state != Dead {
          i := i + 1;
        } else {
          tasks := tasks[..i] + tasks[i + 1..];
          reaped := reaped + 1;
          if i < current {
            current := current - 1;
          }
        }
        n := n + 1;
      }
      ReapEnd(c, tasks, current, i, n, reaped);
      ReapKeepsOk(c);
    }

    /** The first `n` tasks have been looked at, `reaped` of them removed, and `i` is where the rest begins. */
    static ghost predicate Progress(c: Cpu, t: seq<Task>, cur: nat, i: nat, n: nat, reaped: nat) {
      && n <= |c.tasks| && i == |Kept(c, n)| && t == Kept(c, n) + c.tasks[n..] && reaped == n - i
      && cur == if c.tasks == [] then c.current else if n <= c.current then c.current - reaped else |Kept(c, c.current)|
    }

    static lemma ReapStart(c: Cpu)
      requires CpuOk(c)
      ensures Progress(c, c.tasks, c.current, 0, 0, 0)
    {
      assert c.tasks[0..] == c.tasks;
    }

    static lemma ReapTurn(c: Cpu, t: seq<Task>, cur: nat, i: nat, n: nat, reaped: nat)
      requires CpuOk(c) && Progress(c, t, cur, i, n, reaped) && i < |t|
      ensures n < |c.tasks|
      ensures if i == cur || t[i].state != Dead then Progress(c, t, cur, i + 1, n + 1, reaped)
              else
                && (i < cur ==> cur > 0)
                && Progress(c, t[..i] + t[i + 1..], if i < cur then cur - 1 else cur, i, n + 1, reaped + 1)
    {
      hide CpuOk;
      KeptOrder(c, n);
      assert c.tasks[n..] == [c.tasks[n]] + c.tasks[n + 1..];
      assert t[i] == c.tasks[n] && (i == cur <==> n == c.current);
      if Doomed(c, n) {
        assert t[..i] + t[i + 1..] == Kept(c, n + 1) + c.tasks[n + 1..];
      } else {
        assert t == Kept(c, n + 1) + c.tasks[n + 1..];
      }
    }

    static lemma ReapEnd(c: Cpu, t: seq<Task>, cur: nat, i: nat, n: nat, reaped: nat)
      requires CpuOk(c) && Progress(c, t, cur, i, n, reaped) && i >= |t|
      ensures Cpu(t, cur) == Reap(c) && reaped == |c.tasks| - |t|
    {
      assert n == |c.tasks| && c.tasks[n..] == [];
    }

    static lemma ReapKeepsOk(c: Cpu)
      requires CpuOk(c)
      ensures CpuOk(Reap(c))
    {
      ReapOk(c);
    }

    /** The loop's index is the current one exactly when it looks at the current task. */
    static lemma KeptOrder(c: Cpu, n: nat)
      requires CpuOk(c) && n < |c.tasks|
      ensures n < c.current ==> |Kept(c, n)| < c.current - (n - |Kept(c, n)|)
      ensures n > c.current ==> |Kept(c, c.current)| < |Kept(c, n)|
    {
      if n > c.current { KeptPrefix(c, c.current, n); }
    }

    /** The victim's half of work stealing. */
    method TakeVictim() returns (task: Option<Task>)
      requires CpuOk(View())
      modifies this
      ensures View() == Take(old(View())) && CpuOk(View())
      ensures match Victim(old(View())) case None => task == None case Some(i) => task == Some(old(tasks)[i])
    {
      ApplyOk(View(), TakeE);
      if |tasks| > 2 {
        var i := 0;
        while i < |tasks|
          invariant 0 <= i <= |tasks| && View() == old(View())
          invariant FirstStealable(View(), i) == FirstStealable(View(), 0)
        {
          if i != 0 && i != current && tasks[i].state == Ready && !tasks[i].isUser {
            task := Some(tasks[i]);
            tasks := tasks[..i] + tasks[i + 1..];
            if current > i {
              current := current - 1;
            }
            return;
          }
          i := i + 1;
        }
      }
      task := None;
    }
  }
}
