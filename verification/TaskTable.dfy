/** The task table, sleep list and clock as the kernel updates them in place. Every method refines Scheduler. */
module TaskTable {
  import opened LinkedList
  import opened Scheduler
  import opened Lists

  /** Idle, init and the test thread; the boot task has already been switched away from. */
  function StartTask(i: nat): Task {
    if i == 0 then Task(Ready, 1, 0, 1)
    else if i == 1 then Task(Running, 5, 0, 5)
    else if i == 2 then Task(Ready, 5, 0, 5)
    else Task(Parked, 1, 0, 1)
  }

  function Start(): (s: Sched)
    ensures Inv(s)
  {
    var s := Sched(seq(NR_TASKS, i requires 0 <= i < NR_TASKS => StartTask(i)), 1, [], 0);
    assert forall t | 0 <= t < NR_TASKS :: s.tasks[t] == StartTask(t);
    s
  }

  class TaskTable {
    const tasks: array<Task>
    var current: nat
    var sleepList: seq<nat>
    var jiffies: nat

    ghost function Abs(): Sched
      reads this, tasks
    {
      Sched(tasks[..], current, sleepList, jiffies)
    }

    ghost predicate Valid()
      reads this, tasks
    {
      Inv(Abs())
    }

    constructor ()
      ensures Valid() && fresh(tasks) && Abs() == Start()
    {
      tasks := new Task[NR_TASKS](i requires 0 <= i < NR_TASKS => StartTask(i));
      current, sleepList, jiffies := 1, [], 0;
      new;
      assert tasks[..] == Start().tasks;
    }

    /** task_search(TASK_READY), with idle as the fallback. */
    method TaskSearch() returns (next: nat)
      requires tasks.Length == NR_TASKS
      ensures next == Next(Abs())
    {
      var task := NR_TASKS;
      var i := 0;
      while i < NR_TASKS
        invariant 0 <= i <= NR_TASKS && task == Search(tasks[..], current, i)
      {
        var ptr := tasks[i];
        if ptr.state.Ready? && i != current {
          if task == NR_TASKS || tasks[task].ticks < ptr.ticks || tasks[task].jiffies > ptr.jiffies {
            task := i;
          }
        }
        i := i + 1;
      }
      if task == NR_TASKS {
        return IDLE;
      }
      return task;
    }

    method TaskUnblock(t: nat)
      requires t < tasks.Length
      modifies this`sleepList, tasks
      ensures Abs() == Unblock(old(Abs()), t)
    {
      sleepList := Without(sleepList, t);
      tasks[t] := tasks[t].(state := Ready);
      assert Abs().tasks == Unblock(old(Abs()), t).tasks;
    }

    method Schedule()
      requires tasks.Length == NR_TASKS && current < NR_TASKS
      modifies this`current, this`sleepList, tasks
      ensures Abs() == Scheduler.Schedule(old(Abs()))
    {
      hide Next; hide Search; hide Without;
      var next := TaskSearch();
      if tasks[current].ticks == 0 {
        tasks[current] := tasks[current].(ticks := tasks[current].priority);
      }
      if tasks[current].state.Running? {
        tasks[current] := tasks[current].(state := Ready);
      }
      assert Abs().tasks == Leave(old(Abs())).tasks;
      ghost var a := Abs();
      if !tasks[next].state.Ready? {
        if tasks[next].state.Sleeping? {
          tasks[next] := tasks[next].(ticks := tasks[next].priority);
        }
        assert Abs().tasks == if a.tasks[next].state.Sleeping? then a.tasks[next := tasks[next]] else a.tasks;
        TaskUnblock(next);
      }
      ghost var b := Abs();
      tasks[next] := tasks[next].(state := Running);
      current := next;
      assert Abs().tasks == b.tasks[next := tasks[next]];
    }

    /** task_sleep before schedule(): the target is set and the task enters the list in order. */
    method FallAsleep(ms: nat)
      requires Valid()
      modifies this`sleepList, tasks
      ensures Shape(old(Abs())) && Queue(old(Abs())) && Abs() == Doze(old(Abs()), ms)
    {
      hide Inv; hide Shape; hide Queue; hide Place; hide Keys; hide Wakes; hide Signed;
      InvParts(Abs());
      var ticks := ms / JIFFY;
      if ticks == 0 {
        ticks := 1;
      }
      ticks := (jiffies + ticks) % TWO32;
      var anchor := FindPlace(ticks);
      tasks[current] := tasks[current].(ticks := ticks, state := Sleeping);
      sleepList := InsertAt(sleepList, anchor, current);
      assert Abs().tasks == old(tasks[..])[current := tasks[current]];
    }

    method TaskSleep(ms: nat)
      requires Valid() && current != IDLE && ms < TWO32
      modifies this, tasks
      ensures Shape(old(Abs())) && Queue(old(Abs())) && Abs() == Scheduler.TaskSleep(old(Abs()), ms)
      ensures Valid() <==> Safe(old(Abs()), ms)
    {
      hide Safe; hide Timely; hide Queue; hide Doze; hide Scheduler.Schedule;
      SleepExact(Abs(), ms);
      DozeShape(Abs(), ms);
      FallAsleep(ms);
      Schedule();
    }

    /** The search loop of list_insert_sort over the sleepers' ticks. */
    method FindPlace(ticks: nat) returns (k: nat)
      requires Valid() && ticks < TWO32
      ensures k == Place(Keys(Wakes(Abs())), Signed(ticks))
    {
      k := 0;
      while k < |sleepList| && Signed(tasks[sleepList[k]].ticks) <= Signed(ticks)
        invariant k <= |sleepList| && forall i | 0 <= i < k :: Keys(Wakes(Abs()))[i] <= Signed(ticks)
      {
        k := k + 1;
      }
      PlaceUnique(Keys(Wakes(Abs())), Signed(ticks), k);
    }

    method TaskWeakup()
      requires Valid()
      modifies this`sleepList, tasks
      ensures Valid() && Abs() == Weakup(old(Abs()))
    {
      hide Shape; hide Queue; hide Timely;
      InQueue(Abs());
      while sleepList != []
        invariant Valid() && forall i | 0 <= i < |sleepList| :: sleepList[i] < tasks.Length
        invariant Weakup(Abs()) == Weakup(old(Abs()))
        decreases |sleepList|
      {
        ghost var s := Abs();
        var t := sleepList[0];
        if tasks[t].ticks > jiffies {
          break;
        }
        WakeHeadKeeps(s);
        tasks[t] := tasks[t].(ticks := tasks[t].priority, state := Ready);
        sleepList := sleepList[1..];
        assert tasks[..] == WakeHead(s).tasks;
        InQueue(Abs());
      }
    }

    lemma InvParts(s: Sched)
      requires Inv(s)
      ensures Shape(s) && Queue(s) && |s.tasks| == NR_TASKS && s.current < NR_TASKS && s.jiffies < TWO32
      ensures 1 <= s.tasks[s.current].ticks < TWO32
    {
    }

    lemma InQueue(s: Sched)
      requires Inv(s)
      ensures |s.tasks| == NR_TASKS && forall i | 0 <= i < |s.sleep| :: s.sleep[i] < NR_TASKS
    {
    }

    method ClockHandler()
      requires Valid()
      modifies this, tasks
      ensures Valid() && Abs() == Clock(old(Abs()))
    {
      hide Inv; hide Weakup; hide Shape; hide Queue; hide Tick; hide Scheduler.Schedule;
      ghost var s := Abs();
      InvParts(s);
      ClockInv(s);
      WeakupExact(s);
      TaskWeakup();
      ghost var w := Abs();
      InvParts(w);
      TickForm(w);
      jiffies := (jiffies + 1) % TWO32;
      var task := tasks[current];
      tasks[current] := task.(jiffies := jiffies, ticks := Decrement(task.ticks));
      assert tasks[..] == Aged(w).tasks;
      if tasks[current].ticks == 0 {
        Schedule();
      }
    }
  }
}
