/** Scheduling, sleeping and the clock interrupt (src/kernel/tasks.c, src/kernel/clock.c). `ticks` is one 32-bit
    word with two uses: the remaining time slice of a task that can run, the wake-up time of one that sleeps. */
module Scheduler {
  import opened LinkedList
  import opened Lists

  const NR_TASKS: nat := 64
  const IDLE: nat := 0
  const JIFFY: nat := 10
  const TWO31: nat := 0x8000_0000
  const TWO32: nat := 0x1_0000_0000

  /** Parked stands for every other reason not to run: no task in the slot, blocked, waiting, dead. */
  datatype State = Parked | Ready | Running | Sleeping

  datatype Task = Task(state: State, ticks: nat, jiffies: nat, priority: nat)

  datatype Sched = Sched(tasks: seq<Task>, current: nat, sleep: seq<nat>, jiffies: nat)

  // ---- picking the next task ----

  /** `t` has more of its time slice left than `c`, or has run longer ago. */
  predicate Preferred(t: Task, c: Task) {
    c.ticks < t.ticks || c.jiffies > t.jiffies
  }

  /** task_search(TASK_READY) over the first `k` slots; NR_TASKS stands for NULL. */
  function Search(tasks: seq<Task>, current: nat, k: nat): (r: nat)
    requires k <= |tasks| == NR_TASKS
    ensures r == NR_TASKS <==> forall i | 0 <= i < k && i != current :: !tasks[i].state.Ready?
    ensures r != NR_TASKS ==> r < k && r != current && tasks[r].state.Ready?
    decreases k
  {
    if k == 0 then NR_TASKS
    else
      var c := Search(tasks, current, k - 1);
      var t := tasks[k - 1];
      if !t.state.Ready? || k - 1 == current then c
      else if c == NR_TASKS || Preferred(t, tasks[c]) then k - 1
      else c
  }

  /** No ready task in a later slot has more of its slice left or has run longer ago than the one found, and the one
      found has so over the choice among the slots before it. */
  lemma {:induction false} SearchPrefers(tasks: seq<Task>, current: nat, k: nat)
    requires k <= |tasks| == NR_TASKS && Search(tasks, current, k) != NR_TASKS
    ensures var r := Search(tasks, current, k);
            && (forall i | r < i < k && i != current && tasks[i].state.Ready? ::
                  tasks[i].ticks <= tasks[r].ticks && tasks[i].jiffies >= tasks[r].jiffies)
            && var c := Search(tasks, current, r);
               (c != NR_TASKS ==> tasks[r].ticks > tasks[c].ticks || tasks[r].jiffies < tasks[c].jiffies)
    decreases k
  {
    if Search(tasks, current, k) != k - 1 {
      SearchPrefers(tasks, current, k - 1);
    }
  }

  /** Task `b` is ready, and no other ready task has more of its slice left or has run longer ago, nor as much of the
      one and as long of the other. */
  ghost predicate Best(tasks: seq<Task>, current: nat, k: nat, b: nat) {
    && b < k <= |tasks| && b != current && tasks[b].state.Ready?
    && forall j | 0 <= j < k && j != b && j != current && tasks[j].state.Ready? ::
         && tasks[j].ticks <= tasks[b].ticks && tasks[j].jiffies >= tasks[b].jiffies
         && (tasks[j].ticks < tasks[b].ticks || tasks[j].jiffies > tasks[b].jiffies)
  }

  /** The search finds the best task wherever it stands in the table. */
  lemma {:induction false} BestFound(tasks: seq<Task>, current: nat, k: nat, b: nat)
    requires |tasks| == NR_TASKS && Best(tasks, current, k, b)
    ensures Search(tasks, current, k) == b
    decreases k
  {
    if b < k - 1 {
      BestFound(tasks, current, k - 1, b);
    }
  }

  /** The task to run next: idle is the fallback. */
  function Next(s: Sched): (r: nat)
    requires |s.tasks| == NR_TASKS
    ensures r < NR_TASKS
  {
    var c := Search(s.tasks, s.current, NR_TASKS);
    if c == NR_TASKS then IDLE else c
  }

  /** task_unblock. */
  function Unblock(s: Sched, t: nat): Sched
    requires t < |s.tasks|
  {
    s.(tasks := s.tasks[t := s.tasks[t].(state := Ready)], sleep := Without(s.sleep, t))
  }

  /** schedule(), the part before the context switch. */
  function Leave(s: Sched): Sched
    requires |s.tasks| == NR_TASKS && s.current < NR_TASKS
  {
    var t := s.tasks[s.current];
    var u := if t.ticks == 0 then t.(ticks := t.priority) else t;
    s.(tasks := s.tasks[s.current := if u.state.Running? then u.(state := Ready) else u])
  }

  function Schedule(s: Sched): (r: Sched)
    requires |s.tasks| == NR_TASKS && s.current < NR_TASKS
    ensures |r.tasks| == NR_TASKS && r.current < NR_TASKS
  {
    var n := Next(s);
    var a := Leave(s);
    var t := a.tasks[n];
    var b :=
      if t.state.Ready? then a
      else Unblock(if t.state.Sleeping? then a.(tasks := a.tasks[n := t.(ticks := t.priority)]) else a, n);
    b.(tasks := b.tasks[n := b.tasks[n].(state := Running)], current := n)
  }

  // ---- sleeping and waking ----

  function Ticks(ms: nat): (n: nat)
  {
    if ms / JIFFY > 0 then ms / JIFFY else 1
  }

  function Target(s: Sched, ms: nat): (r: nat)
    ensures r < TWO32
  {
    (s.jiffies + Ticks(ms)) % TWO32
  }

  /** The wake-up times in sleep_list, in list order. */
  function Wakes(s: Sched): (w: seq<nat>)
    requires forall i | 0 <= i < |s.sleep| :: s.sleep[i] < |s.tasks|
    ensures |w| == |s.sleep|
  {
    seq(|s.sleep|, i requires 0 <= i < |s.sleep| => s.tasks[s.sleep[i]].ticks)
  }

  /** The same words as list_insert_sort reads them. */
  function Keys(w: seq<nat>): (k: seq<int>)
    requires forall i | 0 <= i < |w| :: w[i] < TWO32
    ensures |k| == |w|
  {
    seq(|w|, i requires 0 <= i < |w| => Signed(w[i]))
  }

  /** task_sleep up to schedule(). */
  function Doze(s: Sched, ms: nat): Sched
    requires Shape(s) && Queue(s)
  {
    var wake := Target(s, ms);
    s.(tasks := s.tasks[s.current := s.tasks[s.current].(ticks := wake, state := Sleeping)],
       sleep := InsertAt(s.sleep, Place(Keys(Wakes(s)), Signed(wake)), s.current))
  }

  function TaskSleep(s: Sched, ms: nat): Sched
    requires Shape(s) && Queue(s)
  {
    Schedule(Doze(s, ms))
  }

  /** task_weakup: from the head while the target is not after `jiffies`. */
  function Weakup(s: Sched): (r: Sched)
    requires forall i | 0 <= i < |s.sleep| :: s.sleep[i] < |s.tasks|
    ensures |r.tasks| == |s.tasks| && r.current == s.current && r.jiffies == s.jiffies
    decreases |s.sleep|
  {
    if s.sleep == [] || s.tasks[s.sleep[0]].ticks > s.jiffies then s
    else
      var t := s.sleep[0];
      Weakup(s.(tasks := s.tasks[t := s.tasks[t].(ticks := s.tasks[t].priority, state := Ready)],
        sleep := s.sleep[1..]))
  }

  /** Unsigned 32-bit decrement. */
  function Decrement(x: nat): nat {
    if x == 0 then TWO32 - 1 else x - 1
  }

  /** clock_handler after task_weakup. */
  function Tick(s: Sched): (r: Sched)
    requires |s.tasks| == NR_TASKS && s.current < NR_TASKS
    ensures |r.tasks| == NR_TASKS && r.current < NR_TASKS
  {
    var j := (s.jiffies + 1) % TWO32;
    var t := s.tasks[s.current];
    var ticks := Decrement(t.ticks);
    var d := s.(jiffies := j, tasks := s.tasks[s.current := t.(jiffies := j, ticks := ticks)]);
    if ticks == 0 then Schedule(d) else d
  }

  function Clock(s: Sched): Sched
    requires Shape(s) && Queue(s)
  {
    Tick(Weakup(s))
  }

  // ---- invariants ----

  ghost predicate Shape(s: Sched) {
    && |s.tasks| == NR_TASKS && s.current < NR_TASKS && s.jiffies < TWO32
    && (forall t | 0 <= t < NR_TASKS :: s.tasks[t].ticks < TWO32 && 1 <= s.tasks[t].priority < TWO31)
    && (forall t | 0 <= t < NR_TASKS && t != s.current :: s.tasks[t].ticks >= 1 && !s.tasks[t].state.Running?)
    && (if s.current == IDLE then s.tasks[IDLE].state.Running? else s.tasks[IDLE].state.Ready?)
  }

  /** sleep_list holds exactly the sleeping tasks, each once. */
  ghost predicate Queue(s: Sched) {
    && (forall i | 0 <= i < |s.sleep| :: s.sleep[i] < |s.tasks| && s.tasks[s.sleep[i]].state.Sleeping?)
    && (forall i, j | 0 <= i < j < |s.sleep| :: s.sleep[i] != s.sleep[j])
    && (forall t | 0 <= t < |s.tasks| && s.tasks[t].state.Sleeping? :: t in s.sleep)
  }

  /** In order of wake-up time, nobody overdue, and all on one side of 2^31. */
  ghost predicate Ordered(w: seq<nat>, now: nat) {
    && (forall i | 0 <= i < |w| :: now <= w[i] < TWO32)
    && (forall i, j | 0 <= i < j < |w| :: w[i] <= w[j])
    && (forall i, j | 0 <= i < j < |w| :: w[i] < TWO31 <==> w[j] < TWO31)
  }

  ghost predicate Timely(s: Sched)
    requires Queue(s)
  {
    Ordered(Wakes(s), s.jiffies)
  }

  /** The current task is running or has just put itself to sleep; schedule() may be called. */
  ghost predicate Leaving(s: Sched) {
    Shape(s) && Queue(s) && !s.tasks[s.current].state.Ready?
    && (s.tasks[s.current].state.Sleeping? ==> s.tasks[s.current].ticks >= 1)
  }

  ghost predicate Inv(s: Sched) {
    Shape(s) && Queue(s) && Timely(s) && s.tasks[s.current].state.Running? && s.tasks[s.current].ticks >= 1
  }

  /** schedule() always finds the next task ready: it never pulls a sleeper out early. */
  lemma NextReady(s: Sched)
    requires Leaving(s)
    ensures Leave(s).tasks[Next(s)].state.Ready? && Next(s) !in s.sleep
    ensures s.current == Next(s) ==> s.current == IDLE
  {
  }

  /** The context switch. */
  function Switch(a: Sched, n: nat): Sched
    requires n < |a.tasks|
  {
    a.(tasks := a.tasks[n := a.tasks[n].(state := Running)], current := n)
  }

  /** So what schedule() does is put the current task back in the running and switch. */
  lemma ScheduleForm(s: Sched)
    requires Leaving(s)
    ensures |s.tasks| == NR_TASKS && Schedule(s) == Switch(Leave(s), Next(s))
  {
    NextReady(s);
    hide Leaving; hide Next; hide Leave;
  }

  /** Steps that leave the sleepers and the clock alone keep the sleep list right. */
  ghost predicate SameSleepers(s: Sched, r: Sched) {
    && r.sleep == s.sleep && r.jiffies == s.jiffies && |r.tasks| == |s.tasks|
    && (forall t | 0 <= t < |s.tasks| && s.tasks[t].state.Sleeping? :: r.tasks[t] == s.tasks[t])
    && (forall t | 0 <= t < |s.tasks| && r.tasks[t].state.Sleeping? :: s.tasks[t].state.Sleeping?)
  }

  lemma SleepersKept(s: Sched, r: Sched)
    requires Queue(s) && SameSleepers(s, r)
    ensures Queue(r) && Wakes(r) == Wakes(s)
  {
  }

  /** Nobody is running; everybody has a time slice. */
  ghost predicate Idle(a: Sched) {
    && |a.tasks| == NR_TASKS && a.jiffies < TWO32 && a.tasks[IDLE].state.Ready?
    && (forall t | 0 <= t < NR_TASKS :: 1 <= a.tasks[t].ticks < TWO32 && 1 <= a.tasks[t].priority < TWO31)
    && (forall t | 0 <= t < NR_TASKS :: !a.tasks[t].state.Running?)
  }

  lemma LeaveIdle(s: Sched)
    requires Leaving(s)
    ensures Idle(Leave(s)) && SameSleepers(s, Leave(s))
    ensures forall t | 0 <= t < NR_TASKS && t != s.current :: Leave(s).tasks[t] == s.tasks[t]
  {
  }

  lemma SwitchShape(a: Sched, n: nat)
    requires Idle(a) && n < NR_TASKS && a.tasks[n].state.Ready?
    ensures var r := Switch(a, n); Shape(r) && r.tasks[n].state.Running? && r.tasks[n].ticks >= 1 && SameSleepers(a, r)
    ensures forall t | 0 <= t < NR_TASKS && t != n :: Switch(a, n).tasks[t] == a.tasks[t]
  {
  }

  lemma ScheduleShape(s: Sched)
    requires Leaving(s)
    ensures var r := Schedule(s); Shape(r) && r.tasks[r.current].state.Running? && r.tasks[r.current].ticks >= 1
    ensures SameSleepers(s, Schedule(s)) && |s.tasks| == |Schedule(s).tasks| == NR_TASKS
    ensures forall t | 0 <= t < NR_TASKS && t != s.current && !s.tasks[t].state.Ready? ::
            Schedule(s).tasks[t] == s.tasks[t]
  {
    hide Leaving; hide Schedule; hide Search; hide Next; hide Leave; hide Idle; hide Shape; hide Queue;
    LeavingParts(s);
    LeaveIdle(s);
    NextReady(s);
    ScheduleForm(s);
    SwitchShape(Leave(s), Next(s));
  }

  lemma LeavingParts(s: Sched)
    requires Leaving(s)
    ensures |s.tasks| == |Leave(s).tasks| == NR_TASKS && s.current < NR_TASKS
  {
  }

  lemma ScheduleInv(s: Sched)
    requires Leaving(s) && Timely(s)
    ensures Inv(Schedule(s)) && SameSleepers(s, Schedule(s))
  {
    hide Schedule;
    ScheduleShape(s);
    SleepersKept(s, Schedule(s));
  }

  /** Only the current task and the next one change: the one that leaves is ready again if it was running, with a new
      slice as long as its priority if its slice is used up; the next one runs with the slice it has. */
  ghost predicate Switched(s: Sched, r: Sched) {
    && |r.tasks| == |s.tasks| == 64 && s.current < 64 && r.current < 64 && r.sleep == s.sleep && r.jiffies == s.jiffies
    && (var t := s.tasks[s.current];
        var slice := if t.ticks == 0 then t.priority else t.ticks;
        r.tasks[s.current] == Task(if r.current == s.current then Running
                                   else if t.state.Running? then Ready else t.state, slice, t.jiffies, t.priority))
    && (r.current != s.current ==>
          var n := s.tasks[r.current]; r.tasks[r.current] == Task(Running, n.ticks, n.jiffies, n.priority))
    && forall i | 0 <= i < 64 && i != s.current && i != r.current :: r.tasks[i] == s.tasks[i]
  }

  /** schedule() runs the best ready task other than the current one, whenever there is one; with no other ready task
      it runs idle, and otherwise always another ready task, the one the search prefers. */
  lemma ScheduleExact(s: Sched)
    requires Leaving(s)
    ensures var r := Schedule(s);
            && Switched(s, r)
            && (if forall i | 0 <= i < 64 && i != s.current :: !s.tasks[i].state.Ready? then r.current == 0
                else
                  && r.current != s.current && s.tasks[r.current].state.Ready?
                  && r.current == Search(s.tasks, s.current, 64)
                  && forall i | r.current < i < 64 && i != s.current && s.tasks[i].state.Ready? ::
                       s.tasks[i].ticks <= s.tasks[r.current].ticks && s.tasks[i].jiffies >= s.tasks[r.current].jiffies)
            && (forall b | Best(s.tasks, s.current, 64, b) :: r.current == b)
  {
    hide Schedule; hide Best; hide Leaving; hide Switched; hide Search; hide Leave; hide Switch;
    ScheduleForm(s);
    SwitchedForm(s);
    if Search(s.tasks, s.current, 64) != NR_TASKS {
      SearchPrefers(s.tasks, s.current, 64);
    }
    forall b | Best(s.tasks, s.current, 64, b) ensures b == Next(s) {
      BestFound(s.tasks, s.current, 64, b);
      BestBelow(s.tasks, s.current, 64, b);
    }
  }

  lemma BestBelow(tasks: seq<Task>, current: nat, k: nat, b: nat)
    requires Best(tasks, current, k, b)
    ensures b < k
  {
  }

  lemma SwitchedForm(s: Sched)
    requires Leaving(s)
    ensures |s.tasks| == NR_TASKS
    ensures var r := Switch(Leave(s), Next(s)); Switched(s, r) && r.current == Next(s)
  {
    NextReady(s);
    hide Next; hide Queue;
  }

  // ---- the clock interrupt wakes exactly those whose time it is ----

  function WakeHead(s: Sched): Sched
    requires s.sleep != [] && s.sleep[0] < |s.tasks|
  {
    var t := s.sleep[0];
    s.(tasks := s.tasks[t := s.tasks[t].(ticks := s.tasks[t].priority, state := Ready)], sleep := s.sleep[1..])
  }

  ghost predicate Woken(s: Sched, r: Sched) {
    |r.tasks| == |s.tasks|
    && forall t | 0 <= t < |s.tasks| ::
         r.tasks[t] == if s.tasks[t].state.Sleeping? && s.tasks[t].ticks <= s.jiffies
                       then s.tasks[t].(ticks := s.tasks[t].priority, state := Ready) else s.tasks[t]
  }

  lemma PopQueue(s: Sched, r: Sched)
    requires Queue(s) && s.sleep != [] && r.sleep == s.sleep[1..] && |r.tasks| == |s.tasks|
    requires !r.tasks[s.sleep[0]].state.Sleeping?
    requires forall t | 0 <= t < |s.tasks| && t != s.sleep[0] :: r.tasks[t] == s.tasks[t]
    ensures Queue(r)
  {
    assert forall i | 0 <= i < |r.sleep| :: r.sleep[i] == s.sleep[i + 1] && r.sleep[i] != s.sleep[0];
    forall t | 0 <= t < |r.tasks| && r.tasks[t].state.Sleeping? ensures t in r.sleep {
      var i :| 0 <= i < |s.sleep| && s.sleep[i] == t;
      assert r.sleep[i - 1] == t;
    }
  }

  lemma PopTimely(s: Sched, r: Sched)
    requires Queue(s) && Timely(s) && s.sleep != [] && r.sleep == s.sleep[1..] && r.jiffies == s.jiffies && Queue(r)
    requires |r.tasks| == |s.tasks| && forall t | 0 <= t < |s.tasks| && t != s.sleep[0] :: r.tasks[t] == s.tasks[t]
    ensures Timely(r)
  {
    assert forall i | 0 <= i < |r.sleep| :: r.sleep[i] == s.sleep[i + 1] && r.sleep[i] != s.sleep[0];
    assert Wakes(r) == Wakes(s)[1..];
  }

  lemma WakeHeadShape(s: Sched)
    requires Inv(s) && s.sleep != []
    ensures Shape(WakeHead(s)) && WakeHead(s).tasks[s.current] == s.tasks[s.current]
  {
    hide Timely;
  }

  lemma WakeHeadKeeps(s: Sched)
    requires Inv(s) && s.sleep != []
    ensures Inv(WakeHead(s))
  {
    var h := WakeHead(s);
    WakeHeadShape(s);
    PopQueue(s, h);
    PopTimely(s, h);
    hide Shape; hide Timely; hide Queue; hide Wakes;
  }

  lemma WakeHeadWoken(s: Sched, r: Sched)
    requires Inv(s) && s.sleep != [] && s.tasks[s.sleep[0]].ticks <= s.jiffies && Woken(WakeHead(s), r)
    ensures Woken(s, r)
  {
    hide Timely;
    var t := s.sleep[0];
    assert forall u | 0 <= u < |s.tasks| && u != t :: WakeHead(s).tasks[u] == s.tasks[u];
  }

  /** The early break leaves only tasks that are not yet due. */
  lemma {:induction false} WeakupExact(s: Sched)
    requires Inv(s)
    ensures Inv(Weakup(s)) && Woken(s, Weakup(s))
    ensures forall i | 0 <= i < |Weakup(s).sleep| :: s.jiffies < Wakes(Weakup(s))[i]
    decreases |s.sleep|
  {
    if s.sleep == [] || s.tasks[s.sleep[0]].ticks > s.jiffies {
      assert forall i | 0 <= i < |s.sleep| :: Wakes(s)[0] <= Wakes(s)[i] == s.tasks[s.sleep[i]].ticks;
      assert forall t | 0 <= t < |s.tasks| && s.tasks[t].state.Sleeping? :: t in s.sleep;
    } else {
      WakeHeadKeeps(s);
      WeakupExact(WakeHead(s));
      WakeHeadWoken(s, Weakup(WakeHead(s)));
      hide Inv; hide Woken;
    }
  }

  function Aged(s: Sched): Sched
    requires |s.tasks| == NR_TASKS && s.current < NR_TASKS
  {
    var j := (s.jiffies + 1) % TWO32;
    var t := s.tasks[s.current];
    s.(jiffies := j, tasks := s.tasks[s.current := t.(jiffies := j, ticks := Decrement(t.ticks))])
  }

  lemma AgedShape(s: Sched)
    requires Shape(s) && s.tasks[s.current].state.Running? && s.tasks[s.current].ticks >= 1
    ensures Shape(Aged(s)) && Aged(s).tasks[s.current].state.Running?
  {
  }

  lemma AgedSleepers(s: Sched)
    requires Inv(s) && forall i | 0 <= i < |s.sleep| :: s.jiffies < Wakes(s)[i]
    ensures Queue(Aged(s)) && Timely(Aged(s))
    ensures forall t | 0 <= t < NR_TASKS && t != s.current :: Aged(s).tasks[t] == s.tasks[t]
  {
    hide Queue; hide Ordered; hide Wakes; hide Aged;
    AgedSame(s);
    var d := Aged(s).(jiffies := s.jiffies);
    SleepersKept(s, d);
    QueueAlone(d, Aged(s));
    LaterOrdered(Wakes(s), s.jiffies, Aged(s).jiffies);
    WakesAlone(d, Aged(s));
  }

  lemma AgedSame(s: Sched)
    requires Inv(s)
    ensures SameSleepers(s, Aged(s).(jiffies := s.jiffies)) && Aged(s).jiffies == (s.jiffies + 1) % TWO32
    ensures forall t | 0 <= t < NR_TASKS && t != s.current :: Aged(s).tasks[t] == s.tasks[t]
  {
    hide Queue; hide Timely;
  }

  lemma LaterOrdered(w: seq<nat>, now: nat, next: nat)
    requires Ordered(w, now) && next == (now + 1) % TWO32 && forall i | 0 <= i < |w| :: now < w[i]
    ensures Ordered(w, next)
  {
  }

  lemma WakesAlone(s: Sched, r: Sched)
    requires r.sleep == s.sleep && r.tasks == s.tasks && forall i | 0 <= i < |s.sleep| :: s.sleep[i] < |s.tasks|
    ensures Wakes(r) == Wakes(s)
  {
  }

  lemma TickForm(s: Sched)
    requires Inv(s)
    ensures |s.tasks| == NR_TASKS && s.current < NR_TASKS
    ensures Tick(s) == (if s.tasks[s.current].ticks == 1 then Schedule(Aged(s)) else Aged(s))
    ensures Aged(s).jiffies == (s.jiffies + 1) % TWO32
    ensures s.tasks[s.current].ticks != 1 ==> Aged(s).tasks[s.current].ticks >= 1
  {
    hide Schedule; hide Queue; hide Timely;
  }

  lemma TickInv(s: Sched)
    requires Inv(s) && forall i | 0 <= i < |s.sleep| :: s.jiffies < Wakes(s)[i]
    ensures Inv(Tick(s)) && Tick(s).jiffies == (s.jiffies + 1) % TWO32
    ensures forall t | 0 <= t < NR_TASKS && s.tasks[t].state.Sleeping? :: Tick(s).tasks[t] == s.tasks[t]
  {
    hide Schedule; hide Shape; hide Queue; hide Timely; hide Tick; hide Aged;
    TickForm(s);
    AgedShape(s);
    AgedSleepers(s);
    ScheduleInv(Aged(s));
  }

  /** The clock interrupt after the wake-ups: jiffies moves on and is noted in the running task, whose slice is one
      shorter; at the end of the slice the task leaves with nothing left of it. */
  lemma TickExact(s: Sched)
    requires Inv(s)
    ensures |s.tasks| == 64 && s.current < 64 && s.tasks[s.current].ticks >= 1
    ensures var now := if s.jiffies == 0xffff_ffff then 0 else s.jiffies + 1;
            var t := s.tasks[s.current];
            var d := s.(jiffies := now,
                        tasks := s.tasks[s.current := Task(t.state, t.ticks - 1, now, t.priority)]);
            Tick(s) == if t.ticks == 1 then Schedule(d) else d
  {
    hide Schedule; hide Queue; hide Timely;
  }

  lemma ClockInv(s: Sched)
    requires Inv(s)
    ensures Inv(Clock(s)) && Clock(s).jiffies == (s.jiffies + 1) % TWO32
  {
    hide Weakup; hide Tick; hide Timely; hide Woken; hide Wakes;
    WeakupExact(s);
    TickInv(Weakup(s));
  }

  lemma TargetAhead(s: Sched, t: nat)
    requires Inv(s) && t < NR_TASKS && s.tasks[t].state.Sleeping?
    ensures s.jiffies <= s.tasks[t].ticks
  {
    var i :| 0 <= i < |s.sleep| && s.sleep[i] == t;
    assert s.jiffies <= Wakes(s)[i];
  }

  lemma AgedStates(s: Sched, t: nat)
    requires |s.tasks| == NR_TASKS && s.current < NR_TASKS && t < NR_TASKS
    ensures Aged(s).tasks[t].state == s.tasks[t].state
  {
  }

  lemma AgedNobody(s: Sched, t: nat)
    requires Inv(s) && t < NR_TASKS && !s.tasks[t].state.Sleeping? && |Tick(s).tasks| == NR_TASKS
    requires forall i | 0 <= i < |s.sleep| :: s.jiffies < Wakes(s)[i]
    ensures !Tick(s).tasks[t].state.Sleeping?
  {
    hide Schedule; hide Shape; hide Queue; hide Timely; hide Tick; hide Aged; hide Wakes;
    TickForm(s);
    AgedShape(s);
    AgedSleepers(s);
    AgedStates(s, t);
    ScheduleInv(Aged(s));
  }

  /** One clock interrupt ends a task's sleep exactly when jiffies is its target. */
  lemma ClockWakes(s: Sched, t: nat)
    requires Inv(s) && t < NR_TASKS && s.tasks[t].state.Sleeping?
    ensures s.jiffies <= s.tasks[t].ticks && |Clock(s).tasks| == NR_TASKS
    ensures if s.tasks[t].ticks == s.jiffies then !Clock(s).tasks[t].state.Sleeping?
            else Clock(s).tasks[t] == s.tasks[t]
  {
    TargetAhead(s, t);
    WeakupExact(s);
    var w := Weakup(s);
    TickInv(w);
    if s.tasks[t].ticks == s.jiffies {
      AgedNobody(w, t);
    }
    hide Weakup; hide Tick; hide Timely; hide Queue;
  }

  // ---- going to sleep ----

  /** The target fits 32 bits and lies on the same side of 2^31 as every other sleeper's. */
  ghost predicate Safe(s: Sched, ms: nat)
    requires Shape(s) && Queue(s)
  {
    s.jiffies + Ticks(ms) < TWO32
    && forall i | 0 <= i < |s.sleep| :: Wakes(s)[i] < TWO31 <==> Target(s, ms) < TWO31
  }

  lemma PushMembers(s: Sched, r: Sched, k: nat, c: nat)
    requires Queue(s) && k <= |s.sleep| && r.sleep == InsertAt(s.sleep, k, c) && |r.tasks| == |s.tasks|
    requires c < |s.tasks| && !s.tasks[c].state.Sleeping? && r.tasks[c].state.Sleeping?
    requires forall t | 0 <= t < |s.tasks| && t != c :: r.tasks[t] == s.tasks[t]
    ensures forall i | 0 <= i < |r.sleep| :: r.sleep[i] < |r.tasks| && r.tasks[r.sleep[i]].state.Sleeping?
    ensures forall i, j | 0 <= i < j < |r.sleep| :: r.sleep[i] != r.sleep[j]
  {
    assert forall i | 0 <= i < |s.sleep| :: s.sleep[i] != c;
  }

  /** The current task joins the list at place `k`. */
  lemma PushQueue(s: Sched, r: Sched, k: nat, c: nat)
    requires Queue(s) && k <= |s.sleep| && r.sleep == InsertAt(s.sleep, k, c) && |r.tasks| == |s.tasks|
    requires c < |s.tasks| && !s.tasks[c].state.Sleeping? && r.tasks[c].state.Sleeping?
    requires forall t | 0 <= t < |s.tasks| && t != c :: r.tasks[t] == s.tasks[t]
    ensures Queue(r)
  {
    PushMembers(s, r, k, c);
    forall t | 0 <= t < |r.tasks| && r.tasks[t].state.Sleeping? ensures t in r.sleep {
      if t == c {
        assert r.sleep[k] == t;
      } else {
        var i :| 0 <= i < |s.sleep| && s.sleep[i] == t;
        assert r.sleep[if i < k then i else i + 1] == t;
      }
    }
  }

  lemma DozeShape(s: Sched, ms: nat)
    requires Inv(s) && s.current != IDLE
    ensures Shape(Doze(s, ms)) && Doze(s, ms).tasks[s.current].state.Sleeping?
    ensures Doze(s, ms).tasks[s.current].ticks == Target(s, ms)
  {
    hide Timely; hide Target; hide Place; hide Keys;
  }

  lemma DozeQueue(s: Sched, ms: nat)
    requires Inv(s) && s.current != IDLE
    ensures Queue(Doze(s, ms))
  {
    hide Timely; hide Place; hide Keys; hide Target;
    PushQueue(s, Doze(s, ms), Place(Keys(Wakes(s)), Signed(Target(s, ms))), s.current);
  }

  lemma SameSide(w: seq<nat>, now: nat, wake: nat)
    requires Ordered(w, now) && wake < TWO32 && forall i | 0 <= i < |w| :: w[i] < TWO31 <==> wake < TWO31
    ensures forall i | 0 <= i < |w| :: if i < Place(Keys(w), Signed(wake)) then w[i] <= wake else wake < w[i]
  {
    var k := Place(Keys(w), Signed(wake));
    forall i | 0 <= i < |w| ensures if i < k then w[i] <= wake else wake < w[i] {
      if i < k {
        assert Keys(w)[i] <= Signed(wake);
      } else {
        assert Signed(wake) < Keys(w)[k] && w[k] <= w[i];
      }
    }
  }

  lemma InsertOrdered(w: seq<nat>, now: nat, k: nat, wake: nat)
    requires Ordered(w, now) && k <= |w| && now <= wake < TWO32
    requires forall i | 0 <= i < |w| :: if i < k then w[i] <= wake else wake < w[i]
    requires forall i | 0 <= i < |w| :: w[i] < TWO31 <==> wake < TWO31
    ensures Ordered(InsertAt(w, k, wake), now)
  {
  }

  lemma OtherSide(w: seq<nat>, now: nat, wake: nat, i: nat) returns (a: nat, b: nat)
    requires Ordered(w, now) && wake < TWO32 && i < |w| && !(w[i] < TWO31 <==> wake < TWO31)
    ensures var r := InsertAt(w, Place(Keys(w), Signed(wake)), wake); a < b < |r| && r[a] > r[b]
  {
    var k := Place(Keys(w), Signed(wake));
    if i < k {
      assert Keys(w)[i] <= Signed(wake);
      a, b := i, k;
    } else {
      assert Signed(wake) < Keys(w)[k] && (k < i ==> (w[k] < TWO31 <==> w[i] < TWO31));
      a, b := k, k + 1;
    }
  }

  /** Inserting by the signed key keeps the order exactly when the new target is on the others' side of 2^31. */
  lemma PlaceInOrder(w: seq<nat>, now: nat, wake: nat)
    requires Ordered(w, now) && now <= wake < TWO32
    ensures Ordered(InsertAt(w, Place(Keys(w), Signed(wake)), wake), now)
            <==> forall i | 0 <= i < |w| :: w[i] < TWO31 <==> wake < TWO31
  {
    hide Keys; hide Place; hide Signed;
    if forall i | 0 <= i < |w| :: w[i] < TWO31 <==> wake < TWO31 {
      SameSide(w, now, wake);
      InsertOrdered(w, now, Place(Keys(w), Signed(wake)), wake);
    } else {
      var i :| 0 <= i < |w| && !(w[i] < TWO31 <==> wake < TWO31);
      var a, b := OtherSide(w, now, wake, i);
    }
  }

  lemma PushWakes(s: Sched, d: Sched, k: nat, c: nat)
    requires Queue(s) && c < |s.tasks| == |d.tasks| && !s.tasks[c].state.Sleeping? && k <= |s.sleep|
    requires d.sleep == InsertAt(s.sleep, k, c) && forall t | 0 <= t < |s.tasks| && t != c :: d.tasks[t] == s.tasks[t]
    ensures forall i | 0 <= i < |d.sleep| :: d.sleep[i] < |d.tasks|
    ensures Wakes(d) == InsertAt(Wakes(s), k, d.tasks[c].ticks)
  {
    assert forall i | 0 <= i < |s.sleep| :: s.sleep[i] != c;
  }

  lemma DozeWakes(s: Sched, ms: nat)
    requires Inv(s) && s.current != IDLE && Queue(Doze(s, ms))
    ensures var w, t := Wakes(s), Target(s, ms); Wakes(Doze(s, ms)) == InsertAt(w, Place(Keys(w), Signed(t)), t)
  {
    DozeShape(s, ms);
    PushWakes(s, Doze(s, ms), Place(Keys(Wakes(s)), Signed(Target(s, ms))), s.current);
    hide Place; hide Keys; hide Target; hide Queue; hide Timely; hide Wakes;
  }

  lemma DozeTimely(s: Sched, ms: nat)
    requires Inv(s) && s.current != IDLE && s.jiffies + Ticks(ms) < TWO32
    ensures Leaving(Doze(s, ms))
    ensures Timely(Doze(s, ms)) <==> Safe(s, ms)
  {
    DozeShape(s, ms);
    DozeQueue(s, ms);
    DozeWakes(s, ms);
    PlaceInOrder(Wakes(s), s.jiffies, Target(s, ms));
    hide Doze; hide Queue; hide Shape; hide Ordered; hide Place; hide Keys; hide Signed; hide Wakes; hide Ticks;
  }

  /** A sleeper whose wake-up time has passed breaks the order of the list. */
  lemma Overdue(s: Sched, t: nat)
    requires Shape(s) && Queue(s) && t < NR_TASKS && s.tasks[t].state.Sleeping? && s.tasks[t].ticks < s.jiffies
    ensures !Timely(s)
  {
    var i :| 0 <= i < |s.sleep| && s.sleep[i] == t;
    assert Wakes(s)[i] < s.jiffies;
  }

  /** A target of exactly 2^32 reads as 0, and schedule() overwrites a zero with the priority. */
  lemma ZeroTarget(s: Sched)
    requires Shape(s) && Queue(s) && s.tasks[s.current].state.Sleeping? && s.tasks[s.current].ticks == 0
    requires s.jiffies >= TWO31
    ensures var r := Schedule(s);
            r.jiffies == s.jiffies && r.tasks[s.current].state.Sleeping? && r.tasks[s.current].ticks < TWO31
  {
    assert s.current != IDLE;
    assert Leave(s).tasks[Next(s)].state.Ready? && Next(s) != s.current;
    hide Search; hide Next; hide Queue;
  }

  lemma WrappedTarget(s: Sched, ms: nat)
    requires Inv(s) && s.current != IDLE && ms < TWO32 && s.jiffies + Ticks(ms) >= TWO32
    ensures !Inv(TaskSleep(s, ms))
  {
    hide Schedule; hide Timely; hide Queue; hide Ticks; hide Target;
    var d := Doze(s, ms);
    DozeShape(s, ms);
    DozeQueue(s, ms);
    WrapsTo(s, ms);
    if d.tasks[d.current].ticks == 0 {
      ZeroTarget(d);
    } else {
      ScheduleShape(d);
    }
    var r := Schedule(d);
    assert r.tasks[s.current].state.Sleeping? && r.tasks[s.current].ticks < r.jiffies;
    if Shape(r) && Queue(r) {
      Overdue(r, s.current);
    }
  }

  lemma WrapsTo(s: Sched, ms: nat)
    requires ms < TWO32 && s.jiffies < TWO32 <= s.jiffies + Ticks(ms)
    ensures Target(s, ms) < s.jiffies && s.jiffies >= TWO31
  {
  }

  /** Going to sleep keeps the invariant exactly when the target neither wraps nor straddles 2^31. */
  lemma SleepExact(s: Sched, ms: nat)
    requires Inv(s) && s.current != IDLE && ms < TWO32
    ensures Inv(TaskSleep(s, ms)) <==> Safe(s, ms)
  {
    if s.jiffies + Ticks(ms) < TWO32 {
      var d := Doze(s, ms);
      DozeTimely(s, ms);
      ScheduleShape(d);
      SleepersKept(d, Schedule(d));
      hide Schedule; hide Doze; hide Safe; hide Wakes; hide Ordered;
    } else {
      WrappedTarget(s, ms);
    }
  }

  // ---- what goes wrong beyond that ----

  /** The sleepers are a later one in front and `a` behind it; the front one is not due. */
  ghost predicate Stuck(s: Sched, a: nat) {
    && Shape(s) && Queue(s) && s.tasks[s.current].state.Running? && s.tasks[s.current].ticks >= 1
    && a < NR_TASKS && |s.sleep| == 2 && s.sleep[1] == a && s.tasks[s.sleep[0]].ticks >= s.jiffies
  }

  lemma StuckClock(s: Sched, a: nat)
    requires Stuck(s, a) && s.jiffies < s.tasks[s.sleep[0]].ticks
    ensures var r := Clock(s);
            && Stuck(r, a) && r.jiffies == s.jiffies + 1 && r.sleep == s.sleep
            && r.tasks[s.sleep[0]] == s.tasks[s.sleep[0]] && r.tasks[a] == s.tasks[a]
  {
    hide Schedule; hide Queue; hide Wakes;
    StuckFacts(s, a);
    assert Weakup(s) == s;
    AgedShape(s);
    var d := Aged(s);
    assert SameSleepers(s.(jiffies := d.jiffies), d);
    QueueAlone(s, s.(jiffies := d.jiffies));
    SleepersKept(s.(jiffies := d.jiffies), d);
    if d.tasks[d.current].ticks == 0 {
      ScheduleShape(d);
      SleepersKept(d, Schedule(d));
    }
  }

  lemma StuckFacts(s: Sched, a: nat)
    requires Stuck(s, a)
    ensures s.sleep[0] < NR_TASKS && s.tasks[s.sleep[0]].state.Sleeping? && s.tasks[a].state.Sleeping?
    ensures s.tasks[s.sleep[0]].ticks < TWO32
  {
  }

  lemma QueueAlone(s: Sched, r: Sched)
    requires Queue(s) && r.sleep == s.sleep && r.tasks == s.tasks
    ensures Queue(r)
  {
  }

  /** `n` clock interrupts while the front sleeper is not due. */
  ghost function Clocks(s: Sched, a: nat, n: nat): (r: Sched)
    requires Stuck(s, a) && s.jiffies + n <= s.tasks[s.sleep[0]].ticks
    ensures Stuck(r, a) && r.jiffies == s.jiffies + n && r.sleep == s.sleep
    ensures r.tasks[s.sleep[0]] == s.tasks[s.sleep[0]] && r.tasks[a] == s.tasks[a]
    decreases n
  {
    hide Stuck; hide Clock;
    StuckParts(s, a);
    if n == 0 then s
    else
      var d := Clocks(s, a, n - 1);
      StuckParts(d, a);
      StuckClock(d, a);
      Clock(d)
  }

  lemma StuckParts(s: Sched, a: nat)
    requires Stuck(s, a)
    ensures Shape(s) && Queue(s) && a < NR_TASKS == |s.tasks| && |s.sleep| == 2 && s.sleep[0] < NR_TASKS
  {
  }

  lemma StraddledSleep(s: Sched, ms: nat, a: nat)
    requires Inv(s) && s.current != IDLE && s.sleep == [a] && a < NR_TASKS
    requires s.tasks[a].ticks < TWO31 <= s.jiffies + Ticks(ms) < TWO32
    ensures Doze(s, ms).sleep == [s.current, a] && a != s.current
  {
    assert s.sleep[0] == a;
    assert Keys(Wakes(s))[0] == s.tasks[a].ticks;
    assert Signed(Target(s, ms)) < 0;
    assert Place(Keys(Wakes(s)), Signed(Target(s, ms))) == 0;
    assert a != s.current by {
      assert s.tasks[a].state.Sleeping?;
    }
  }

  /** Straddling 2^31 oversleeps: the current task goes to sleep with a target beyond 2^31 while `a` sleeps with a
      target below. The later target is put first, and `a` sleeps on through every clock interrupt until the later
      target is reached, long past its own. */
  lemma StraddleOversleeps(s: Sched, ms: nat, a: nat, n: nat)
    requires Inv(s) && s.current != IDLE && s.sleep == [a] && a < NR_TASKS
    requires s.tasks[a].ticks < TWO31 <= s.jiffies + Ticks(ms) < TWO32 && n <= Ticks(ms)
    ensures var d := TaskSleep(s, ms);
            && Stuck(d, a) && d.jiffies + Ticks(ms) == d.tasks[d.sleep[0]].ticks
              && s.tasks[a].ticks < d.jiffies + Ticks(ms)
            && var r := Clocks(d, a, n);
               r.jiffies == s.jiffies + n && r.tasks[a].state.Sleeping? && r.tasks[a].ticks == s.tasks[a].ticks
  {
    hide Schedule; hide Doze; hide Queue; hide Ticks; hide Wakes; hide Ordered; hide Safe;
    StraddledSleep(s, ms, a);
    var e := Doze(s, ms);
    DozeTimely(s, ms);
    DozeFrame(s, ms);
    ScheduleShape(e);
    SleepersKept(e, Schedule(e));
    SleeperState(s, a);
  }

  lemma SleeperState(s: Sched, a: nat)
    requires Inv(s) && s.sleep == [a]
    ensures a < |s.tasks| && s.tasks[a].state.Sleeping?
  {
    assert s.sleep[0] == a;
  }

  /** A target that wraps (past 2^32, not to it) has already passed: the next clock interrupt ends the sleep. */
  lemma WrapWakesAtOnce(s: Sched, ms: nat)
    requires Inv(s) && s.current != IDLE && s.sleep == [] && ms < TWO32 && s.jiffies + Ticks(ms) > TWO32
    ensures var d := TaskSleep(s, ms);
            && Shape(d) && Queue(d) && d.tasks[s.current].state.Sleeping?
            && |Clock(d).tasks| == NR_TASKS && !Clock(d).tasks[s.current].state.Sleeping?
  {
    hide Schedule; hide Timely; hide Queue; hide Ticks; hide Target; hide Tick;
    var e := Doze(s, ms);
    DozeShape(s, ms);
    DozeQueue(s, ms);
    WrapsTo(s, ms);
    WrapsPositive(s, ms);
    AloneAsleep(s, ms);
    ScheduleShape(e);
    var d := Schedule(e);
    SleepersKept(e, d);
    assert Weakup(d) == WakeHead(d);
    AloneWoken(d, s.current);
    AgedNobody(WakeHead(d), s.current);
  }

  lemma WrapsPositive(s: Sched, ms: nat)
    requires ms < TWO32 && s.jiffies < TWO32 < s.jiffies + Ticks(ms)
    ensures Target(s, ms) > 0
  {
  }

  lemma AloneAsleep(s: Sched, ms: nat)
    requires Shape(s) && Queue(s) && s.sleep == []
    ensures Doze(s, ms).sleep == [s.current]
  {
    hide Shape;
  }

  lemma AloneWoken(d: Sched, t: nat)
    requires Shape(d) && Queue(d) && d.tasks[d.current].state.Running? && d.tasks[d.current].ticks >= 1
    requires d.sleep == [t] && t < NR_TASKS && t != d.current
    ensures Inv(WakeHead(d)) && WakeHead(d).sleep == [] && !WakeHead(d).tasks[t].state.Sleeping?
  {
    PopQueue(d, WakeHead(d));
  }

  // ---- runs ----

  datatype Action =
    | Interrupt             // the clock
    | Sleep(ms: nat)        // the current task sleeps
    | Block                 // the current task blocks on something else
    | Unpark(t: nat)       // a blocked task becomes ready
    | Yield

  /** The idle task only halts: it never sleeps or blocks. */
  function Apply(s: Sched, a: Action): Sched
    requires Inv(s)
  {
    match a
    case Interrupt => Clock(s)
    case Sleep(ms) => if s.current == IDLE then s else TaskSleep(s, ms)
    case Block => if s.current == IDLE then s
      else Schedule(s.(tasks := s.tasks[s.current := s.tasks[s.current].(state := Parked)]))
    case Unpark(t) =>
      if t < NR_TASKS && s.tasks[t].state.Parked? then s.(tasks := s.tasks[t := s.tasks[t].(state := Ready)]) else s
    case Yield => Schedule(s)
  }

  /** The caller's check before a sleep. */
  ghost predicate Permitted(s: Sched, a: Action)
    requires Inv(s)
  {
    a.Sleep? && s.current != IDLE ==> a.ms < TWO32 && Safe(s, a.ms)
  }

  lemma QuietInv(s: Sched, d: Sched)
    requires Inv(s) && Shape(d) && d.current == s.current && SameSleepers(s, d)
    requires d.tasks[d.current].state in {Running, Parked}
    ensures Leaving(d) && Inv(Schedule(d)) && SameSleepers(s, Schedule(d))
  {
    hide Schedule; hide Shape; hide Queue;
    SleepersKept(s, d);
    ScheduleInv(d);
  }

  lemma BlockInv(s: Sched)
    requires Inv(s) && s.current != IDLE
    ensures Inv(Apply(s, Block)) && SameSleepers(s, Apply(s, Block))
  {
    QuietInv(s, s.(tasks := s.tasks[s.current := s.tasks[s.current].(state := Parked)]));
    hide Schedule; hide Queue; hide Timely; hide Inv;
  }

  lemma UnparkInv(s: Sched, t: nat)
    requires Inv(s)
    ensures Inv(Apply(s, Unpark(t))) && SameSleepers(s, Apply(s, Unpark(t)))
  {
    hide Queue; hide Wakes;
    SleepersKept(s, Apply(s, Unpark(t)));
  }

  lemma DozeFrame(s: Sched, ms: nat)
    requires Inv(s) && s.jiffies + Ticks(ms) < TWO32
    ensures var d := Doze(s, ms);
            |d.tasks| == |s.tasks| == NR_TASKS && d.current == s.current < NR_TASKS && d.jiffies == s.jiffies
            && (forall t | 0 <= t < NR_TASKS && t != s.current :: d.tasks[t] == s.tasks[t])
            && s.tasks[s.current].state.Running?
            && d.tasks[s.current].state.Sleeping? && d.tasks[s.current].ticks == s.jiffies + Ticks(ms)
  {
    hide Queue; hide Timely; hide Ticks; hide Place; hide Keys; hide Wakes;
  }

  lemma TaskSleepSleepers(s: Sched, ms: nat)
    requires Inv(s) && s.current != IDLE && s.jiffies + Ticks(ms) < TWO32
    ensures |TaskSleep(s, ms).tasks| == |s.tasks| == NR_TASKS && s.current < NR_TASKS
    ensures TaskSleep(s, ms).jiffies == s.jiffies
    ensures forall t | 0 <= t < NR_TASKS && s.tasks[t].state.Sleeping? :: TaskSleep(s, ms).tasks[t] == s.tasks[t]
    ensures var c := TaskSleep(s, ms).tasks[s.current]; c.state.Sleeping? && c.ticks == s.jiffies + Ticks(ms)
  {
    hide Schedule; hide Doze; hide Queue; hide Timely; hide Shape; hide Leaving; hide Safe; hide Ticks; hide Inv;
    InvShape(s);
    var d := Doze(s, ms);
    DozeTimely(s, ms);
    DozeFrame(s, ms);
    ScheduleShape(d);
  }

  lemma InvShape(s: Sched)
    requires Inv(s)
    ensures Shape(s) && Queue(s) && |s.tasks| == NR_TASKS && s.current < NR_TASKS
  {
  }

  lemma ApplyInv(s: Sched, a: Action)
    requires Inv(s) && Permitted(s, a)
    ensures Inv(Apply(s, a)) && Apply(s, a).jiffies == if a.Interrupt? then (s.jiffies + 1) % TWO32 else s.jiffies
  {
    hide Schedule; hide Clock; hide TaskSleep; hide Timely; hide Queue; hide Shape;
    match a
    case Interrupt =>
      ClockInv(s);
    case Sleep(ms) =>
      if s.current != IDLE {
        SleepExact(s, ms);
        TaskSleepSleepers(s, ms);
      }
    case Block =>
      if s.current != IDLE {
        BlockInv(s);
      }
    case Unpark(t) =>
      UnparkInv(s, t);
    case Yield =>
      QuietInv(s, s);
  }

  /** Besides the clock and sleeping: blocking is schedule() by a task that is no longer ready to run, yielding is
      schedule(), and unblocking makes the one task ready. */
  lemma OtherActions(s: Sched, t: nat)
    requires Inv(s) && t < 64
    ensures |s.tasks| == 64 && s.current < 64
    ensures s.current != 0 ==> var b := s.(tasks := s.tasks[s.current := s.tasks[s.current].(state := Parked)]);
                               Leaving(b) && Apply(s, Block) == Schedule(b)
    ensures Leaving(s) && Apply(s, Yield) == Schedule(s)
    ensures Apply(s, Unpark(t)) ==
            if s.tasks[t].state == Parked then s.(tasks := s.tasks[t := s.tasks[t].(state := Ready)]) else s
  {
    hide Schedule; hide Queue; hide Timely;
    if s.current != 0 {
      QuietInv(s, s.(tasks := s.tasks[s.current := s.tasks[s.current].(state := Parked)]));
    }
  }

  /** Whatever happens, a sleeper wakes only at the interrupt that finds jiffies at its target. */
  lemma OnlyTheClockWakes(s: Sched, a: Action, t: nat)
    requires Inv(s) && Permitted(s, a) && t < NR_TASKS && s.tasks[t].state.Sleeping?
    ensures s.jiffies <= s.tasks[t].ticks && |Apply(s, a).tasks| == NR_TASKS
    ensures if a.Interrupt? && s.tasks[t].ticks == s.jiffies then !Apply(s, a).tasks[t].state.Sleeping?
            else Apply(s, a).tasks[t] == s.tasks[t]
  {
    hide Schedule; hide Clock; hide TaskSleep; hide Timely; hide Queue;
    ClockWakes(s, t);
    match a
    case Interrupt =>
    case Sleep(ms) =>
      if s.current != IDLE {
        TaskSleepSleepers(s, ms);
      }
    case Block =>
      if s.current != IDLE {
        BlockInv(s);
      }
    case Unpark(u) =>
      UnparkInv(s, u);
    case Yield =>
      QuietInv(s, s);
  }

  ghost predicate Orderly(s: Sched, run: seq<Action>)
    requires Inv(s)
    decreases |run|
  {
    run == [] || (Permitted(s, run[0]) && (ApplyInv(s, run[0]); Orderly(Apply(s, run[0]), run[1..])))
  }

  ghost function Run(s: Sched, run: seq<Action>): (r: Sched)
    requires Inv(s) && Orderly(s, run)
    ensures Inv(r)
    decreases |run|
  {
    if run == [] then s else
      ApplyInv(s, run[0]);
      Run(Apply(s, run[0]), run[1..])
  }

  function Interrupts(run: seq<Action>): nat {
    if run == [] then 0 else (if run[0].Interrupt? then 1 else 0) + Interrupts(run[1..])
  }

  /** Over any run, a task sleeps on unchanged as long as jiffies has not passed its target, and the clock
      interrupt that finds jiffies at the target wakes it. */
  lemma {:induction false} WokenOnTime(s: Sched, run: seq<Action>, t: nat)
    requires Inv(s) && Orderly(s, run) && t < NR_TASKS && s.tasks[t].state.Sleeping?
    requires s.jiffies + Interrupts(run) <= s.tasks[t].ticks
    ensures var r := Run(s, run);
            Inv(r) && r.tasks[t] == s.tasks[t] && r.jiffies == s.jiffies + Interrupts(run)
            && |Clock(r).tasks| == NR_TASKS
            && (Clock(r).tasks[t].state.Sleeping? <==> r.jiffies < s.tasks[t].ticks)
    decreases |run|
  {
    hide Shape; hide Queue; hide Timely; hide Permitted; hide Apply; hide Clock;
    if run == [] {
      ClockWakes(s, t);
    } else {
      ApplyInv(s, run[0]);
      OnlyTheClockWakes(s, run[0], t);
      ShapeBounds(s, t);
      WokenOnTime(Apply(s, run[0]), run[1..], t);
    }
  }

  lemma ShapeBounds(s: Sched, t: nat)
    requires Inv(s) && t < NR_TASKS
    ensures |s.tasks| == NR_TASKS && s.tasks[t].ticks < TWO32
  {
  }

  lemma TicksExact(ms: nat)
    ensures Ticks(ms) == if ms < 10 then 1 else ms / 10
  {
  }

  /** task_unblock makes the one task ready and takes it off its list; the others keep their order. */
  lemma UnblockExact(s: Sched, t: nat)
    requires |s.tasks| == NR_TASKS && t < NR_TASKS && Lists.Distinct(s.sleep)
    ensures var r := Unblock(s, t);
            && r.current == s.current && r.jiffies == s.jiffies && |r.tasks| == 64
            && r.tasks[t] == Task(Ready, s.tasks[t].ticks, s.tasks[t].jiffies, s.tasks[t].priority)
            && (forall i | 0 <= i < 64 && i != t :: r.tasks[i] == s.tasks[i])
            && (t !in s.sleep ==> r.sleep == s.sleep)
            && forall k | 0 <= k < |s.sleep| && s.sleep[k] == t :: r.sleep == s.sleep[..k] + s.sleep[k + 1..]
  {
    forall k | 0 <= k < |s.sleep| && s.sleep[k] == t
      ensures Without(s.sleep, t) == s.sleep[..k] + s.sleep[k + 1..] {
      WithoutAt(s.sleep, k);
    }
  }

  /** task_sleep(ms) lasts max(1, ms/10) full interrupts, and the next one ends it. */
  lemma SleepLasts(s: Sched, ms: nat, run: seq<Action>)
    requires Inv(s) && s.current != IDLE && ms < TWO32 && Safe(s, ms)
    ensures Inv(TaskSleep(s, ms))
    ensures var n := if ms < 10 then 1 else ms / 10;
            Orderly(TaskSleep(s, ms), run) && Interrupts(run) <= n ==>
              var r := Run(TaskSleep(s, ms), run);
              Inv(r) && r.tasks[s.current].state.Sleeping? && |Clock(r).tasks| == NR_TASKS
              && (Clock(r).tasks[s.current].state.Sleeping? <==> Interrupts(run) < n)
  {
    hide Shape; hide Queue; hide Timely; hide TaskSleep; hide Ticks; hide Clock; hide Orderly;
    TicksExact(ms);
    SleepExact(s, ms);
    TaskSleepSleepers(s, ms);
    ShapeBounds(s, s.current);
    if Orderly(TaskSleep(s, ms), run) && Interrupts(run) <= Ticks(ms) {
      WokenOnTime(TaskSleep(s, ms), run, s.current);
    }
  }
}
