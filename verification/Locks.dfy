/** The mutex and the reentrant lock (src/kernel/mutex.c), over any number of tasks. A step is one section with
    interrupts off, or one statement of reentrant_lock and reentrant_unlock outside them; the steps of different
    tasks interleave in any way. */
module Locks {
  const TWO32: nat := 0x1_0000_0000

  /** Where a task is.
      Out        outside both functions
      Wanting    in reentrant_lock, about to enter mutex_lock
      Blocked    in mutex_lock, in the list of waiters
      Woken      in mutex_lock, unblocked and about to test the value again
      Got        back in reentrant_lock with the mutex
      Held       about to set the count to one
      Dropping   in reentrant_unlock with the count down to zero
      Unlocking  about to enter mutex_unlock, the holder already cleared */
  datatype Pc = Out | Wanting | Blocked | Woken | Got | Held | Dropping | Unlocking

  datatype Holder = Nobody | By(task: nat)

  /** `depth` counts each task's unmatched lock calls and `arrived` when it last blocked; `failed` is set by an
      assertion of the source that does not hold. */
  datatype Lock = Lock(
    value: bool, waiters: seq<nat>, holder: Holder, repeat: nat,
    pcs: seq<Pc>, depth: seq<nat>, arrived: seq<nat>, clock: nat, failed: bool)

  // ---- the mutex ----

  /** One turn of the loop in mutex_lock. */
  function MutexLock(l: Lock, t: nat): Lock
    requires t < |l.pcs| == |l.arrived|
  {
    if l.value then
      l.(waiters := [t] + l.waiters, pcs := l.pcs[t := Blocked], arrived := l.arrived[t := l.clock],
         clock := l.clock + 1)
    else l.(value := true, pcs := l.pcs[t := Got])
  }

  /** mutex_unlock: the waiter at the tail is unblocked. */
  function MutexUnlock(l: Lock, t: nat): Lock
    requires t < |l.pcs| && forall i | 0 <= i < |l.waiters| :: l.waiters[i] < |l.pcs|
  {
    var d := l.(value := false, failed := l.failed || !l.value, pcs := l.pcs[t := Out]);
    var n := |l.waiters|;
    if n == 0 then d else d.(waiters := l.waiters[..n - 1], pcs := d.pcs[l.waiters[n - 1] := Woken])
  }

  // ---- the reentrant lock ----

  function CallLock(l: Lock, t: nat): Lock
    requires t < |l.pcs| == |l.depth|
  {
    if l.holder == By(t) then l.(repeat := (l.repeat + 1) % TWO32, depth := l.depth[t := l.depth[t] + 1])
    else l.(pcs := l.pcs[t := Wanting])
  }

  function CallUnlock(l: Lock, t: nat): Lock
    requires t < |l.pcs| == |l.depth| && l.depth[t] > 0
  {
    var repeat := if l.repeat == 0 then TWO32 - 1 else l.repeat - 1;
    l.(failed := l.failed || l.holder != By(t), repeat := repeat, depth := l.depth[t := l.depth[t] - 1],
       pcs := if repeat == 0 then l.pcs[t := Dropping] else l.pcs)
  }

  function Advance(l: Lock, t: nat): Lock
    requires t < |l.pcs| == |l.depth| == |l.arrived| && forall i | 0 <= i < |l.waiters| :: l.waiters[i] < |l.pcs|
  {
    match l.pcs[t]
    case Wanting => MutexLock(l, t)
    case Woken => MutexLock(l, t)
    case Got => l.(holder := By(t), pcs := l.pcs[t := Held])
    case Held => l.(failed := l.failed || l.repeat != 0, repeat := 1, depth := l.depth[t := l.depth[t] + 1],
                    pcs := l.pcs[t := Out])
    case Dropping => l.(holder := Nobody, pcs := l.pcs[t := Unlocking])
    case Unlocking => MutexUnlock(l, t)
    case _ => l
  }

  datatype Action = DoLock(t: nat) | DoUnlock(t: nat) | Continue(t: nat)

  /** A balanced client unlocks only what it has locked. */
  function Apply(l: Lock, a: Action): Lock
    requires Inv(l)
  {
    WaitersExist(l);
    if a.t >= |l.pcs| then l
    else
      match a
      case DoLock(t) => if l.pcs[t].Out? then CallLock(l, t) else l
      case DoUnlock(t) => if l.pcs[t].Out? && l.depth[t] > 0 then CallUnlock(l, t) else l
      case Continue(t) => Advance(l, t)
  }

  /** Of any state, reachable or not: the flag is set exactly by an unlock of a free mutex, an unlock by a task that is
      not the holder, and a count that is not zero when the mutex has just been taken. */
  lemma AssertionsChecked(l: Lock, t: nat)
    requires t < |l.pcs| == |l.depth| == |l.arrived| && forall i | 0 <= i < |l.waiters| :: l.waiters[i] < |l.pcs|
    ensures l.pcs[t].Unlocking? ==> (Advance(l, t).failed <==> l.failed || !l.value)
    ensures l.pcs[t].Held? ==> (Advance(l, t).failed <==> l.failed || l.repeat > 0)
    ensures l.pcs[t] in {Wanting, Woken, Got, Dropping} ==> (Advance(l, t).failed <==> l.failed)
    ensures CallLock(l, t).failed <==> l.failed
    ensures l.depth[t] > 0 ==> (CallUnlock(l, t).failed <==> l.failed || !(l.holder.By? && l.holder.task == t))
  {
  }

  // ---- invariants ----

  /** From taking the mutex to giving it back. */
  predicate Inside(l: Lock, t: nat)
    requires t < |l.pcs| == |l.depth|
  {
    match l.pcs[t]
    case Out => l.depth[t] > 0
    case Got => true
    case Held => true
    case Dropping => true
    case Unlocking => true
    case _ => false
  }

  ghost predicate Sized(l: Lock) {
    |l.pcs| == |l.depth| == |l.arrived| && !l.failed && l.repeat < TWO32
  }

  /** The mutex is taken exactly when somebody is inside, and never by two. */
  ghost predicate Exclusive(l: Lock)
    requires Sized(l)
  {
    && (forall t | 0 <= t < |l.pcs| && Inside(l, t) :: l.value)
    && (l.value ==> exists t :: 0 <= t < |l.pcs| && Inside(l, t))
    && (forall t, u | 0 <= t < |l.pcs| && 0 <= u < |l.pcs| && Inside(l, t) && Inside(l, u) :: t == u)
  }

  /** The holder is known from when it is recorded to when it is cleared; the count is the holder's depth. */
  ghost predicate Counted(l: Lock)
    requires Sized(l)
  {
    && (forall t | 0 <= t < |l.pcs| :: l.holder == By(t) <==>
      l.pcs[t].Held? || l.pcs[t].Dropping? || (l.pcs[t].Out? && l.depth[t] > 0))
    && (l.holder.By? ==> l.holder.task < |l.pcs|)
    && (forall t | 0 <= t < |l.pcs| && !l.pcs[t].Out? :: l.depth[t] == 0)
    && (forall t | 0 <= t < |l.pcs| && l.depth[t] > 0 :: l.repeat == l.depth[t])
    && ((forall t | 0 <= t < |l.pcs| :: l.depth[t] == 0) ==> l.repeat == 0)
  }

  /** The waiters are the blocked tasks, the one that came last in front. */
  ghost predicate Queue(l: Lock)
    requires Sized(l)
  {
    && (forall i | 0 <= i < |l.waiters| ::
      l.waiters[i] < |l.pcs| && l.pcs[l.waiters[i]].Blocked? && l.arrived[l.waiters[i]] < l.clock)
    && (forall i, j | 0 <= i < j < |l.waiters| :: l.arrived[l.waiters[j]] < l.arrived[l.waiters[i]])
    && (forall t | 0 <= t < |l.pcs| && l.pcs[t].Blocked? :: t in l.waiters)
  }

  /** No wake-up is lost: somebody waits only while the mutex is taken or a woken task has yet to look. */
  ghost predicate Awake(l: Lock) {
    l.waiters != [] ==> l.value || exists t :: 0 <= t < |l.pcs| && l.pcs[t].Woken?
  }

  ghost predicate Inv(l: Lock) {
    Sized(l) && Exclusive(l) && Counted(l) && Queue(l) && Awake(l)
  }

  // ---- each step keeps the invariant ----

  lemma PushQueue(l: Lock, t: nat)
    requires Inv(l) && t < |l.pcs| && (l.pcs[t].Wanting? || l.pcs[t].Woken?) && l.value
    ensures Queue(MutexLock(l, t))
  {
    var r := MutexLock(l, t);
    assert r.waiters[0] == t && forall i | 0 < i < |r.waiters| :: r.waiters[i] == l.waiters[i - 1] && r.waiters[i] != t;
  }

  /** `t` alone changes; the others are inside as before. */
  lemma OthersInside(l: Lock, r: Lock, t: nat)
    requires Sized(l) && Sized(r) && |r.pcs| == |l.pcs|
    requires forall u | 0 <= u < |l.pcs| && u != t ::
             r.depth[u] == l.depth[u] && (r.pcs[u] == l.pcs[u] || (l.pcs[u].Blocked? && r.pcs[u].Woken?))
    ensures forall u | 0 <= u < |l.pcs| && u != t :: Inside(r, u) <==> Inside(l, u)
  {
  }

  /** A step by which `t` stays inside or outside. */
  lemma KeepExclusive(l: Lock, r: Lock, t: nat)
    requires Inv(l) && Sized(r) && t < |l.pcs| && |r.pcs| == |l.pcs| && r.value == l.value
    requires r.pcs == l.pcs[t := r.pcs[t]] && r.depth == l.depth[t := r.depth[t]] && (Inside(r, t) <==> Inside(l, t))
    ensures Exclusive(r)
  {
    hide Counted; hide Queue; hide Awake;
    OthersInside(l, r, t);
    assert forall u | 0 <= u < |l.pcs| :: Inside(r, u) <==> Inside(l, u);
  }

  /** A step that leaves the queue alone, by a task that is not in it. */
  lemma KeepQueue(l: Lock, r: Lock, t: nat)
    requires Inv(l) && Sized(r) && t < |l.pcs| && |r.pcs| == |l.pcs| && r.waiters == l.waiters
    requires r.pcs == l.pcs[t := r.pcs[t]] && r.arrived == l.arrived && r.clock == l.clock
    requires !l.pcs[t].Blocked? && !r.pcs[t].Blocked?
    ensures Queue(r)
  {
    hide Counted; hide Exclusive; hide Awake;
  }

  lemma PushInv(l: Lock, t: nat)
    requires Inv(l) && t < |l.pcs| && (l.pcs[t].Wanting? || l.pcs[t].Woken?) && l.value
    ensures Inv(MutexLock(l, t))
  {
    hide Exclusive;
    hide Queue;
    PushQueue(l, t);
    KeepExclusive(l, MutexLock(l, t), t);
  }

  lemma TakeInv(l: Lock, t: nat)
    requires Inv(l) && t < |l.pcs| && (l.pcs[t].Wanting? || l.pcs[t].Woken?) && !l.value
    ensures Inv(MutexLock(l, t))
  {
    hide Queue; hide Counted;
    var r := MutexLock(l, t);
    KeepQueue(l, r, t);
    OthersInside(l, r, t);
    assert Inside(r, t);
    TakeCounted(l, t);
  }

  lemma TakeCounted(l: Lock, t: nat)
    requires Inv(l) && t < |l.pcs| && (l.pcs[t].Wanting? || l.pcs[t].Woken?) && !l.value
    ensures Counted(MutexLock(l, t))
  {
    hide Queue; hide Awake; hide Exclusive;
  }

  /** Nobody else is inside, so nobody else has a depth. */
  lemma OthersShallow(l: Lock, t: nat)
    requires Inv(l) && t < |l.pcs| && Inside(l, t)
    ensures forall u | 0 <= u < |l.pcs| && u != t :: l.depth[u] == 0 && l.holder != By(u)
  {
    hide Queue; hide Awake;
    forall u | 0 <= u < |l.pcs| && u != t ensures l.depth[u] == 0 && l.holder != By(u) {
      assert !Inside(l, u);
    }
  }

  lemma NestCounted(l: Lock, t: nat)
    requires Inv(l) && t < |l.pcs| && l.pcs[t].Out? && l.holder == By(t) && l.depth[t] + 1 < TWO32
    ensures Sized(CallLock(l, t)) && Counted(CallLock(l, t)) && (Inside(CallLock(l, t), t) <==> Inside(l, t))
  {
    hide Queue; hide Exclusive; hide Awake;
    OthersShallow(l, t);
    assert l.repeat == l.depth[t] > 0;
    assert CallLock(l, t).depth[t] == l.depth[t] + 1;
  }

  lemma WantCounted(l: Lock, t: nat)
    requires Inv(l) && t < |l.pcs| && l.pcs[t].Out? && l.holder != By(t)
    ensures Sized(CallLock(l, t)) && Counted(CallLock(l, t)) && (Inside(CallLock(l, t), t) <==> Inside(l, t))
  {
    hide Queue; hide Exclusive; hide Awake;
    assert l.depth[t] == 0;
  }

  /** Neither call wakes or blocks anybody or gives the mutex away. */
  lemma KeepRest(l: Lock, r: Lock, t: nat)
    requires Inv(l) && Sized(r) && Counted(r) && t < |l.pcs| == |r.pcs| && !l.pcs[t].Blocked? && !r.pcs[t].Blocked?
    requires r.pcs == l.pcs[t := r.pcs[t]] && r.depth == l.depth[t := r.depth[t]] && (Inside(r, t) <==> Inside(l, t))
    requires r.value == l.value && r.waiters == l.waiters && r.arrived == l.arrived && r.clock == l.clock
    requires !l.pcs[t].Woken?
    ensures Inv(r)
  {
    hide Queue; hide Exclusive; hide Counted;
    KeepQueue(l, r, t);
    KeepExclusive(l, r, t);
    if l.waiters != [] && !l.value {
      var u :| 0 <= u < |l.pcs| && l.pcs[u].Woken?;
      assert r.pcs[u].Woken?;
    }
  }

  lemma CallLockInv(l: Lock, t: nat)
    requires Inv(l) && t < |l.pcs| && l.pcs[t].Out? && l.depth[t] + 1 < TWO32
    ensures Inv(CallLock(l, t))
  {
    hide Queue; hide Exclusive; hide Counted; hide Awake; hide Inside;
    if l.holder == By(t) {
      NestCounted(l, t);
    } else {
      WantCounted(l, t);
    }
    KeepRest(l, CallLock(l, t), t);
  }

  lemma UncountedOnce(l: Lock, t: nat)
    requires Inv(l) && t < |l.pcs| && l.pcs[t].Out? && l.depth[t] > 0
    ensures Sized(CallUnlock(l, t)) && Counted(CallUnlock(l, t)) && (Inside(CallUnlock(l, t), t) <==> Inside(l, t))
  {
    hide Queue; hide Exclusive; hide Awake;
    OthersShallow(l, t);
    assert l.holder == By(t) && l.repeat == l.depth[t];
    assert CallUnlock(l, t).depth[t] == l.depth[t] - 1;
  }

  lemma CallUnlockInv(l: Lock, t: nat)
    requires Inv(l) && t < |l.pcs| && l.pcs[t].Out? && l.depth[t] > 0
    ensures Inv(CallUnlock(l, t))
  {
    hide Queue; hide Exclusive; hide Counted; hide Awake; hide Inside;
    UncountedOnce(l, t);
    KeepRest(l, CallUnlock(l, t), t);
  }

  lemma WaitersExist(l: Lock)
    requires Inv(l)
    ensures forall i | 0 <= i < |l.waiters| :: l.waiters[i] < |l.pcs|
  {
  }

  lemma HoldInv(l: Lock, t: nat)
    requires Inv(l) && t < |l.pcs| && (l.pcs[t].Got? || l.pcs[t].Held? || l.pcs[t].Dropping?)
    ensures Inv(Advance(l, t))
  {
    hide Queue; hide Exclusive;
    WaitersExist(l);
    OthersShallow(l, t);
    assert l.repeat == 0;
    var r := Advance(l, t);
    assert l.pcs[t].Held? ==> r.depth[t] == 1;
    KeepQueue(l, r, t);
    KeepExclusive(l, r, t);
    assert Counted(r);
  }

  lemma PopQueue(l: Lock, t: nat)
    requires Inv(l) && t < |l.pcs| && l.pcs[t].Unlocking? && !MutexUnlock(l, t).failed
    ensures Queue(MutexUnlock(l, t))
  {
    hide Counted; hide Exclusive; hide Awake;
    var r, n := MutexUnlock(l, t), |l.waiters|;
    if n > 0 {
      forall u | 0 <= u < |r.pcs| && r.pcs[u].Blocked? ensures u in r.waiters {
        var i :| 0 <= i < n && l.waiters[i] == u;
        assert i < n - 1;
        assert r.waiters[i] == u;
      }
    }
  }

  lemma MutexUnlockInv(l: Lock, t: nat)
    requires Inv(l) && t < |l.pcs| && l.pcs[t].Unlocking?
    ensures Inv(MutexUnlock(l, t))
  {
    hide Exclusive; hide Counted; hide Awake; hide MutexUnlock;
    hide Queue;
    UnlockSized(l, t);
    PopQueue(l, t);
    UnlockExclusive(l, t);
    UnlockCounted(l, t);
    UnlockAwake(l, t);
  }

  lemma UnlockSized(l: Lock, t: nat)
    requires Inv(l) && t < |l.pcs| && l.pcs[t].Unlocking?
    ensures forall i | 0 <= i < |l.waiters| :: l.waiters[i] < |l.pcs|
    ensures var r := MutexUnlock(l, t);
            Sized(r) && |r.pcs| == |l.pcs| && !r.value && r.depth == l.depth && r.holder == l.holder
              && r.repeat == l.repeat && r.pcs[t].Out?
    ensures forall u | 0 <= u < |l.pcs| && u != t ::
              MutexUnlock(l, t).pcs[u] == l.pcs[u] || (l.pcs[u].Blocked? && MutexUnlock(l, t).pcs[u].Woken?)
  {
    hide Counted; hide Awake;
    assert Inside(l, t);
  }

  lemma UnlockExclusive(l: Lock, t: nat)
    requires Inv(l) && t < |l.pcs| && l.pcs[t].Unlocking? && forall i | 0 <= i < |l.waiters| :: l.waiters[i] < |l.pcs|
    ensures Sized(MutexUnlock(l, t)) && Exclusive(MutexUnlock(l, t))
  {
    hide Queue; hide Awake; hide MutexUnlock;
    UnlockSized(l, t);
    var r := MutexUnlock(l, t);
    OthersInside(l, r, t);
    assert Inside(l, t);
    OthersShallow(l, t);
    assert forall u | 0 <= u < |l.pcs| :: !Inside(r, u);
  }

  lemma UnlockCounted(l: Lock, t: nat)
    requires Inv(l) && t < |l.pcs| && l.pcs[t].Unlocking? && forall i | 0 <= i < |l.waiters| :: l.waiters[i] < |l.pcs|
    ensures Sized(MutexUnlock(l, t)) && Counted(MutexUnlock(l, t))
  {
    hide Queue; hide Awake; hide MutexUnlock; hide Exclusive;
    UnlockSized(l, t);
  }

  lemma UnlockAwake(l: Lock, t: nat)
    requires Inv(l) && t < |l.pcs| && l.pcs[t].Unlocking? && forall i | 0 <= i < |l.waiters| :: l.waiters[i] < |l.pcs|
    ensures Awake(MutexUnlock(l, t))
  {
    hide Counted; hide Exclusive;
    var n := |l.waiters|;
    if n > 0 {
      assert MutexUnlock(l, t).pcs[l.waiters[n - 1]].Woken?;
    }
  }

  // ---- runs ----

  /** The count is a 32-bit word. */
  predicate Permitted(l: Lock, a: Action)
    requires Inv(l)
  {
    a.DoLock? && a.t < |l.pcs| && l.pcs[a.t].Out? ==> l.depth[a.t] + 1 < TWO32
  }

  lemma ApplyInv(l: Lock, a: Action)
    requires Inv(l) && Permitted(l, a)
    ensures Inv(Apply(l, a))
  {
    hide Queue; hide Exclusive; hide Counted; hide Awake; hide MutexLock; hide MutexUnlock; hide CallLock;
    hide CallUnlock;
    WaitersExist(l);
    if a.t < |l.pcs| {
      match a
      case DoLock(t) =>
        if l.pcs[t].Out? {
          CallLockInv(l, t);
        }
      case DoUnlock(t) =>
        if l.pcs[t].Out? && l.depth[t] > 0 {
          CallUnlockInv(l, t);
        }
      case Continue(t) =>
        match l.pcs[t] {
          case Wanting => LockPassInv(l, t);
          case Woken => LockPassInv(l, t);
          case Unlocking => MutexUnlockInv(l, t);
          case Got => HoldInv(l, t);
          case Held => HoldInv(l, t);
          case Dropping => HoldInv(l, t);
          case _ =>
        }
    }
  }

  lemma LockPassInv(l: Lock, t: nat)
    requires Inv(l) && t < |l.pcs| && (l.pcs[t].Wanting? || l.pcs[t].Woken?)
    ensures Inv(MutexLock(l, t))
  {
    hide Queue; hide Exclusive; hide Counted; hide Awake; hide MutexLock;
    if l.value {
      PushInv(l, t);
    } else {
      TakeInv(l, t);
    }
  }

  function Start(tasks: nat): Lock {
    var zeros := seq(tasks, i => 0);
    Lock(false, [], Nobody, 0, seq(tasks, i => Out), zeros, zeros, 0, false)
  }

  lemma StartInv(tasks: nat)
    ensures Inv(Start(tasks))
  {
  }

  ghost predicate Balanced(l: Lock, run: seq<Action>)
    requires Inv(l)
    decreases |run|
  {
    run == [] || (Permitted(l, run[0]) && (ApplyInv(l, run[0]); Balanced(Apply(l, run[0]), run[1..])))
  }

  ghost function Run(l: Lock, run: seq<Action>): (r: Lock)
    requires Inv(l) && Balanced(l, run)
    ensures Inv(r)
    decreases |run|
  {
    if run == [] then l else
      ApplyInv(l, run[0]);
      Run(Apply(l, run[0]), run[1..])
  }

  /** In every reachable state at most one task has locked, the count is its number of unmatched calls, no assertion
      has failed, and nobody waits for a free lock unless a woken task is about to look at it. */
  lemma Reachable(tasks: nat, run: seq<Action>)
    requires Inv(Start(tasks)) && Balanced(Start(tasks), run)
    ensures var l := Run(Start(tasks), run);
            !l.failed && |l.pcs| == |l.depth|
            && (forall t, u | 0 <= t < |l.pcs| && 0 <= u < |l.pcs| && l.depth[t] > 0 && l.depth[u] > 0 :: t == u)
            && (forall t | 0 <= t < |l.pcs| && l.depth[t] > 0 :: l.holder == By(t) && l.repeat == l.depth[t])
            && (l.waiters != [] ==> l.value || exists t :: 0 <= t < |l.pcs| && l.pcs[t].Woken?)
  {
    hide Run; hide Queue;
    var l := Run(Start(tasks), run);
    assert forall t | 0 <= t < |l.pcs| && l.depth[t] > 0 :: Inside(l, t);
  }

  /** A nested lock keeps the invariant exactly while the count does not wrap. */
  lemma NestingExact(l: Lock, t: nat)
    requires Inv(l) && t < |l.pcs| && l.pcs[t].Out? && l.holder == By(t)
    ensures Inv(CallLock(l, t)) <==> l.depth[t] + 1 < TWO32
  {
    if l.depth[t] + 1 < TWO32 {
      CallLockInv(l, t);
    } else {
      assert CallLock(l, t).repeat == 0 && CallLock(l, t).depth[t] == TWO32;
    }
  }

  /** Unlocking wakes the task that has waited longest. */
  lemma LongestWaiterFirst(l: Lock, t: nat)
    requires Inv(l) && t < |l.pcs| && l.pcs[t].Unlocking? && l.waiters != []
    ensures forall i | 0 <= i < |l.waiters| :: l.waiters[i] < |l.pcs|
    ensures exists w :: 0 <= w < |l.pcs| && l.pcs[w].Blocked? && MutexUnlock(l, t).pcs[w].Woken?
              && forall u | 0 <= u < |l.pcs| && l.pcs[u].Blocked? :: l.arrived[w] <= l.arrived[u]
  {
    hide Exclusive; hide Counted; hide Awake;
    var w := l.waiters[|l.waiters| - 1];
    assert w != t && MutexUnlock(l, t).pcs[w].Woken?;
    forall u | 0 <= u < |l.pcs| && l.pcs[u].Blocked? ensures l.arrived[w] <= l.arrived[u] {
      var i :| 0 <= i < |l.waiters| && l.waiters[i] == u;
    }
  }

  /** Whenever a task is blocked, some other task can move on or has still to unlock. */
  lemma SomebodyMoves(l: Lock, t: nat)
    requires Inv(l) && t < |l.pcs| && l.pcs[t].Blocked?
    ensures exists u :: 0 <= u < |l.pcs| && !l.pcs[u].Blocked? && (l.pcs[u].Out? ==> l.depth[u] > 0)
  {
    hide Counted;
    assert l.waiters != [];
    if l.value {
      var u :| 0 <= u < |l.pcs| && Inside(l, u);
    } else {
      var u :| 0 <= u < |l.pcs| && l.pcs[u].Woken?;
    }
  }

  // ---- the kernel objects ----

  /** mutex_t: the critical sections with interrupts off. `current` is the running task. */
  class Mutex {
    var value: bool
    var waiters: seq<nat>

    constructor ()
      ensures !value && waiters == []
    {
      value, waiters := false, [];
    }

    /** One turn of the loop in mutex_lock: blocked, or through with the mutex taken. */
    method LockPass(current: nat) returns (blocked: bool)
      modifies this
      ensures blocked == old(value) && value
      ensures waiters == if blocked then [current] + old(waiters) else old(waiters)
    {
      if value {
        waiters := [current] + waiters;
        return true;
      }
      value := true;
      return false;
    }

    /** mutex_unlock; Nobody if there is no waiter to wake. */
    method Unlock() returns (woken: Holder)
      requires value
      modifies this
      ensures !value
      ensures old(waiters) == [] ==> woken.Nobody? && waiters == []
      ensures old(waiters) != [] ==> woken.By? && waiters + [woken.task] == old(waiters)
    {
      value := false;
      if waiters == [] {
        return Nobody;
      }
      var n := |waiters| - 1;
      woken := By(waiters[n]);
      waiters := waiters[..n];
    }
  }

  /** reentrantlock_t together with the places of the tasks that use it. */
  class ReentrantLock {
    const mutex: Mutex
    var holder: Holder
    var repeat: nat
    var pcs: seq<Pc>
    ghost var depth: seq<nat>
    ghost var arrived: seq<nat>
    ghost var clock: nat

    ghost function Abs(): Lock
      reads this, mutex
    {
      Lock(mutex.value, mutex.waiters, holder, repeat, pcs, depth, arrived, clock, false)
    }

    ghost predicate Valid()
      reads this, mutex
    {
      Inv(Abs())
    }

    constructor (tasks: nat)
      ensures Valid() && fresh(mutex) && Abs() == Start(tasks)
    {
      mutex := new Mutex();
      holder, repeat := Nobody, 0;
      pcs := seq(tasks, i => Out);
      depth, arrived, clock := seq(tasks, i => 0), seq(tasks, i => 0), 0;
      new;
      StartInv(tasks);
    }

    method EnterLock(current: nat)
      requires Valid() && current < |pcs| && pcs[current].Out?
      modifies this
      ensures |old(Abs()).depth| == |old(Abs()).pcs| && Abs() == CallLock(old(Abs()), current)
      ensures old(depth)[current] + 1 < TWO32 ==> Valid()
    {
      hide Exclusive; hide Queue; hide Counted; hide Awake;
      if depth[current] + 1 < TWO32 {
        CallLockInv(Abs(), current);
      }
      if holder != By(current) {
        pcs := pcs[current := Wanting];
      } else {
        depth := depth[current := depth[current] + 1];
        repeat := (repeat + 1) % TWO32;
      }
    }

    method EnterUnlock(current: nat)
      requires Valid() && current < |pcs| && pcs[current].Out? && depth[current] > 0
      modifies this
      ensures Valid() && Abs() == CallUnlock(old(Abs()), current)
    {
      CallUnlockInv(Abs(), current);
      assert holder == By(current) && repeat > 0;
      depth := depth[current := depth[current] - 1];
      repeat := repeat - 1;
      if repeat == 0 {
        pcs := pcs[current := Dropping];
      }
    }

    /** The next step of a task inside reentrant_lock or reentrant_unlock, with the source's assertions. */
    method Proceed(current: nat)
      requires Valid() && current < |pcs|
      modifies this, mutex
      ensures Valid() && |old(pcs)| == |old(depth)| == |old(arrived)|
      ensures (forall i | 0 <= i < |old(mutex.waiters)| :: old(mutex.waiters)[i] < |old(pcs)|)
              && Abs() == Advance(old(Abs()), current)
    {
      hide Inv; hide Exclusive; hide Queue; hide Counted; hide Awake; hide MutexLock;
      WaitersExist(Abs());
      ApplyInv(Abs(), Continue(current));
      Asserts(Abs(), current);
      match pcs[current] {
        case Wanting => LockSection(current);
        case Woken => LockSection(current);
        case Got =>
          holder := By(current);
          pcs := pcs[current := Held];
        case Held =>
          assert repeat == 0;
          repeat := 1;
          depth := depth[current := depth[current] + 1];
          pcs := pcs[current := Out];
        case Dropping =>
          holder := Nobody;
          pcs := pcs[current := Unlocking];
        case Unlocking =>
          assert mutex.value;
          var woken := mutex.Unlock();
          pcs := pcs[current := Out];
          if woken.By? {
            pcs := pcs[woken.task := Woken];
          }
        case _ =>
      }
    }

    /** mutex_lock's section: the blocked task notes when it came. */
    method LockSection(current: nat)
      requires current < |pcs| == |arrived|
      modifies this, mutex
      ensures Abs() == MutexLock(old(Abs()), current)
    {
      var blocked := mutex.LockPass(current);
      if blocked {
        pcs := pcs[current := Blocked];
        arrived := arrived[current := clock];
        clock := clock + 1;
      } else {
        pcs := pcs[current := Got];
      }
    }

    lemma Asserts(l: Lock, t: nat)
      requires Inv(l) && t < |l.pcs|
      ensures |l.pcs| == |l.depth| == |l.arrived|
      ensures l.pcs[t].Held? ==> l.repeat == 0
      ensures l.pcs[t].Unlocking? ==> l.value
    {
      if l.pcs[t].Held? || l.pcs[t].Unlocking? {
        assert Inside(l, t);
        OthersShallow(l, t);
      }
    }
  }
}
