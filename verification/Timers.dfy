/** Bochs virtual time (bochs/bochs-2.6.11/pc_system.cc): one 32-bit countdown multiplexes the 64-bit deadlines
    of up to 64 timers. The naive machine beside it advances one tick at a time and fires what is due. */
module Timers {
  const MAX_TIMERS: nat := 64
  const NULL_INTERVAL: nat := 0xffff_ffff
  const TWO32: nat := 0x1_0000_0000
  const TWO63: nat := 0x8000_0000_0000_0000
  const TWO64: nat := 0x1_0000_0000_0000_0000
  const MAX_BIT64S: nat := 0x7fff_ffff_ffff_ffff

  datatype Timer = Timer(inUse: bool, period: nat, timeToFire: nat, active: bool, continuous: bool, callback: bool)
  datatype Firing = Firing(timer: nat, time: nat)
  datatype Op = Activate(i: nat, ticks: nat, continuous: bool) | Deactivate(i: nat)

  /** What the callbacks do: which timers they arm and disarm, given everything that has fired so far
      (the firing being served is the last one). */
  type Handler = seq<Firing> -> seq<Op>

  datatype Clock = Clock(timers: seq<Timer>, num: nat, total: nat, period: nat, countdown: nat, log: seq<Firing>)

  function Wrap64(x: nat): (r: nat) {
    x % TWO64
  }

  /** time_ticks. */
  function Now(c: Clock): nat
    requires c.countdown <= c.period
  {
    c.total + (c.period - c.countdown)
  }

  // ---- arming ----

  /** MinAllowableTimerPeriod. */
  function AtLeastOne(ticks: nat): nat {
    if ticks < 1 then 1 else ticks
  }

  /** Installs `t` in slot `i`; when it is active, the countdown is shortened if `ticks` come before its end. */
  function Install(c: Clock, i: nat, t: Timer, ticks: nat): Clock
    requires i < |c.timers| && c.countdown <= c.period
  {
    var d := c.(timers := c.timers[i := t]);
    if t.active && ticks < c.countdown then d.(period := c.period - (c.countdown - ticks), countdown := ticks) else d
  }

  function ActivateTimer(c: Clock, i: nat, ticks0: nat, continuous: bool): Clock
    requires i < |c.timers| && c.countdown <= c.period
  {
    var ticks := AtLeastOne(ticks0);
    Install(c, i, c.timers[i].(period := ticks, timeToFire := Wrap64(Now(c) + ticks), active := true,
      continuous := continuous), ticks)
  }

  function DeactivateTimer(c: Clock, i: nat): Clock
    requires i < |c.timers|
  {
    c.(timers := c.timers[i := c.timers[i].(active := false)])
  }

  /** The search loop of register_timer_ticks: the first slot from `i` not in use, or `num`. */
  function FreeSlot(timers: seq<Timer>, num: nat, i: nat): (r: nat)
    requires i <= num <= |timers|
    ensures i <= r <= num
    ensures r < num ==> !timers[r].inUse
    ensures forall j | i <= j < r :: timers[j].inUse
    decreases num - i
  {
    if i == num || !timers[i].inUse then i else FreeSlot(timers, num, i + 1)
  }

  datatype Registered = Full | Slot(timer: nat)

  function NewTimer(now: nat, ticks: nat, continuous: bool, active: bool): Timer {
    Timer(true, ticks, Wrap64(now + ticks), active, continuous, true)
  }

  /** register_timer_ticks: the new clock and the timer's number, or Full (-1) when 64 are registered. */
  function RegisterTimer(c: Clock, ticks0: nat, continuous: bool, active: bool): (Clock, Registered)
    requires |c.timers| == MAX_TIMERS && 1 <= c.num <= MAX_TIMERS && c.countdown <= c.period
  {
    var ticks := AtLeastOne(ticks0);
    var i := FreeSlot(c.timers, c.num, 1);
    if c.num >= MAX_TIMERS then (c, Full)
    else
      var d := Install(c, i, NewTimer(Now(c), ticks, continuous, active), ticks);
      (if i == c.num then d.(num := c.num + 1) else d, Slot(i))
  }

  /** unregisterTimer: refused while the timer is active. */
  function UnregisterTimer(c: Clock, i: nat): (Clock, bool)
    requires 1 <= i < c.num <= |c.timers|
  {
    if c.timers[i].active then (c, false)
    else
      (c.(timers := c.timers[i := Timer(false, MAX_BIT64S, MAX_BIT64S, false, false, false)],
          num := if i == c.num - 1 then c.num - 1 else c.num), true)
  }

  // ---- one countdown event ----

  predicate Due(t: Timer, time: nat) {
    t.active && t.timeToFire == time
  }

  /** A timer after the sweep at `time`: due one-shots stop, due continuous timers move on by their period. */
  function Swept(t: Timer, time: nat): Timer {
    if !Due(t, time) then t
    else if t.continuous then t.(timeToFire := Wrap64(t.timeToFire + t.period))
    else t.(active := false)
  }

  function Sweep(timers: seq<Timer>, num: nat, time: nat): (r: seq<Timer>)
    requires num <= |timers|
    ensures |r| == |timers|
    ensures forall i | 0 <= i < |timers| :: r[i] == if i < num then Swept(timers[i], time) else timers[i]
  {
    seq(|timers|, i requires 0 <= i < |timers| => if i < num then Swept(timers[i], time) else timers[i])
  }

  /** minTimeToFire over the first `k` timers. */
  function MinToFire(timers: seq<Timer>, k: nat): (m: nat)
    requires k <= |timers|
    ensures m <= TWO64 - 1
  {
    if k == 0 then TWO64 - 1
    else
      var m := MinToFire(timers, k - 1);
      if timers[k - 1].active && timers[k - 1].timeToFire < m then timers[k - 1].timeToFire else m
  }

  /** MinToFire is the least active deadline: below every one of them, and above any bound they all exceed. */
  lemma {:induction false} MinIsLeast(timers: seq<Timer>, k: nat, bound: nat)
    requires k <= |timers| && bound < TWO64 - 1
    requires forall i | 0 <= i < k && timers[i].active :: bound < timers[i].timeToFire
    ensures bound < MinToFire(timers, k)
    ensures forall i | 0 <= i < k && timers[i].active :: MinToFire(timers, k) <= timers[i].timeToFire
    decreases k
  {
    if k > 0 {
      MinIsLeast(timers, k - 1, bound);
    }
  }

  /** The subtraction and narrowing to Bit32u at the end of the sweep. */
  function Narrow(min: nat, time: nat): nat {
    (if min >= time then min - time else TWO64 + min - time) % TWO32
  }

  lemma NarrowExact(min: nat, time: nat)
    requires time <= min < time + TWO32
    ensures Narrow(min, time) == min - time
  {
  }

  /** Activate and deactivate calls made by a callback; a call on slot 0 or beyond the last timer is not made. */
  function ApplyOp(c: Clock, op: Op): Clock
    requires c.num <= |c.timers| && c.countdown <= c.period
  {
    if !(1 <= op.i < c.num) then c
    else
      match op
      case Activate(i, ticks, continuous) => ActivateTimer(c, i, ticks, continuous)
      case Deactivate(i) => DeactivateTimer(c, i)
  }

  ghost predicate Sized(c: Clock) {
    |c.timers| == MAX_TIMERS && 1 <= c.num <= MAX_TIMERS && c.countdown <= c.period
  }

  function ApplyOps(c: Clock, ops: seq<Op>): (r: Clock)
    requires Sized(c)
    ensures Sized(r) && r.num == c.num && r.log == c.log
    decreases |ops|
  {
    if ops == [] then c else ApplyOp(ApplyOps(c, ops[..|ops| - 1]), ops[|ops| - 1])
  }

  /** The second loop of countdownEvent, over the first `k` timers. */
  function Callbacks(h: Handler, c: Clock, triggered: seq<bool>, time: nat, k: nat): (r: Clock)
    requires Sized(c) && k <= |triggered| <= c.num
    ensures Sized(r) && r.num == c.num
    decreases k
  {
    if k == 0 then c
    else
      var d := Callbacks(h, c, triggered, time, k - 1);
      if triggered[k - 1] && d.timers[k - 1].callback then
        var log := d.log + [Firing(k - 1, time)];
        ApplyOps(d.(log := log), h(log))
      else d
  }

  function Triggered(timers: seq<Timer>, num: nat, time: nat): (r: seq<bool>)
    requires num <= |timers|
    ensures |r| == num && forall i | 0 <= i < num :: r[i] == Due(timers[i], time)
  {
    seq(num, i requires 0 <= i < num => Due(timers[i], time))
  }

  /** countdownEvent up to the callbacks: advance, sweep, and start the next countdown. */
  function Advance(c: Clock): Clock
    requires c.num <= |c.timers|
  {
    var time := c.total + c.period;
    var timers := Sweep(c.timers, c.num, time);
    var min := MinToFire(timers, c.num);
    Clock(timers, c.num, time, Narrow(min, time), Narrow(min, time), c.log)
  }

  function Event(h: Handler, c: Clock): (r: Clock)
    requires |c.timers| == MAX_TIMERS && 1 <= c.num <= MAX_TIMERS
    ensures Sized(r) && r.num == c.num
  {
    var time := c.total + c.period;
    Callbacks(h, Advance(c), Triggered(c.timers, c.num, time), time, c.num)
  }

  function Tick1(h: Handler, c: Clock): (r: Clock)
    requires Sized(c) && c.countdown > 0
    ensures Sized(r) && r.num == c.num
  {
    if c.countdown == 1 then Event(h, c.(countdown := 0)) else c.(countdown := c.countdown - 1)
  }

  // ---- the invariant ----

  /** The null timer guards the 32-bit countdown, the countdown is running, and no active deadline lies before its
      end. */
  ghost predicate Inv(c: Clock) {
    && Sized(c)
    && 0 < c.countdown && c.period <= NULL_INTERVAL
    && c.timers[0].active && c.timers[0].continuous && c.timers[0].period == NULL_INTERVAL
    && c.timers[0].timeToFire <= c.total + NULL_INTERVAL
    && (forall i | 0 <= i < c.num && c.timers[i].active :: c.total + c.period <= c.timers[i].timeToFire < TWO64)
    && (forall i | 0 <= i < c.num && c.timers[i].active :: 1 <= c.timers[i].period < TWO64)
  }

  /** Between events every active timer is still to come. */
  lemma Punctual(c: Clock)
    requires Inv(c)
    ensures forall i | 0 <= i < c.num && c.timers[i].active :: Now(c) < c.timers[i].timeToFire
  {
  }

  lemma InvSized(c: Clock)
    requires Inv(c)
    ensures Sized(c) && c.countdown > 0 && Now(c) + c.countdown == c.total + c.period
  {
  }

  // ---- exactly when a deadline can be set ----

  /** Arming timer `i` keeps the invariant exactly when its deadline fits 64 bits. */
  lemma ArmExact(c: Clock, i: nat, ticks: nat, continuous: bool)
    requires Inv(c) && 1 <= i < c.num && ticks < TWO64
    ensures Inv(ActivateTimer(c, i, ticks, continuous)) <==> Now(c) + AtLeastOne(ticks) < TWO64
  {
    var d := ActivateTimer(c, i, ticks, continuous);
    assert d.timers[0] == c.timers[0];
    assert d.timers[i].active;
    assert Now(c) < c.timers[0].timeToFire;
    if Now(c) + AtLeastOne(ticks) < TWO64 {
      assert d.timers[i].timeToFire == Now(c) + AtLeastOne(ticks);
    } else {
      assert d.timers[i].timeToFire == Now(c) + AtLeastOne(ticks) - TWO64;
    }
  }

  /** A miss at arming: at tick 1, arming for 2^64 - 1 ticks yields the deadline 0, which has passed. */
  lemma ArmMisses(c: Clock, i: nat)
    requires Inv(c) && 1 <= i < c.num && Now(c) == 1
    ensures var d := ActivateTimer(c, i, TWO64 - 1, false);
            d.timers[i].active && d.timers[i].timeToFire == 0 < Now(d)
  {
  }

  /** Every continuous timer that the coming event serves can be moved on by its period within 64 bits. */
  ghost predicate Rearms(c: Clock)
    requires c.num <= |c.timers|
  {
    forall i | 0 <= i < c.num && Due(c.timers[i], c.total + c.period) && c.timers[i].continuous ::
      c.timers[i].timeToFire + c.timers[i].period < TWO64
  }

  /** A miss at re-arming: at tick 1 a continuous timer can be armed for 3 * 2^62 ticks, and when it fires its
      next deadline wraps to 2^63 + 1, which has passed. */
  lemma RearmMisses(c: Clock, i: nat)
    requires Inv(c) && 1 <= i < c.num && Now(c) == 1
    ensures var d := ActivateTimer(c, i, 0xC000_0000_0000_0000, true);
            var t := d.timers[i];
            Inv(d) && Due(t, t.timeToFire) && Swept(t, t.timeToFire).active
            && Swept(t, t.timeToFire).timeToFire == TWO63 + 1 < t.timeToFire
  {
    ArmExact(c, i, 0xC000_0000_0000_0000, true);
  }

  lemma SweptAhead(c: Clock, i: nat)
    requires Inv(c) && i < c.num
    ensures var time := c.total + c.period;
            var t := Swept(c.timers[i], time);
            var fits := Due(c.timers[i], time) && c.timers[i].continuous ==>
              c.timers[i].timeToFire + c.timers[i].period < TWO64;
            (t.active && fits ==> time < t.timeToFire < TWO64 && 1 <= t.period < TWO64)
            && (!fits ==> t.active && t.timeToFire < time)
  {
  }

  lemma SweepNull(c: Clock)
    requires Inv(c) && Rearms(c)
    ensures var t := Swept(c.timers[0], c.total + c.period);
            t.active && t.continuous && t.period == NULL_INTERVAL && t.timeToFire <= c.total + c.period + NULL_INTERVAL
  {
  }

  /** The narrowing to 32 bits is exact and the new countdown positive: the null timer is never more than
      0xffffffff ticks away, and nothing else is due. */
  lemma NarrowingExact(c: Clock)
    requires Inv(c) && Rearms(c)
    ensures var time := c.total + c.period;
            var min := MinToFire(Sweep(c.timers, c.num, time), c.num);
            time < min <= time + NULL_INTERVAL && Advance(c).countdown == Advance(c).period == min - time
  {
    hide Inv; hide Swept; hide Sweep; hide MinToFire; hide Narrow; hide Due;
    var time := c.total + c.period;
    InvSized(c);
    var timers := Sweep(c.timers, c.num, time);
    SweepNull(c);
    forall i | 0 <= i < c.num && timers[i].active ensures time < timers[i].timeToFire {
      SweptAhead(c, i);
    }
    assert timers[0] == Swept(c.timers[0], time);
    NullAhead(c);
    MinIsLeast(timers, c.num, time);
    NarrowExact(MinToFire(timers, c.num), time);
  }

  lemma NullAhead(c: Clock)
    requires Inv(c) && Rearms(c)
    ensures c.total + c.period < Swept(c.timers[0], c.total + c.period).timeToFire < TWO64
  {
    SweptAhead(c, 0);
    SweepNull(c);
  }

  /** Every active deadline after the sweep is ahead. */
  lemma AdvanceAhead(c: Clock, i: nat)
    requires Inv(c) && Rearms(c) && i < c.num
    ensures |Advance(c).timers| == |c.timers| && Advance(c).num == c.num
    ensures var t := Advance(c).timers[i];
            t.active ==> Advance(c).total + Advance(c).period <= t.timeToFire < TWO64 && 1 <= t.period < TWO64
  {
    hide Swept; hide MinToFire; hide Narrow; hide Due;
    var time := c.total + c.period;
    var timers := Sweep(c.timers, c.num, time);
    NarrowingExact(c);
    NullAhead(c);
    SweptAhead(c, i);
    forall j | 0 <= j < c.num && timers[j].active ensures time < timers[j].timeToFire {
      SweptAhead(c, j);
    }
    MinIsLeast(timers, c.num, time);
  }

  lemma AdvanceInv(c: Clock)
    requires Inv(c) && Rearms(c)
    ensures Inv(Advance(c)) && Now(Advance(c)) == c.total + c.period
  {
    hide Swept; hide MinToFire; hide Narrow; hide Due;
    InvSized(c);
    NarrowingExact(c);
    SweepNull(c);
    var d := Advance(c);
    forall i | 0 <= i < c.num && d.timers[i].active
      ensures d.total + d.period <= d.timers[i].timeToFire < TWO64 && 1 <= d.timers[i].period < TWO64
    {
      AdvanceAhead(c, i);
    }
    assert d.timers[0] == Swept(c.timers[0], c.total + c.period);
  }

  /** The sweep of an event keeps the invariant exactly when no due continuous timer's next deadline wraps. */
  lemma AdvanceExact(c: Clock)
    requires Inv(c)
    ensures Inv(Advance(c)) <==> Rearms(c)
  {
    hide Swept; hide MinToFire; hide Narrow; hide Due;
    InvSized(c);
    if Rearms(c) {
      AdvanceInv(c);
    } else {
      var i :| 0 <= i < c.num && Due(c.timers[i], c.total + c.period) && c.timers[i].continuous
               && c.timers[i].timeToFire + c.timers[i].period >= TWO64;
      SweptAhead(c, i);
      assert Advance(c).timers[i] == Swept(c.timers[i], c.total + c.period);
    }
  }

  lemma AdvanceAt(c: Clock)
    requires c.num <= |c.timers|
    ensures Advance(c.(countdown := 0)) == Advance(c)
  {
    hide Sweep; hide MinToFire; hide Narrow;
  }

  // ---- callbacks ----

  /** A call that arms an existing timer sets a deadline that fits 64 bits. */
  predicate OpFits(now: nat, num: nat, op: Op) {
    op.Activate? && 1 <= op.i < num ==> op.ticks < TWO64 && now + AtLeastOne(op.ticks) < TWO64
  }

  /** Of a call with a 64-bit argument this is exactly when it keeps the invariant. */
  lemma OpExact(c: Clock, op: Op)
    requires Inv(c) && (op.Activate? ==> op.ticks < TWO64)
    ensures Inv(ApplyOp(c, op)) <==> OpFits(Now(c), c.num, op)
  {
    if op.Activate? && 1 <= op.i < c.num {
      ArmExact(c, op.i, op.ticks, op.continuous);
    }
  }

  lemma OpNow(c: Clock, op: Op)
    requires Sized(c)
    ensures Sized(ApplyOp(c, op)) && Now(ApplyOp(c, op)) == Now(c) && ApplyOp(c, op).num == c.num
  {
  }

  ghost predicate OpsFit(now: nat, num: nat, ops: seq<Op>) {
    forall op | op in ops :: OpFits(now, num, op)
  }

  lemma {:induction false} ApplyOpsInv(c: Clock, ops: seq<Op>)
    requires Inv(c) && OpsFit(Now(c), c.num, ops)
    ensures Inv(ApplyOps(c, ops)) && Now(ApplyOps(c, ops)) == Now(c)
    decreases |ops|
  {
    hide Inv; hide ApplyOp; hide OpFits; hide Now;
    InvSized(c);
    if ops != [] {
      var d := ApplyOps(c, ops[..|ops| - 1]);
      var op := ops[|ops| - 1];
      ApplyOpsInv(c, ops[..|ops| - 1]);
      assert OpFits(Now(d), d.num, op);
      OpKeeps(d, op);
    }
  }

  lemma OpKeeps(c: Clock, op: Op)
    requires Inv(c) && OpFits(Now(c), c.num, op)
    ensures Inv(ApplyOp(c, op)) && Now(ApplyOp(c, op)) == Now(c)
  {
    OpNow(c, op);
    if op.Activate? && 1 <= op.i < c.num {
      ArmExact(c, op.i, op.ticks, op.continuous);
    }
  }

  lemma LogFree(c: Clock, log: seq<Firing>)
    requires Inv(c)
    ensures Inv(c.(log := log)) && Now(c.(log := log)) == Now(c)
  {
  }

  /** Whatever the callbacks of the first `k` timers arm has a deadline that fits 64 bits. */
  ghost predicate CallbacksFit(h: Handler, c: Clock, triggered: seq<bool>, time: nat, k: nat)
    requires Sized(c) && k <= |triggered| <= c.num
    decreases k
  {
    k == 0 ||
    (CallbacksFit(h, c, triggered, time, k - 1)
     && var d := Callbacks(h, c, triggered, time, k - 1);
        (triggered[k - 1] && d.timers[k - 1].callback ==> OpsFit(time, d.num, h(d.log + [Firing(k - 1, time)]))))
  }

  lemma {:induction false} CallbacksInv(h: Handler, c: Clock, triggered: seq<bool>, time: nat, k: nat)
    requires Inv(c) && Now(c) == time && k <= |triggered| <= c.num && CallbacksFit(h, c, triggered, time, k)
    ensures Inv(Callbacks(h, c, triggered, time, k)) && Now(Callbacks(h, c, triggered, time, k)) == time
    decreases k
  {
    hide Inv; hide ApplyOps; hide OpsFit; hide Now;
    InvSized(c);
    if k > 0 {
      CallbacksInv(h, c, triggered, time, k - 1);
      var d := Callbacks(h, c, triggered, time, k - 1);
      var log := d.log + [Firing(k - 1, time)];
      LogFree(d, log);
      if triggered[k - 1] && d.timers[k - 1].callback {
        ApplyOpsInv(d.(log := log), h(log));
      }
    }
  }

  // ---- one event, one tick ----

  /** The state when the running countdown has ended and its event is over. */
  function NextEvent(h: Handler, c: Clock): Clock
    requires Inv(c)
  {
    Event(h, c.(countdown := 0))
  }

  /** Neither the sweep nor a callback of the coming event sets a deadline that wraps. */
  ghost predicate EventFits(h: Handler, c: Clock)
    requires Inv(c)
  {
    Rearms(c) && (AdvanceInv(c); InvSized(Advance(c));
                  CallbacksFit(h, Advance(c), Triggered(c.timers, c.num, c.total + c.period), c.total
                    + c.period, c.num))
  }

  lemma EventForm(h: Handler, c: Clock)
    requires Sized(c)
    ensures Event(h, c.(countdown := 0))
         == Callbacks(h, Advance(c), Triggered(c.timers, c.num, c.total + c.period), c.total + c.period, c.num)
  {
    hide Advance; hide Triggered; hide Callbacks;
    AdvanceAt(c);
  }

  /** Every event leaves a positive countdown and keeps the invariant. */
  lemma EventInv(h: Handler, c: Clock)
    requires Inv(c) && EventFits(h, c)
    ensures var d := NextEvent(h, c); Inv(d) && Now(d) == c.total + c.period
  {
    hide Inv; hide Callbacks; hide Triggered; hide Advance; hide CallbacksFit; hide Event; hide Now;
    InvSized(c);
    AdvanceInv(c);
    EventForm(h, c);
    CallbacksInv(h, Advance(c), Triggered(c.timers, c.num, c.total + c.period), c.total + c.period, c.num);
  }

  ghost predicate TickFits(h: Handler, c: Clock)
    requires Inv(c)
  {
    c.countdown == 1 ==> EventFits(h, c)
  }

  lemma Tick1Inv(h: Handler, c: Clock)
    requires Inv(c) && TickFits(h, c)
    ensures Inv(Tick1(h, c)) && Now(Tick1(h, c)) == Now(c) + 1
  {
    hide Event; hide EventFits;
    if c.countdown == 1 {
      EventInv(h, c);
    }
  }

  // ---- many ticks ----

  /** None of the next `n` ticks sets a deadline that wraps. */
  ghost predicate Fits(h: Handler, c: Clock, n: nat)
    requires Inv(c)
    decreases n
  {
    n == 0 || (TickFits(h, c) && (Tick1Inv(h, c); Fits(h, Tick1(h, c), n - 1)))
  }

  function Ticks(h: Handler, c: Clock, n: nat): (r: Clock)
    requires Inv(c) && Fits(h, c, n)
    ensures Inv(r) && Now(r) == Now(c) + n
    decreases n
  {
    hide Inv; hide Tick1; hide TickFits; hide Now;
    InvSized(c);
    if n == 0 then c
    else
      Tick1Inv(h, c);
      Ticks(h, Tick1(h, c), n - 1)
  }

  /** Ticks short of the countdown only decrement it. */
  lemma {:induction false} QuietTicks(h: Handler, c: Clock, n: nat)
    requires Inv(c) && n < c.countdown
    ensures Fits(h, c, n) && Ticks(h, c, n) == c.(countdown := c.countdown - n)
    decreases n
  {
    hide Inv; hide EventFits; hide Tick1;
    InvSized(c);
    if n > 0 {
      QuietStep(h, c);
      QuietTicks(h, Tick1(h, c), n - 1);
    }
  }

  lemma QuietStep(h: Handler, c: Clock)
    requires Inv(c) && c.countdown > 1
    ensures Tick1(h, c) == c.(countdown := c.countdown - 1) && Inv(Tick1(h, c))
  {
  }

  /** The first `a` of `a + b` ticks, then the other `b`. */
  lemma {:induction false} TicksJoin(h: Handler, c: Clock, a: nat, b: nat)
    requires Inv(c)
    ensures Fits(h, c, a + b) <==> Fits(h, c, a) && Fits(h, Ticks(h, c, a), b)
    ensures Fits(h, c, a + b) ==> Ticks(h, Ticks(h, c, a), b) == Ticks(h, c, a + b)
    decreases a
  {
    hide Inv; hide Tick1; hide TickFits;
    InvSized(c);
    if a > 0 && TickFits(h, c) {
      Tick1Inv(h, c);
      TicksJoin(h, Tick1(h, c), a - 1, b);
    }
  }

  lemma OneTick(h: Handler, c: Clock)
    requires Inv(c) && c.countdown == 1
    ensures Fits(h, c, 1) <==> EventFits(h, c)
    ensures Fits(h, c, 1) ==> Ticks(h, c, 1) == NextEvent(h, c)
  {
    hide Inv; hide Event; hide EventFits;
    InvSized(c);
    if EventFits(h, c) {
      Tick1Inv(h, c);
    }
  }

  lemma EventOnlyAtEnd(h: Handler, c: Clock, d: Clock)
    requires Inv(c) && Inv(d) && d == c.(countdown := d.countdown)
    ensures EventFits(h, c) <==> EventFits(h, d)
    ensures NextEvent(h, d) == NextEvent(h, c)
  {
    hide CallbacksFit; hide Callbacks; hide Triggered; hide Sweep; hide MinToFire; hide Narrow; hide Due;
    assert Advance(d) == Advance(c);
  }

  /** A whole countdown is one event. */
  lemma WholeCountdown(h: Handler, c: Clock)
    requires Inv(c)
    ensures Fits(h, c, c.countdown) <==> EventFits(h, c)
    ensures Fits(h, c, c.countdown) ==> Ticks(h, c, c.countdown) == NextEvent(h, c)
  {
    hide *;
    CountdownPositive(c);
    QuietTicks(h, c, c.countdown - 1);
    var d := Ticks(h, c, c.countdown - 1);
    TicksJoin(h, c, c.countdown - 1, 1);
    OneTick(h, d);
    EventOnlyAtEnd(h, c, d);
  }

  lemma CountdownPositive(c: Clock)
    requires Inv(c)
    ensures c.countdown > 0 && |c.timers| == MAX_TIMERS && 1 <= c.num <= MAX_TIMERS && c.countdown <= c.period
  {
  }

  /** A run of ticks that reaches the end of the countdown is its event and the remaining ticks. */
  lemma Countdowns(h: Handler, c: Clock, n: nat)
    requires Inv(c) && Fits(h, c, n) && n >= c.countdown
    ensures EventFits(h, c) && c.countdown > 0
    ensures var d := NextEvent(h, c);
            Inv(d) && Fits(h, d, n - c.countdown) && Ticks(h, c, n) == Ticks(h, d, n - c.countdown)
  {
    hide *;
    CountdownPositive(c);
    TicksJoin(h, c, c.countdown, n - c.countdown);
    WholeCountdown(h, c);
    EventInv(h, c);
  }

  /** tickn: whole countdowns first, then the rest. */
  function TickN(h: Handler, c: Clock, n: nat): (r: Clock)
    requires Inv(c) && Fits(h, c, n)
    ensures Inv(r) && r == Ticks(h, c, n)
    decreases n
  {
    hide Inv; hide NextEvent; hide EventFits; hide Fits; hide Ticks;
    if n >= c.countdown then
      Countdowns(h, c, n);
      TickN(h, NextEvent(h, c), n - c.countdown)
    else
      QuietTicks(h, c, n);
      c.(countdown := c.countdown - n)
  }

  lemma TickNStep(h: Handler, c: Clock, n: nat)
    requires Inv(c) && Fits(h, c, n) && n >= c.countdown
    ensures c.countdown > 0 && Inv(NextEvent(h, c)) && Fits(h, NextEvent(h, c), n - c.countdown)
    ensures TickN(h, c, n) == TickN(h, NextEvent(h, c), n - c.countdown)
  {
    hide Inv; hide NextEvent; hide EventFits; hide Fits; hide Ticks;
    Countdowns(h, c, n);
  }

  lemma TickNRest(h: Handler, c: Clock, n: nat)
    requires Inv(c) && Fits(h, c, n) && n < c.countdown
    ensures var d := c.(countdown := c.countdown - n); Inv(d) && TickN(h, c, n) == d
  {
    hide NextEvent; hide EventFits; hide Fits; hide Ticks;
  }

  /** When the countdown reaches zero no deadline has been passed. */
  lemma EventReady(c: Clock)
    requires Inv(c)
    ensures Sized(c.(countdown := 0)) && c.num <= |c.timers|
    ensures forall i | 0 <= i < c.num && c.timers[i].active :: c.total + c.period <= c.timers[i].timeToFire < TWO64
  {
  }

  /** tickn(a) then tickn(b) is tickn(a + b). */
  lemma TickNJoin(h: Handler, c: Clock, a: nat, b: nat)
    requires Inv(c) && Fits(h, c, a + b)
    ensures Fits(h, c, a) && Fits(h, TickN(h, c, a), b)
    ensures TickN(h, TickN(h, c, a), b) == TickN(h, c, a + b)
  {
    hide *;
    TicksJoin(h, c, a, b);
  }

  // ---- a condition that holds for 2^63 ticks ----

  /** Periods of at most 2^63 ticks. */
  ghost predicate Roomy(c: Clock) {
    c.num <= |c.timers| && forall i | 0 <= i < c.num && c.timers[i].active :: c.timers[i].period <= TWO63
  }

  /** The callbacks arm timers for at most 2^63 ticks. */
  ghost predicate Tame(h: Handler) {
    forall log, op | op in h(log) :: op.Activate? ==> op.ticks <= TWO63
  }

  lemma {:induction false} OpsRoomy(c: Clock, ops: seq<Op>)
    requires Sized(c) && Roomy(c) && forall op | op in ops :: op.Activate? ==> op.ticks <= TWO63
    ensures Roomy(ApplyOps(c, ops))
    decreases |ops|
  {
    if ops != [] {
      OpsRoomy(c, ops[..|ops| - 1]);
    }
  }

  lemma {:induction false} CallbacksRoomy(h: Handler, c: Clock, triggered: seq<bool>, time: nat, k: nat)
    requires Sized(c) && Roomy(c) && Tame(h) && k <= |triggered| <= c.num && time < TWO63
    ensures Roomy(Callbacks(h, c, triggered, time, k)) && CallbacksFit(h, c, triggered, time, k)
    decreases k
  {
    hide ApplyOps;
    if k > 0 {
      CallbacksRoomy(h, c, triggered, time, k - 1);
      var d := Callbacks(h, c, triggered, time, k - 1);
      var log := d.log + [Firing(k - 1, time)];
      OpsRoomy(d.(log := log), h(log));
    }
  }

  lemma EventRoomy(h: Handler, c: Clock)
    requires Inv(c) && Roomy(c) && Tame(h) && c.total + c.period < TWO63
    ensures EventFits(h, c) && Roomy(Event(h, c.(countdown := 0)))
  {
    hide Callbacks; hide CallbacksFit; hide Tame; hide MinToFire; hide Narrow;
    assert Rearms(c);
    AdvanceInv(c);
    EventForm(h, c);
    CallbacksRoomy(h, Advance(c), Triggered(c.timers, c.num, c.total + c.period), c.total + c.period, c.num);
  }

  /** Below 2^63 ticks, with no period above 2^63, no deadline wraps. */
  lemma {:induction false} FitsBelow(h: Handler, c: Clock, n: nat)
    requires Inv(c) && Roomy(c) && Tame(h) && Now(c) + n < TWO63
    ensures Fits(h, c, n)
    decreases n
  {
    hide Event; hide EventFits; hide Tame;
    if n > 0 {
      if c.countdown == 1 {
        EventRoomy(h, c);
      }
      Tick1Inv(h, c);
      FitsBelow(h, Tick1(h, c), n - 1);
    }
  }

  // ---- the naive machine ----

  /** Deadlines and a clock, nothing else. */
  datatype Naive = Naive(timers: seq<Timer>, num: nat, now: nat, log: seq<Firing>)

  function View(c: Clock): Naive
    requires c.countdown <= c.period
  {
    Naive(c.timers, c.num, Now(c), c.log)
  }

  function NaiveOp(s: Naive, op: Op): (r: Naive)
    requires s.num <= |s.timers|
    ensures r.num == s.num && |r.timers| == |s.timers| && r.now == s.now && r.log == s.log
    ensures forall i | 0 <= i < |s.timers| && i != op.i :: r.timers[i] == s.timers[i]
  {
    if !(1 <= op.i < s.num) then s
    else
      var t := s.timers[op.i];
      match op
      case Activate(i, ticks, continuous) =>
        s.(timers := s.timers[i := t.(period := AtLeastOne(ticks), timeToFire := Wrap64(s.now + AtLeastOne(ticks)),
          active := true, continuous := continuous)])
      case Deactivate(i) => s.(timers := s.timers[i := t.(active := false)])
  }

  function NaiveOps(s: Naive, ops: seq<Op>): (r: Naive)
    requires s.num <= |s.timers|
    ensures r.num == s.num && |r.timers| == |s.timers| && r.now == s.now && r.log == s.log
    decreases |ops|
  {
    if ops == [] then s else NaiveOp(NaiveOps(s, ops[..|ops| - 1]), ops[|ops| - 1])
  }

  function NaiveCallbacks(h: Handler, s: Naive, triggered: seq<bool>, k: nat): (r: Naive)
    requires k <= |triggered| <= s.num <= |s.timers|
    ensures r.num == s.num && |r.timers| == |s.timers| && r.now == s.now
    decreases k
  {
    if k == 0 then s
    else
      var d := NaiveCallbacks(h, s, triggered, k - 1);
      if triggered[k - 1] && d.timers[k - 1].callback then
        var log := d.log + [Firing(k - 1, s.now)];
        NaiveOps(d.(log := log), h(log))
      else d
  }

  /** One tick: the clock moves on, what is due is re-armed or stopped, then its callbacks run in order. */
  function NaiveTick(h: Handler, s: Naive): (r: Naive)
    requires s.num <= |s.timers|
    ensures r.num == s.num && |r.timers| == |s.timers| && r.now == s.now + 1
  {
    var now := s.now + 1;
    NaiveCallbacks(h, Naive(Sweep(s.timers, s.num, now), s.num, now, s.log), Triggered(s.timers, s.num, now), s.num)
  }

  lemma OpView(c: Clock, op: Op)
    requires Sized(c)
    ensures View(ApplyOp(c, op)) == NaiveOp(View(c), op)
  {
  }

  lemma {:induction false} OpsView(c: Clock, ops: seq<Op>)
    requires Sized(c)
    ensures View(ApplyOps(c, ops)) == NaiveOps(View(c), ops)
    decreases |ops|
  {
    hide ApplyOp; hide NaiveOp; hide View;
    if ops != [] {
      OpsView(c, ops[..|ops| - 1]);
      OpView(ApplyOps(c, ops[..|ops| - 1]), ops[|ops| - 1]);
    }
  }

  lemma ViewLog(c: Clock, log: seq<Firing>)
    requires c.countdown <= c.period
    ensures View(c.(log := log)) == View(c).(log := log)
    ensures View(c).timers == c.timers && View(c).log == c.log && View(c).num == c.num && View(c).now == Now(c)
  {
  }

  lemma {:induction false} CallbacksView(h: Handler, c: Clock, triggered: seq<bool>, k: nat)
    requires Sized(c) && k <= |triggered| <= c.num
    ensures View(Callbacks(h, c, triggered, Now(c), k)) == NaiveCallbacks(h, View(c), triggered, k)
    decreases k
  {
    hide ApplyOps; hide NaiveOps; hide View;
    if k > 0 {
      CallbacksView(h, c, triggered, k - 1);
      var d := Callbacks(h, c, triggered, Now(c), k - 1);
      ViewLog(d, d.log + [Firing(k - 1, Now(c))]);
      ViewLog(c, c.log);
      OpsView(d.(log := d.log + [Firing(k - 1, Now(c))]), h(d.log + [Firing(k - 1, Now(c))]));
    }
  }

  lemma {:induction false} NoneTriggered(h: Handler, s: Naive, triggered: seq<bool>, k: nat)
    requires k <= |triggered| <= s.num <= |s.timers| && forall i | 0 <= i < k :: !triggered[i]
    ensures NaiveCallbacks(h, s, triggered, k) == s
    decreases k
  {
    if k > 0 {
      NoneTriggered(h, s, triggered, k - 1);
    }
  }

  /** A tick with nothing due only moves the clock. */
  lemma QuietTick(h: Handler, s: Naive)
    requires s.num <= |s.timers| && forall i | 0 <= i < s.num :: !Due(s.timers[i], s.now + 1)
    ensures NaiveTick(h, s) == s.(now := s.now + 1)
  {
    assert Sweep(s.timers, s.num, s.now + 1) == s.timers;
    NoneTriggered(h, s.(now := s.now + 1), Triggered(s.timers, s.num, s.now + 1), s.num);
  }

  /** The countdown machine is the naive one: each tick1 is one naive tick, whatever the deadlines set in it. */
  lemma Tick1View(h: Handler, c: Clock)
    requires Inv(c)
    ensures View(Tick1(h, c)) == NaiveTick(h, View(c))
  {
    hide Event; hide NaiveTick;
    if c.countdown == 1 {
      EventView(h, c);
    } else {
      QuietTick(h, View(c));
    }
  }

  lemma EventView(h: Handler, c: Clock)
    requires Inv(c) && c.countdown == 1
    ensures |c.timers| == MAX_TIMERS && 1 <= c.num <= MAX_TIMERS
    ensures View(Event(h, c.(countdown := 0))) == NaiveTick(h, View(c))
  {
    hide Inv; hide Callbacks; hide NaiveCallbacks; hide Advance; hide Sweep; hide Triggered;
    InvSized(c);
    AdvanceView(c);
    EventForm(h, c);
    CallbacksView(h, Advance(c), Triggered(c.timers, c.num, c.total + c.period), c.num);
  }

  lemma AdvanceView(c: Clock)
    requires c.num <= |c.timers|
    ensures Advance(c).countdown == Advance(c).period && |Advance(c).timers| == |c.timers|
    ensures View(Advance(c)) == Naive(Sweep(c.timers, c.num, c.total + c.period), c.num, c.total + c.period, c.log)
    ensures Advance(c).num == c.num
  {
    hide Sweep; hide MinToFire; hide Narrow;
  }

  function NaiveTicks(h: Handler, s: Naive, n: nat): (r: Naive)
    requires s.num <= |s.timers|
    ensures r.num == s.num && |r.timers| == |s.timers| && r.now == s.now + n
    decreases n
  {
    if n == 0 then s else NaiveTick(h, NaiveTicks(h, s, n - 1))
  }

  lemma {:induction false} NaiveFront(h: Handler, s: Naive, n: nat)
    requires s.num <= |s.timers| && n > 0
    ensures NaiveTicks(h, s, n) == NaiveTicks(h, NaiveTick(h, s), n - 1)
    decreases n
  {
    hide NaiveTick;
    if n > 1 {
      NaiveFront(h, s, n - 1);
    }
  }

  lemma {:induction false} TicksView(h: Handler, c: Clock, n: nat)
    requires Inv(c) && Fits(h, c, n)
    ensures c.countdown <= c.period && c.num <= |c.timers|
    ensures View(Ticks(h, c, n)) == NaiveTicks(h, View(c), n)
    decreases n
  {
    hide Inv; hide View; hide NaiveTick; hide Tick1; hide TickFits;
    InvSized(c);
    ViewLog(c, c.log);
    if n > 0 {
      Tick1Inv(h, c);
      Tick1View(h, c);
      TicksView(h, Tick1(h, c), n - 1);
      NaiveFront(h, View(c), n);
    }
  }

  /** tickn is exact: after n ticks the timers and the ordered firing log are those of n naive ticks. */
  lemma TickNView(h: Handler, c: Clock, n: nat)
    requires Inv(c) && Fits(h, c, n)
    ensures c.countdown <= c.period && c.num <= |c.timers|
    ensures View(TickN(h, c, n)) == NaiveTicks(h, View(c), n)
  {
    hide *;
    TicksView(h, c, n);
  }

  // ---- what fires when ----

  /** The firings of one tick: the due timers below `k` that have a callback, in slot order. */
  function Firings(timers: seq<Timer>, time: nat, k: nat): seq<Firing>
    requires k <= |timers|
  {
    if k == 0 then []
    else Firings(timers, time, k - 1) + if Due(timers[k - 1], time) && timers[k - 1].callback then [Firing(k - 1, time)]
      else []
  }

  lemma {:induction false} OpsKeepCallbacks(s: Naive, ops: seq<Op>)
    requires s.num <= |s.timers|
    ensures forall i | 0 <= i < |s.timers| :: NaiveOps(s, ops).timers[i].callback == s.timers[i].callback
    decreases |ops|
  {
    if ops != [] {
      OpsKeepCallbacks(s, ops[..|ops| - 1]);
    }
  }

  lemma {:induction false} CallbacksLog(h: Handler, was: seq<Timer>, s: Naive, k: nat)
    requires k <= s.num <= |s.timers| == |was|
    requires forall i | 0 <= i < |was| :: s.timers[i].callback == was[i].callback
    ensures var r := NaiveCallbacks(h, s, Triggered(was, s.num, s.now), k);
            && r.log == s.log + Firings(was, s.now, k)
            && forall i | 0 <= i < |was| :: r.timers[i].callback == was[i].callback
    decreases k
  {
    hide NaiveOps;
    if k > 0 {
      CallbacksLog(h, was, s, k - 1);
      var d := NaiveCallbacks(h, s, Triggered(was, s.num, s.now), k - 1);
      var log := d.log + [Firing(k - 1, s.now)];
      OpsKeepCallbacks(d.(log := log), h(log));
    }
  }

  lemma SweepCallbacks(timers: seq<Timer>, num: nat, time: nat)
    requires num <= |timers|
    ensures forall i | 0 <= i < |timers| :: Sweep(timers, num, time)[i].callback == timers[i].callback
  {
  }

  /** A timer fires in the tick that reaches its deadline and in no other, in slot order. */
  lemma TickFires(h: Handler, s: Naive)
    requires s.num <= |s.timers|
    ensures NaiveTick(h, s).log == s.log + Firings(s.timers, s.now + 1, s.num)
  {
    hide NaiveCallbacks; hide Firings; hide Triggered; hide Due;
    var now := s.now + 1;
    SweepCallbacks(s.timers, s.num, now);
    CallbacksLog(h, s.timers, Naive(Sweep(s.timers, s.num, now), s.num, now, s.log), s.num);
  }

  /** The times at which timer `i` fired. */
  function Times(log: seq<Firing>, i: nat): seq<nat> {
    if log == [] then []
    else Times(log[..|log| - 1], i) + if log[|log| - 1].timer == i then [log[|log| - 1].time] else []
  }

  lemma TimesAppend(log: seq<Firing>, f: Firing, i: nat)
    ensures Times(log + [f], i) == Times(log, i) + if f.timer == i then [f.time] else []
  {
    var all := log + [f];
    assert all[..|all| - 1] == log;
  }

  lemma {:induction false} TimesOfFirings(log: seq<Firing>, timers: seq<Timer>, time: nat, k: nat, i: nat)
    requires k <= |timers|
    ensures Times(log + Firings(timers, time, k), i)
         == Times(log, i) + if i < k && Due(timers[i], time) && timers[i].callback then [time] else []
    decreases k
  {
    hide Times; hide Due;
    if k == 0 {
      assert log + Firings(timers, time, 0) == log;
    } else {
      TimesOfFirings(log, timers, time, k - 1, i);
      var front := log + Firings(timers, time, k - 1);
      if Due(timers[k - 1], time) && timers[k - 1].callback {
        TimesAppend(front, Firing(k - 1, time), i);
        assert log + Firings(timers, time, k) == front + [Firing(k - 1, time)];
      } else {
        assert log + Firings(timers, time, k) == front;
      }
    }
  }

  /** No callback touches timer `i`. */
  ghost predicate Untouched(h: Handler, i: nat) {
    forall log, op | op in h(log) :: op.i != i
  }

  lemma {:induction false} OpsElsewhere(s: Naive, ops: seq<Op>, i: nat)
    requires s.num <= |s.timers| && i < |s.timers| && forall op | op in ops :: op.i != i
    ensures NaiveOps(s, ops).timers[i] == s.timers[i]
    decreases |ops|
  {
    if ops != [] {
      OpsElsewhere(s, ops[..|ops| - 1], i);
    }
  }

  lemma {:induction false} CallbacksElsewhere(h: Handler, s: Naive, triggered: seq<bool>, k: nat, i: nat)
    requires k <= |triggered| <= s.num <= |s.timers| && i < |s.timers| && Untouched(h, i)
    ensures NaiveCallbacks(h, s, triggered, k).timers[i] == s.timers[i]
    decreases k
  {
    hide NaiveOps;
    if k > 0 {
      CallbacksElsewhere(h, s, triggered, k - 1, i);
      var d := NaiveCallbacks(h, s, triggered, k - 1);
      var log := d.log + [Firing(k - 1, s.now)];
      OpsElsewhere(d.(log := log), h(log), i);
    }
  }

  /** What one tick does to a timer the callbacks leave alone. */
  lemma TickOf(h: Handler, s: Naive, i: nat)
    requires i < s.num <= |s.timers| && Untouched(h, i)
    ensures NaiveTick(h, s).timers[i] == Swept(s.timers[i], s.now + 1)
    ensures Times(NaiveTick(h, s).log, i) == Times(s.log, i) + if Due(s.timers[i], s.now + 1)
            && s.timers[i].callback then [s.now + 1] else []
  {
    hide NaiveCallbacks; hide Swept;
    var now := s.now + 1;
    CallbacksElsewhere(h, Naive(Sweep(s.timers, s.num, now), s.num, now, s.log), Triggered(s.timers, s.num, now), s.num,
      i);
    TickFires(h, s);
    TimesOfFirings(s.log, s.timers, now, s.num, i);
  }

  /** Timer `t` has been re-armed `k` times since its times were `before`, and fired at each multiple of its period. */
  ghost predicate OnBeat(t: Timer, before: seq<nat>, u: Timer, times: seq<nat>, now: nat, k: nat) {
    && u == t.(timeToFire := t.timeToFire + k * t.period)
    && now < t.timeToFire + k * t.period
    && (k > 0 ==> t.timeToFire + (k - 1) * t.period <= now)
    && times == before + seq(k, j => t.timeToFire + j * t.period)
  }

  lemma BeatStep(t: Timer, before: seq<nat>, u: Timer, times: seq<nat>, now: nat, j: nat) returns (k: nat)
    requires t.active && t.continuous && t.callback && t.period >= 1 && OnBeat(t, before, u, times, now, j)
    requires now + 1 + t.period < TWO64
    ensures OnBeat(t, before, Swept(u, now + 1), times + if Due(u, now + 1) then [now + 1] else [], now + 1, k)
  {
    var d := t.timeToFire + j * t.period;
    assert (j + 1) * t.period == j * t.period + t.period;
    if Due(u, now + 1) {
      k := j + 1;
      if j > 0 {
        assert j * t.period == (j - 1) * t.period + t.period;
      } else {
        assert j * t.period == 0;
      }
      assert d == now + 1;
      assert seq(k, l => t.timeToFire + l * t.period) == seq(j, l => t.timeToFire + l * t.period) + [d];
    } else {
      k := j;
    }
  }

  /** A continuous timer fires at d, d + p, d + 2p, ...: at every such time up to now and at no other, without drift. */
  lemma {:induction false} NoDrift(h: Handler, s: Naive, i: nat, n: nat) returns (k: nat)
    requires i < s.num <= |s.timers| && Untouched(h, i)
    requires var t := s.timers[i]; t.active && t.continuous && t.callback && t.period >= 1 && s.now < t.timeToFire
                                   && s.now + n + t.period < TWO64
    ensures var r := NaiveTicks(h, s, n);
            OnBeat(s.timers[i], Times(s.log, i), r.timers[i], Times(r.log, i), s.now + n, k)
    decreases n
  {
    hide NaiveTick; hide Times; hide Untouched;
    var t := s.timers[i];
    if n == 0 {
      k := 0;
      assert t.timeToFire + 0 * t.period == t.timeToFire;
    } else {
      var j := NoDrift(h, s, i, n - 1);
      var r := NaiveTicks(h, s, n - 1);
      TickOf(h, r, i);
      BeatCallback(t, Times(s.log, i), r.timers[i], Times(r.log, i), s.now + n - 1, j);
      hide OnBeat; hide Swept; hide Due;
      k := BeatStep(t, Times(s.log, i), r.timers[i], Times(r.log, i), s.now + n - 1, j);
    }
  }

  lemma BeatCallback(t: Timer, before: seq<nat>, u: Timer, times: seq<nat>, now: nat, j: nat)
    requires OnBeat(t, before, u, times, now, j)
    ensures u.callback == t.callback
  {
  }

  /** A one-shot timer fires once, at its deadline, and is then inactive. */
  lemma {:induction false} FiresOnce(h: Handler, s: Naive, i: nat, n: nat)
    requires i < s.num <= |s.timers| && Untouched(h, i)
    requires s.timers[i].active && !s.timers[i].continuous && s.timers[i].callback && s.now < s.timers[i].timeToFire
    ensures var t, r := s.timers[i], NaiveTicks(h, s, n);
            if s.now + n < t.timeToFire then r.timers[i] == t && Times(r.log, i) == Times(s.log, i)
            else r.timers[i] == t.(active := false) && Times(r.log, i) == Times(s.log, i) + [t.timeToFire]
    decreases n
  {
    hide NaiveTick; hide Times; hide Untouched;
    if n > 0 {
      FiresOnce(h, s, i, n - 1);
      TickOf(h, NaiveTicks(h, s, n - 1), i);
    }
  }

  // ---- runs ----

  datatype Command =
    | Register(ticks: nat, continuous: bool, active: bool)
    | Arm(i: nat, ticks: nat, continuous: bool)
    | Disarm(i: nat)
    | Unregister(i: nat)
    | Tick(n: nat)

  /** Timer `t` is armed at tick `now` for `ticks` ticks, at least one: the deadline is the 64-bit sum. */
  ghost predicate ArmedFor(t: Timer, now: nat, ticks: nat, continuous: bool) {
    && t.active && t.continuous == continuous
    && t.period == (if ticks < 1 then 1 else ticks)
    && t.timeToFire == (now + t.period) % 0x1_0000_0000_0000_0000
  }

  /** Where register_timer_ticks puts the timer, and what it sets: the first unused slot from 1 on, or a new one. */
  lemma RegisterSlot(c: Clock, ticks: nat, continuous: bool, active: bool)
    requires Sized(c)
    ensures var (d, r) := RegisterTimer(c, ticks, continuous, active);
            && Sized(d) && Now(d) == Now(c) && d.log == c.log
            && (r == Full <==> c.num == 64) && (r == Full ==> d == c)
            && (r.Slot? ==>
                  && 1 <= r.timer <= c.num && (r.timer < c.num ==> !c.timers[r.timer].inUse)
                  && (forall j | 1 <= j < r.timer :: c.timers[j].inUse)
                  && d.num == (if r.timer == c.num then c.num + 1 else c.num)
                  && d.timers[r.timer].inUse && d.timers[r.timer].callback
                  && ArmedFor(d.timers[r.timer].(active := true), Now(c), ticks, continuous)
                  && d.timers[r.timer].active == active
                  && forall j | 0 <= j < 64 && j != r.timer :: d.timers[j] == c.timers[j])
  {
  }

  /** What activate_timer_ticks and deactivate_timer set, and that they leave every other timer alone. */
  lemma ArmSlot(c: Clock, i: nat, ticks: nat, continuous: bool)
    requires Sized(c) && 1 <= i < c.num
    ensures var (d, e, t) := (ActivateTimer(c, i, ticks, continuous), DeactivateTimer(c, i), c.timers[i]);
            && Sized(d) && Now(d) == Now(c) && d.log == c.log && d.num == c.num
            && ArmedFor(d.timers[i], Now(c), ticks, continuous)
            && d.timers[i].inUse == t.inUse && d.timers[i].callback == t.callback
            && e == c.(timers := e.timers) && |e.timers| == 64 && e.timers[i] == t.(active := false)
            && forall j | 0 <= j < 64 && j != i :: d.timers[j] == c.timers[j] == e.timers[j]
  {
  }

  /** The calls of a callback are made in order: of several on one timer the last one decides, and a timer none of
      them names is as before. */
  lemma {:induction false} LastCall(c: Clock, ops: seq<Op>, i: nat, k: nat)
    requires Sized(c) && 1 <= i < c.num && k <= |ops|
    requires (k < |ops| ==> ops[k].i == i) && forall j | k < j < |ops| :: ops[j].i != i
    requires k == |ops| ==> forall j | 0 <= j < |ops| :: ops[j].i != i
    ensures var (t, u) := (c.timers[i], ApplyOps(c, ops).timers[i]);
            && Now(ApplyOps(c, ops)) == Now(c) && u.inUse == t.inUse && u.callback == t.callback
            && (k == |ops| ==> u == t)
            && (k < |ops| && ops[k].Activate? ==> ArmedFor(u, Now(c), ops[k].ticks, ops[k].continuous))
            && (k < |ops| && ops[k].Deactivate? ==> !u.active)
    decreases |ops|
  {
    hide Now; hide ArmedFor; hide ActivateTimer; hide DeactivateTimer;
    if ops != [] {
      var n := |ops| - 1;
      var d, op := ApplyOps(c, ops[..n]), ops[n];
      if k < n {
        LastCall(c, ops[..n], i, k);
      } else {
        var j := LastOn(ops[..n], i);
        LastCall(c, ops[..n], i, j);
      }
      OpNow(d, op);
      if 1 <= op.i < d.num {
        ArmSlot(d, op.i, if op.Activate? then op.ticks else 0, op.Activate? && op.continuous);
      }
    }
  }

  lemma {:induction false} LastOn(ops: seq<Op>, i: nat) returns (k: nat)
    ensures k <= |ops| && (k < |ops| ==> ops[k].i == i) && forall j | k < j < |ops| :: ops[j].i != i
    ensures k == |ops| ==> forall j | 0 <= j < |ops| :: ops[j].i != i
    decreases |ops|
  {
    if ops == [] {
      k := 0;
    } else if ops[|ops| - 1].i == i {
      k := |ops| - 1;
    } else {
      k := LastOn(ops[..|ops| - 1], i);
      k := if k == |ops| - 1 then |ops| else k;
    }
  }

  /** The ticks after `now` at which a timer armed for `p` ticks fires within `n` ticks. */
  function Beats(now: nat, p: nat, continuous: bool, n: nat): seq<nat>
    requires p >= 1
  {
    if continuous then seq(n / p, j => now + (j + 1) * p) else if n >= p then [now + p] else []
  }

  lemma BeatCount(now: nat, p: nat, n: nat, k: nat, before: seq<nat>, t: Timer, u: Timer, times: seq<nat>)
    requires p >= 1 && t.period == p && t.timeToFire == now + p && OnBeat(t, before, u, times, now + n, k)
    ensures times == before + Beats(now, p, true, n)
  {
    assert (k + 1) * p == k * p + p;
    if k > 0 {
      assert k * p == (k - 1) * p + p;
    }
    QuotientIs(n, p, k);
    assert seq(k, j => t.timeToFire + j * t.period) == Beats(now, p, true, n) by {
      forall j | 0 <= j < k ensures t.timeToFire + j * t.period == now + (j + 1) * p {
        assert (j + 1) * p == j * p + p;
      }
    }
  }

  lemma QuotientIs(n: nat, p: nat, k: nat)
    requires p >= 1 && k * p <= n < k * p + p
    ensures n / p == k
  {
    var q, r := n / p, n % p;
    assert n == q * p + r;
    InOrder(q + 1, k, p);
    InOrder(k + 1, q, p);
  }

  lemma InOrder(a: nat, b: nat, p: nat)
    ensures a <= b ==> a * p <= b * p
    ensures (a + 1) * p == a * p + p
  {
  }

  /** An armed timer that the callbacks leave alone fires after `p`, `2p`, ... ticks when it is continuous, after
      `p` ticks when it is one-shot, and at no other time. */
  lemma ArmedFires(h: Handler, c: Clock, i: nat, ticks: nat, continuous: bool, n: nat)
    requires Inv(c) && 1 <= i < c.num && Fits(h, c, n) && Untouched(h, i)
    requires ArmedFor(c.timers[i], Now(c), ticks, continuous) && c.timers[i].callback
    requires var p := c.timers[i].period; Now(c) + (if continuous then n else 0) + p < TWO64
    ensures var p := if ticks < 1 then 1 else ticks;
            Times(TickN(h, c, n).log, i) == Times(c.log, i) + Beats(Now(c), p, continuous, n)
  {
    hide Inv; hide Fits; hide TickN; hide NaiveTicks; hide Untouched; hide OnBeat; hide Times;
    InvSized(c);
    TickNView(h, c, n);
    var s, t := View(c), c.timers[i];
    ViewLog(c, c.log);
    if continuous {
      var k := NoDrift(h, s, i, n);
      var r := NaiveTicks(h, s, n);
      BeatCount(Now(c), t.period, n, k, Times(s.log, i), t, r.timers[i], Times(r.log, i));
    } else {
      FiresOnce(h, s, i, n);
    }
  }

  /** From registration on: a timer registered active fires exactly when it should. */
  lemma RegisteredFires(h: Handler, c: Clock, ticks: nat, continuous: bool, d: Clock, i: nat, n: nat)
    requires Inv(c) && RegisterTimer(c, ticks, continuous, true) == (d, Slot(i))
    requires Inv(d) && Fits(h, d, n) && Untouched(h, i)
    requires var p := if ticks < 1 then 1 else ticks; Now(c) + (if continuous then n else 0) + p < TWO64
    ensures var p := if ticks < 1 then 1 else ticks;
            Times(TickN(h, d, n).log, i) == Times(c.log, i) + Beats(Now(c), p, continuous, n)
  {
    hide Inv; hide Fits; hide TickN; hide Untouched; hide RegisterTimer; hide Times; hide Beats; hide Now;
    InvSized(c);
    RegisterSlot(c, ticks, continuous, true);
    assert d.timers[i].(active := true) == d.timers[i];
    ArmedFires(h, d, i, ticks, continuous, n);
  }

  /** From arming on: activate_timer_ticks on a registered timer. */
  lemma ActivatedFires(h: Handler, c: Clock, i: nat, ticks: nat, continuous: bool, d: Clock, n: nat)
    requires Inv(c) && 1 <= i < c.num && c.timers[i].callback && d == ActivateTimer(c, i, ticks, continuous)
    requires Inv(d) && Fits(h, d, n) && Untouched(h, i)
    requires var p := if ticks < 1 then 1 else ticks; Now(c) + (if continuous then n else 0) + p < TWO64
    ensures var p := if ticks < 1 then 1 else ticks;
            Times(TickN(h, d, n).log, i) == Times(c.log, i) + Beats(Now(c), p, continuous, n)
  {
    hide Inv; hide Fits; hide TickN; hide Untouched; hide ActivateTimer; hide Times; hide Beats; hide Now;
    InvSized(c);
    ArmSlot(c, i, ticks, continuous);
    ArmedFires(h, d, i, ticks, continuous, n);
  }

  /** A timer disarmed and left alone does not fire. */
  lemma {:induction false} StoppedSilent(h: Handler, s: Naive, i: nat, n: nat)
    requires i < s.num <= |s.timers| && Untouched(h, i) && !s.timers[i].active
    ensures var r := NaiveTicks(h, s, n); r.timers[i] == s.timers[i] && Times(r.log, i) == Times(s.log, i)
    decreases n
  {
    hide NaiveTick; hide Times; hide Untouched;
    if n > 0 {
      StoppedSilent(h, s, i, n - 1);
      TickOf(h, NaiveTicks(h, s, n - 1), i);
    }
  }

  /** unregisterTimer is refused for an active timer; otherwise the slot is free again, to be found by the next
      registration, and no other slot is touched. */
  lemma UnregisterSlot(c: Clock, i: nat)
    requires Sized(c) && 1 <= i < c.num
    ensures var (d, ok) := UnregisterTimer(c, i);
            && (ok <==> !c.timers[i].active) && (!ok ==> d == c)
            && (ok ==>
                  && Sized(d) && Now(d) == Now(c) && d.log == c.log
                  && d.timers[i] == Timer(false, 0x7fff_ffff_ffff_ffff, 0x7fff_ffff_ffff_ffff, false, false, false)
                  && d.num == (if i == c.num - 1 then i else c.num)
                  && (forall j | 0 <= j < 64 && j != i :: d.timers[j] == c.timers[j])
                  && forall ticks, continuous, active ::
                       var r := RegisterTimer(d, ticks, continuous, active).1;
                       (d.num < 64 ==> r.Slot? && r.timer <= i))
  {
    var (d, ok) := UnregisterTimer(c, i);
    if ok {
      assert !d.timers[i].inUse;
      forall ticks, continuous, active
        ensures var r := RegisterTimer(d, ticks, continuous, active).1; d.num < 64 ==> r.Slot? && r.timer <= i
      {
        RegisterSlot(d, ticks, continuous, active);
      }
    }
  }

  /** Registering keeps the invariant exactly when the timer is refused, inactive, or its deadline fits 64 bits. */
  lemma RegisterInv(c: Clock, ticks: nat, continuous: bool, active: bool)
    requires Inv(c) && ticks < TWO64
    ensures var d := RegisterTimer(c, ticks, continuous, active).0;
            && Sized(d) && Now(d) == Now(c)
            && (Inv(d) <==> c.num == MAX_TIMERS || !active || Now(c) + AtLeastOne(ticks) < TWO64)
  {
    hide FreeSlot;
    var (d, r) := RegisterTimer(c, ticks, continuous, active);
    RegisterSlot(c, ticks, continuous, active);
    if r.Slot? && active {
      assert d.timers[r.timer].active;
      assert d.timers[0] == c.timers[0];
    }
  }

  lemma UnregisterInv(c: Clock, i: nat)
    requires Inv(c) && 1 <= i < c.num
    ensures var (d, ok) := UnregisterTimer(c, i);
            Inv(d) && Now(d) == Now(c) && (ok <==> !c.timers[i].active)
  {
  }

  /** The command sets no deadline that wraps. */
  ghost predicate CommandFits(h: Handler, c: Clock, a: Command)
    requires Inv(c)
  {
    match a
    case Register(ticks, continuous, active) =>
      ticks < TWO64 && (c.num < MAX_TIMERS && active ==> Now(c) + AtLeastOne(ticks) < TWO64)
    case Arm(i, ticks, continuous) => OpFits(Now(c), c.num, Activate(i, ticks, continuous))
    case Disarm(i) => true
    case Unregister(i) => true
    case Tick(n) => Fits(h, c, n)
  }

  /** One command; a command on a timer that does not exist is not taken. */
  function Step(h: Handler, c: Clock, a: Command): (r: Clock)
    requires Inv(c) && CommandFits(h, c, a)
    ensures Inv(r) && Now(r) == Now(c) + if a.Tick? then a.n else 0
  {
    hide Inv; hide Fits; hide TickN; hide RegisterTimer; hide UnregisterTimer; hide ApplyOp; hide OpFits; hide Now;
    InvSized(c);
    match a
    case Register(ticks, continuous, active) =>
      RegisterInv(c, ticks, continuous, active);
      RegisterTimer(c, ticks, continuous, active).0
    case Arm(i, ticks, continuous) =>
      OpKeeps(c, Activate(i, ticks, continuous));
      ApplyOp(c, Activate(i, ticks, continuous))
    case Disarm(i) =>
      DisarmFits(c, i);
      OpKeeps(c, Deactivate(i));
      ApplyOp(c, Deactivate(i))
    case Unregister(i) =>
      if !(1 <= i < c.num) then c else
      UnregisterInv(c, i);
      UnregisterTimer(c, i).0
    case Tick(n) =>
      TickN(h, c, n)
  }

  lemma DisarmFits(c: Clock, i: nat)
    requires Sized(c)
    ensures OpFits(Now(c), c.num, Deactivate(i))
  {
  }

  /** No command of the run sets a deadline that wraps. */
  ghost predicate Orderly(h: Handler, c: Clock, commands: seq<Command>)
    requires Inv(c)
    decreases |commands|
  {
    commands == [] || (CommandFits(h, c, commands[0]) && Orderly(h, Step(h, c, commands[0]), commands[1..]))
  }

  function Run(h: Handler, c: Clock, commands: seq<Command>): (r: Clock)
    requires Inv(c) && Orderly(h, c, commands)
    ensures Inv(r)
    decreases |commands|
  {
    hide Inv; hide Step; hide CommandFits;
    if commands == [] then c else Run(h, Step(h, c, commands[0]), commands[1..])
  }

  /** The state after the constructor and initialize(). */
  function Start(): Clock {
    Clock(seq(MAX_TIMERS, i => if i == 0 then Timer(true, NULL_INTERVAL, NULL_INTERVAL, true, true, true)
                               else Timer(false, 0, 0, false, false, false)),
          1, 0, NULL_INTERVAL, NULL_INTERVAL, [])
  }

  /** At the start the invariant holds, nothing has fired at tick 0, the null timer alone is armed, and the first timer
      to be registered gets slot 1. */
  lemma StartInv()
    ensures Inv(Start()) && Roomy(Start()) && Now(Start()) == 0 && Start().log == []
    ensures Start().timers[0] == Timer(true, 0xffff_ffff, 0xffff_ffff, true, true, true)
    ensures forall i | 1 <= i < 64 :: !Start().timers[i].inUse && !Start().timers[i].active
    ensures forall ticks, continuous, active :: RegisterTimer(Start(), ticks, continuous, active).1 == Slot(1)
  {
  }

  lemma Tick1Fires(h: Handler, c: Clock)
    requires Inv(c)
    ensures c.num <= |c.timers| && c.countdown > 0
    ensures Tick1(h, c).log == c.log + Firings(c.timers, Now(c) + 1, c.num)
  {
    hide Inv; hide NaiveTick; hide Tick1; hide Firings;
    InvSized(c);
    Tick1View(h, c);
    TickFires(h, View(c));
  }

  /** In every reachable state every active timer is still to come (the debug panic "ticksTotal > timeToFire"
      is unreachable), and the next tick fires exactly the timers whose deadline it reaches. */
  lemma ReachablePunctual(h: Handler, commands: seq<Command>)
    ensures Inv(Start())
    ensures Orderly(h, Start(), commands) ==>
              var c := Run(h, Start(), commands);
              && Sized(c) && c.countdown > 0
              && (forall i | 0 <= i < c.num && c.timers[i].active :: Now(c) < c.timers[i].timeToFire)
              && Tick1(h, c).log == c.log + Firings(c.timers, Now(c) + 1, c.num)
  {
    hide Start; hide Run; hide Orderly; hide Firings; hide Tick1;
    StartInv();
    if Orderly(h, Start(), commands) {
      var c := Run(h, Start(), commands);
      Punctual(c);
      Tick1Fires(h, c);
    }
  }
}
