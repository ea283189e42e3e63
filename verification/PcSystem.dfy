/** The imperative bx_pc_system_c: timer[] and the countdown fields are updated in place. Every method refines
    a step of Timers. */
module PcSystem {
  import opened Timers

  lemma MinPrefix(a: seq<Timer>, b: seq<Timer>, k: nat)
    requires k <= |a| && k <= |b| && a[..k] == b[..k]
    ensures MinToFire(a, k) == MinToFire(b, k)
    decreases k
  {
    if k > 0 {
      assert a[..k - 1] == a[..k][..k - 1];
      assert b[..k - 1] == b[..k][..k - 1];
      MinPrefix(a, b, k - 1);
      assert a[k - 1] == a[..k][k - 1] && b[k - 1] == b[..k][k - 1];
    }
  }

  lemma MinNone(a: seq<Timer>)
    ensures MinToFire(a, 0) == TWO64 - 1
  {
  }

  /** One more timer enters the minimum; the ones before it are untouched. */
  lemma MinStep(a: seq<Timer>, b: seq<Timer>, k: nat)
    requires k < |a| && |a| == |b| && b == a[k := b[k]]
    ensures MinToFire(b, k + 1) == if b[k].active && b[k].timeToFire < MinToFire(a, k) then b[k].timeToFire
            else MinToFire(a, k)
  {
    MinPrefix(a, b, k);
  }

  /** Stretches without triggered timers are skipped. */
  lemma {:induction false} CallbacksSkip(h: Handler, c: Clock, triggered: seq<bool>, time: nat, a: nat, b: nat)
    requires Sized(c) && a <= b <= |triggered| <= c.num && forall i | a <= i < b :: !triggered[i]
    ensures Callbacks(h, c, triggered, time, b) == Callbacks(h, c, triggered, time, a)
    decreases b
  {
    if a < b {
      CallbacksSkip(h, c, triggered, time, a, b - 1);
    }
  }

  class PcSystem {
    const timer: array<Timer>
    const handler: Handler
    var numTimers: nat
    var ticksTotal: nat
    var currCountdown: nat
    var currCountdownPeriod: nat
    var fired: seq<Firing>

    ghost function Abs(): Clock
      reads this, timer
    {
      Clock(timer[..], numTimers, ticksTotal, currCountdownPeriod, currCountdown, fired)
    }

    ghost predicate Valid()
      reads this, timer
    {
      Inv(Abs())
    }

    /** The constructor and initialize(). */
    constructor (handler: Handler)
      ensures Valid() && fresh(timer) && this.handler == handler
      ensures Abs() == Start()
    {
      this.handler := handler;
      timer := new Timer[MAX_TIMERS](i => if i == 0 then Timer(true, NULL_INTERVAL, NULL_INTERVAL, true, true, true)
                                         else Timer(false, 0, 0, false, false, false));
      numTimers, ticksTotal, fired := 1, 0, [];
      currCountdown, currCountdownPeriod := NULL_INTERVAL, NULL_INTERVAL;
      new;
      assert Abs().timers == Start().timers;
      StartInv();
    }

    function TimeTicks(): (t: nat)
      requires currCountdown <= currCountdownPeriod
      reads this, timer
      ensures t == Now(Abs())
    {
      ticksTotal + (currCountdownPeriod - currCountdown)
    }

    method Shorten(ticks: nat)
      requires currCountdown <= currCountdownPeriod
      modifies this`currCountdown, this`currCountdownPeriod
      ensures if ticks < old(currCountdown) then
                currCountdown == ticks && currCountdownPeriod == old(currCountdownPeriod - (currCountdown - ticks))
              else currCountdown == old(currCountdown) && currCountdownPeriod == old(currCountdownPeriod)
    {
      if ticks < currCountdown {
        currCountdownPeriod := currCountdownPeriod - (currCountdown - ticks);
        currCountdown := ticks;
      }
    }

    method ActivateTimerTicks(i: nat, ticks0: nat, continuous: bool)
      requires Sized(Abs()) && i < numTimers
      modifies this`currCountdown, this`currCountdownPeriod, timer
      ensures Abs() == ActivateTimer(old(Abs()), i, ticks0, continuous)
    {
      var ticks := ticks0;
      if ticks < 1 {
        ticks := 1;
      }
      var deadline := Wrap64(TimeTicks() + ticks);
      timer[i] := timer[i].(period := ticks, timeToFire := deadline, active := true, continuous := continuous);
      assert timer[..] == old(timer[..])[i := timer[i]];
      Shorten(ticks);
    }

    method Deactivate(i: nat)
      requires i < numTimers <= timer.Length
      modifies timer
      ensures Abs() == DeactivateTimer(old(Abs()), i)
    {
      timer[i] := timer[i].(active := false);
      assert timer[..] == old(timer[..])[i := timer[i]];
    }

    /** register_timer_ticks; Full stands for -1. The caller keeps the deadline within 64 bits. */
    method RegisterTimerTicks(ticks0: nat, continuous: bool, active: bool) returns (r: Registered)
      requires Valid() && CommandFits(handler, Abs(), Register(ticks0, continuous, active))
      modifies this`currCountdown, this`currCountdownPeriod, this`numTimers, timer
      ensures Valid() && (Abs(), r) == RegisterTimer(old(Abs()), ticks0, continuous, active)
    {
      hide Inv;
      ghost var c := Abs();
      InvSized(c);
      RegisterInv(c, ticks0, continuous, active);
      var ticks := ticks0;
      if ticks < 1 {
        ticks := 1;
      }
      var i := 1;
      while i < numTimers && timer[i].inUse
        invariant 1 <= i <= numTimers
        invariant FreeSlot(c.timers, c.num, i) == FreeSlot(c.timers, c.num, 1)
      {
        i := i + 1;
      }
      if numTimers >= MAX_TIMERS {
        return Full;
      }
      var deadline := Wrap64(TimeTicks() + ticks);
      timer[i] := Timer(true, ticks, deadline, active, continuous, true);
      assert timer[..] == c.timers[i := timer[i]];
      if active {
        Shorten(ticks);
      }
      if i == numTimers {
        numTimers := numTimers + 1;
      }
      return Slot(i);
    }

    method Unregister(i: nat) returns (ok: bool)
      requires Valid() && 1 <= i < numTimers
      modifies this`numTimers, timer
      ensures Valid() && (Abs(), ok) == UnregisterTimer(old(Abs()), i)
    {
      hide Inv;
      ghost var c := Abs();
      InvSized(c);
      UnregisterInv(c, i);
      if timer[i].active {
        return false;
      }
      timer[i] := Timer(false, MAX_BIT64S, MAX_BIT64S, false, false, false);
      assert timer[..] == c.timers[i := timer[i]];
      if i == numTimers - 1 {
        numTimers := numTimers - 1;
      }
      return true;
    }

    /** One callback: it is logged and makes its calls one after the other. */
    method Invoke(i: nat)
      requires Sized(Abs()) && i < numTimers
      modifies this`currCountdown, this`currCountdownPeriod, this`fired, timer
      ensures Sized(Abs())
      ensures var log := old(fired) + [Firing(i, ticksTotal)];
              Abs() == ApplyOps(old(Abs()).(log := log), handler(log))
    {
      fired := fired + [Firing(i, ticksTotal)];
      ghost var c := Abs();
      var ops := handler(fired);
      var k := 0;
      while k < |ops|
        invariant 0 <= k <= |ops| && fired == c.log && ticksTotal == c.total && numTimers == c.num
        invariant Sized(Abs()) && Abs() == ApplyOps(c, ops[..k])
      {
        assert ops[..k + 1][..k] == ops[..k] && ops[..k + 1][k] == ops[k];
        if 1 <= ops[k].i < numTimers {
          match ops[k]
          case Activate(i, ticks, continuous) => ActivateTimerTicks(i, ticks, continuous);
          case Deactivate(i) => Deactivate(i);
        }
        k := k + 1;
      }
      assert ops[..k] == ops;
    }

    /** The first loop of countdownEvent: what is due at `ticksTotal` is marked and advanced or stopped. The
        asserted fact is the debug panic's negation: no deadline has been passed. */
    method SweepDue(triggered: array<bool>) returns (first: nat, last: nat, minTimeToFire: nat)
      requires numTimers <= timer.Length && triggered.Length == MAX_TIMERS && numTimers <= MAX_TIMERS
      requires forall i | 0 <= i < numTimers && timer[i].active :: ticksTotal <= timer[i].timeToFire < TWO64
      modifies timer, triggered
      ensures timer[..] == Sweep(old(timer[..]), numTimers, ticksTotal)
      ensures triggered[..numTimers] == Triggered(old(timer[..]), numTimers, ticksTotal)
      ensures minTimeToFire == MinToFire(timer[..], numTimers)
      ensures forall j | 0 <= j < numTimers && triggered[j] :: first <= j <= last
      ensures last < numTimers || last == 0
    {
      hide MinToFire; hide Sized; hide Wrap64;
      ghost var was := timer[..];
      first, last, minTimeToFire := numTimers, 0, TWO64 - 1;
      MinNone(was);
      var i := 0;
      while i < numTimers
        invariant 0 <= i <= numTimers
        invariant forall j | 0 <= j < timer.Length :: timer[j] == if j < i then Swept(was[j], ticksTotal) else was[j]
        invariant forall j | 0 <= j < i :: triggered[j] == Due(was[j], ticksTotal)
        invariant forall j | 0 <= j < i && triggered[j] :: first <= j <= last
        invariant last < numTimers || last == 0
        invariant minTimeToFire == MinToFire(timer[..], i)
      {
        ghost var before := timer[..];
        triggered[i] := false;
        if timer[i].active {
          assert ticksTotal <= timer[i].timeToFire;
          if ticksTotal == timer[i].timeToFire {
            triggered[i] := true;
            if !timer[i].continuous {
              timer[i] := timer[i].(active := false);
            } else {
              timer[i] := timer[i].(timeToFire := Wrap64(timer[i].timeToFire + timer[i].period));
              if timer[i].timeToFire < minTimeToFire {
                minTimeToFire := timer[i].timeToFire;
              }
            }
            if i < first {
              first := i;
            }
            last := i;
          } else if timer[i].timeToFire < minTimeToFire {
            minTimeToFire := timer[i].timeToFire;
          }
        }
        assert timer[..] == before[i := timer[i]];
        MinStep(before, timer[..], i);
        i := i + 1;
      }
      assert timer[..] == Sweep(was, numTimers, ticksTotal);
    }

    /** The second loop of countdownEvent: the callbacks of what was marked, from `first` to `last`. */
    method RunCallbacks(triggered: array<bool>, first: nat, last: nat)
      requires Sized(Abs()) && triggered.Length == MAX_TIMERS && (last < numTimers || last == 0)
      requires forall j | 0 <= j < numTimers && triggered[j] :: first <= j <= last
      modifies this`currCountdown, this`currCountdownPeriod, this`fired, timer
      ensures Sized(Abs())
      ensures Abs() == Callbacks(handler, old(Abs()), old(triggered[..numTimers]), ticksTotal, numTimers)
    {
      hide Now; hide ApplyOp;
      ghost var d, flags := Abs(), triggered[..numTimers];
      CallbacksSkip(handler, d, flags, ticksTotal, 0, if first <= last then first else numTimers);
      var i := first;
      while i <= last
        invariant first <= i && (first <= last ==> i <= last + 1)
        invariant Sized(Abs()) && triggered[..numTimers] == flags
        invariant Abs() == Callbacks(handler, d, flags, ticksTotal, if first <= last then i else numTimers)
        decreases last + 1 - i
      {
        assert flags[i] == triggered[i];
        if triggered[i] && timer[i].callback {
          Invoke(i);
        }
        i := i + 1;
      }
      if first <= last {
        CallbacksSkip(handler, d, flags, ticksTotal, i, numTimers);
      }
    }

    /** countdownEvent, entered when the countdown has reached zero. */
    method CountdownEvent()
      requires currCountdown == 0 && Sized(Abs())
      requires forall i | 0 <= i < numTimers && timer[i].active ::
               ticksTotal + currCountdownPeriod <= timer[i].timeToFire < TWO64
      modifies this, timer
      ensures Abs() == Event(handler, old(Abs()))
    {
      hide Narrow; hide MinToFire; hide Sweep; hide Triggered; hide Callbacks;
      ghost var c := Abs();
      ticksTotal := ticksTotal + currCountdownPeriod;
      var triggered := new bool[MAX_TIMERS];
      var first, last, minTimeToFire := SweepDue(triggered);
      currCountdownPeriod := Narrow(minTimeToFire, ticksTotal);
      currCountdown := currCountdownPeriod;
      assert Abs() == Advance(c);
      RunCallbacks(triggered, first, last);
    }

    method Tick1()
      requires Valid() && TickFits(handler, Abs())
      modifies this, timer
      ensures Valid() && Abs() == Timers.Tick1(handler, old(Abs()))
    {
      Tick1Inv(handler, Abs());
      currCountdown := currCountdown - 1;
      if currCountdown == 0 {
        assert Abs() == old(Abs()).(countdown := 0);
        CountdownEvent();
      }
    }

    method TickN(n0: nat)
      requires Valid() && Fits(handler, Abs(), n0)
      modifies this, timer
      ensures Valid() && Abs() == Timers.TickN(handler, old(Abs()), n0)
    {
      hide Inv; hide Fits; hide Timers.TickN; hide Event; hide Sized;
      var n: nat := n0;
      InvSized(Abs());
      while n >= currCountdown
        invariant Valid() && Fits(handler, Abs(), n)
        invariant Timers.TickN(handler, Abs(), n) == Timers.TickN(handler, old(Abs()), n0)
        decreases n
      {
        ghost var c := Abs();
        TickNStep(handler, c, n);
        EventReady(c);
        n := n - currCountdown;
        currCountdown := 0;
        assert Abs() == c.(countdown := 0);
        CountdownEvent();
      }
      TickNRest(handler, Abs(), n);
      currCountdown := currCountdown - n;
    }
  }
}
