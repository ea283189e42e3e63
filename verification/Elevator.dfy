/** The disk request queue and its elevator (src/kernel/device.c). A request is in service from the moment it is
    submitted to an idle device, or woken by its predecessor, until it is finished; every other one is blocked. */
module Elevator {
  import opened LinkedList

  const TWO32: nat := 0x1_0000_0000

  /** `task` tells whether the request remembers a task to wake. */
  datatype Request = Request(id: nat, idx: nat, task: bool, blocked: bool)

  /** One finished request: its sector, the direction in force afterwards, whether that was a turn, and the sectors
      of the requests that were still queued. */
  datatype Served = Served(key: int, up: bool, turned: bool, left: seq<int>)

  datatype Elevator = Elevator(list: seq<Request>, up: bool, log: seq<Served>)

  function Keys(list: seq<Request>): (k: seq<int>)
    requires forall i | 0 <= i < |list| :: list[i].idx < TWO32
    ensures |k| == |list|
  {
    seq(|list|, i requires 0 <= i < |list| => Signed(list[i].idx))
  }

  /** Where the request in service is. */
  function ActivePos(list: seq<Request>): (p: nat)
    ensures p <= |list| && (p < |list| ==> !list[p].blocked)
    ensures forall i | 0 <= i < p :: list[i].blocked
    decreases |list|
  {
    if list == [] || !list[0].blocked then 0 else 1 + ActivePos(list[1..])
  }

  // ---- the two halves of device_request ----

  /** device_request up to do_request: into the list in order, blocked unless the list was empty. */
  function Submit(e: Elevator, id: nat, idx: nat): Elevator
    requires idx < TWO32 && forall i | 0 <= i < |e.list| :: e.list[i].idx < TWO32
  {
    var empty := e.list == [];
    e.(list := InsertAt(e.list, Place(Keys(e.list), Signed(idx)), Request(id, idx, !empty, !empty)))
  }

  datatype Neighbour = None | At(pos: nat)

  /** The direction after request_nextreq. */
  function Turn(up: bool, n: nat, p: nat): bool
    requires p < n
  {
    if up && p == n - 1 then false else if !up && p == 0 then true else up
  }

  /** request_nextreq: the neighbour of place `p` in the direction in force after the turn; None is NULL. */
  function NextReq(up: bool, n: nat, p: nat): (r: Neighbour)
    requires p < n
    ensures r.None? <==> n == 1
    ensures r.At? ==> r.pos < n && r.pos == if Turn(up, n, p) then p + 1 else p - 1
  {
    if Turn(up, n, p) then (if p + 1 == n then None else At(p + 1)) else (if p == 0 then None else At(p - 1))
  }

  /** device_request after do_request, for the request at place `p`: pick the next, leave the list, wake it. */
  function Finish(e: Elevator, p: nat): Elevator
    requires p < |e.list| && forall i | 0 <= i < |e.list| :: e.list[i].idx < TWO32
  {
    var up := Turn(e.up, |e.list|, p);
    var next := NextReq(e.up, |e.list|, p);
    var woken := if next.At? then e.list[next.pos := e.list[next.pos].(blocked := false)] else e.list;
    Elevator(DeleteAt(woken, p), up, e.log + [Record(e, p)])
  }

  /** What is recorded of the request at place `p` when it is finished. */
  function Record(e: Elevator, p: nat): Served
    requires p < |e.list| && forall i | 0 <= i < |e.list| :: e.list[i].idx < TWO32
  {
    var up := Turn(e.up, |e.list|, p);
    Served(Signed(e.list[p].idx), up, up != e.up, DeleteAt(Keys(e.list), p))
  }

  // ---- invariants ----

  ghost predicate Ids(list: seq<Request>) {
    && (forall i | 0 <= i < |list| :: list[i].idx < TWO32)
    && (forall i, j | 0 <= i < j < |list| :: list[i].id != list[j].id)
  }

  /** Place `p` is in service; everybody else is blocked and has a task to wake. */
  ghost predicate OnlyAt(list: seq<Request>, p: nat) {
    p < |list| && !list[p].blocked && forall i | 0 <= i < |list| && i != p :: list[i].blocked && list[i].task
  }

  ghost predicate OneActive(list: seq<Request>) {
    list != [] ==> OnlyAt(list, ActivePos(list))
  }

  predicate Onward(up: bool, a: int, b: int) {
    if up then a <= b else b <= a
  }

  /** The elevator turns only when no sector is left ahead, and goes on only when one is left that is not behind. */
  ghost predicate TurnsAtEnd(s: Served) {
    if s.turned then forall k | k in s.left :: Onward(s.up, s.key, k)
    else exists k :: k in s.left && Onward(s.up, s.key, k)
  }

  /** Between turns the sectors go one way, and a turn comes only at the last sector on that side. */
  ghost predicate Sweeps(log: seq<Served>) {
    && (forall i | 0 <= i < |log| :: TurnsAtEnd(log[i]))
    && (forall i | 0 <= i < |log| - 1 && !log[i].turned ::
      if log[i].up then log[i].key <= log[i + 1].key else log[i + 1].key <= log[i].key)
    && (forall i | 0 < i < |log| :: log[i].turned <==> log[i].up != log[i - 1].up)
  }

  /** The request in service continues the sweep. */
  ghost predicate Continues(e: Elevator)
    requires Ids(e.list) && OneActive(e.list)
  {
    e.log != [] ==>
      var last := e.log[|e.log| - 1];
      last.up == e.up && (!last.turned ==> e.list != [] && Onward(e.up, last.key, ActiveKey(e)))
  }

  function ActiveKey(e: Elevator): int
    requires Ids(e.list) && ActivePos(e.list) < |e.list|
  {
    Signed(e.list[ActivePos(e.list)].idx)
  }

  ghost predicate Inv(e: Elevator) {
    Ids(e.list) && Sorted(Keys(e.list)) && OneActive(e.list) && Sweeps(e.log) && Continues(e)
  }

  lemma ActiveUnique(list: seq<Request>, p: nat)
    requires OnlyAt(list, p)
    ensures ActivePos(list) == p
  {
  }

  lemma InsertIds(list: seq<Request>, k: nat, r: Request)
    requires Ids(list) && k <= |list| && r.idx < TWO32 && forall i | 0 <= i < |list| :: list[i].id != r.id
    ensures Ids(InsertAt(list, k, r)) && Keys(InsertAt(list, k, r)) == InsertAt(Keys(list), k, Signed(r.idx))
  {
  }

  lemma DeleteIds(list: seq<Request>, p: nat)
    requires Ids(list) && p < |list|
    ensures Ids(DeleteAt(list, p)) && Keys(DeleteAt(list, p)) == DeleteAt(Keys(list), p)
  {
  }

  lemma InsertOnly(list: seq<Request>, k: nat, r: Request, p: nat)
    requires OnlyAt(list, p) && k <= |list| && r.blocked && r.task
    ensures OnlyAt(InsertAt(list, k, r), if p < k then p else p + 1)
  {
  }

  lemma InsertActive(list: seq<Request>, k: nat, r: Request)
    requires OneActive(list) && k <= |list| && (r.blocked <==> list != []) && (r.task <==> list != [])
    ensures var l := InsertAt(list, k, r);
            OnlyAt(l, ActivePos(l))
            && ActivePos(l) == (if list == [] then 0 else if ActivePos(list) < k then ActivePos(list)
              else ActivePos(list) + 1)
  {
    if list == [] {
      ActiveUnique(InsertAt(list, k, r), 0);
    } else {
      InsertOnly(list, k, r, ActivePos(list));
      ActiveUnique(InsertAt(list, k, r), if ActivePos(list) < k then ActivePos(list) else ActivePos(list) + 1);
    }
    hide ActivePos; hide OnlyAt;
  }

  lemma SubmitInv(e: Elevator, id: nat, idx: nat)
    requires Inv(e) && idx < TWO32 && forall i | 0 <= i < |e.list| :: e.list[i].id != id
    ensures Inv(Submit(e, id, idx)) && Submit(e, id, idx).list != []
    ensures var l := Submit(e, id, idx).list;
            e.list != [] ==>
              ActivePos(l) < |l| && ActivePos(e.list) < |e.list| && l[ActivePos(l)] == e.list[ActivePos(e.list)]
  {
    var k := Place(Keys(e.list), Signed(idx));
    var r := Request(id, idx, e.list != [], e.list != []);
    InsertKeepsSorted(Keys(e.list), Signed(idx));
    InsertIds(e.list, k, r);
    InsertActive(e.list, k, r);
    hide Place; hide ActivePos; hide Keys; hide Sorted; hide Ids; hide OneActive; hide Sweeps;
  }

  /** The successor takes over where the finished request was. */
  lemma HandOver(list: seq<Request>, p: nat, next: nat)
    requires OnlyAt(list, p) && next < |list| && (next == p + 1 || next == p - 1)
    ensures var l := DeleteAt(list[next := list[next].(blocked := false)], p);
            OnlyAt(l, ActivePos(l)) && ActivePos(l) == if next < p then next else p
  {
    ActiveUnique(DeleteAt(list[next := list[next].(blocked := false)], p), if next < p then next else p);
  }

  lemma UnblockIds(list: seq<Request>, next: nat)
    requires Ids(list) && next < |list|
    ensures var l := list[next := list[next].(blocked := false)]; Ids(l) && Keys(l) == Keys(list)
  {
  }

  /** The list stays in order, and the finished request had a task to wake whenever somebody was waiting. */
  lemma FinishList(e: Elevator)
    requires Inv(e) && e.list != []
    ensures ActivePos(e.list) < |e.list|
    ensures var p := ActivePos(e.list); var f := Finish(e, p); var next := NextReq(e.up, |e.list|, p);
            Ids(f.list) && Sorted(Keys(f.list)) && OneActive(f.list)
            && (f.list == [] <==> next.None?)
            && (next.At? ==>
                  && e.list[next.pos].task && f.list != [] && f.list[ActivePos(f.list)].id == e.list[next.pos].id
                  && ActiveKey(f) == Signed(e.list[next.pos].idx))
  {
    var p := ActivePos(e.list);
    var next := NextReq(e.up, |e.list|, p);
    var woken := if next.At? then e.list[next.pos := e.list[next.pos].(blocked := false)] else e.list;
    if next.At? {
      UnblockIds(e.list, next.pos);
      HandOver(e.list, p, next.pos);
    }
    DeleteIds(woken, p);
    DeleteKeepsSorted(Keys(e.list), p);
    hide ActivePos; hide Sorted; hide Ids; hide Keys; hide Sweeps; hide Continues;
  }

  lemma LogGrows(log: seq<Served>, s: Served)
    requires Sweeps(log)
    requires log != [] ==> !log[|log| - 1].turned ==> Onward(log[|log| - 1].up, log[|log| - 1].key, s.key)
    requires log != [] ==> (s.turned <==> s.up != log[|log| - 1].up)
    requires TurnsAtEnd(s)
    ensures Sweeps(log + [s])
  {
    hide TurnsAtEnd;
  }

  lemma EndOfSweep(keys: seq<int>, p: nat, up: bool)
    requires Sorted(keys) && p < |keys|
    ensures var u := Turn(up, |keys|, p); TurnsAtEnd(Served(keys[p], u, u != up, DeleteAt(keys, p)))
  {
    var u, left := Turn(up, |keys|, p), DeleteAt(keys, p);
    assert forall i | 0 <= i < |left| :: left[i] == keys[if i < p then i else i + 1];
    if u == up {
      var k := if up then p else p - 1;
      assert left[k] in left && Onward(up, keys[p], left[k]);
    }
  }

  /** At a turn every request still queued lies on the other side of the one just served. */
  lemma TurnExact(e: Elevator)
    requires Inv(e) && e.list != []
    ensures ActivePos(e.list) < |e.list| && TurnsAtEnd(Record(e, ActivePos(e.list)))
  {
    hide OneActive; hide Sweeps; hide Continues; hide Signed; hide ActivePos; hide TurnsAtEnd; hide Turn; hide Sorted;
    ActiveIn(e);
    EndOfSweep(Keys(e.list), ActivePos(e.list), e.up);
  }

  lemma ActiveIn(e: Elevator)
    requires Inv(e) && e.list != []
    ensures ActivePos(e.list) < |e.list|
  {
  }

  lemma NextOnward(e: Elevator)
    requires Inv(e) && e.list != []
    ensures ActivePos(e.list) < |e.list|
    ensures var p := ActivePos(e.list); var next := NextReq(e.up, |e.list|, p);
            next.At? ==> Onward(Turn(e.up, |e.list|, p), Signed(e.list[p].idx), Signed(e.list[next.pos].idx))
  {
    var p := ActivePos(e.list);
    var next := NextReq(e.up, |e.list|, p);
    if next.At? {
      assert Keys(e.list)[p] == Signed(e.list[p].idx) && Keys(e.list)[next.pos] == Signed(e.list[next.pos].idx);
    }
  }

  lemma FinishInv(e: Elevator)
    requires Inv(e) && e.list != []
    ensures ActivePos(e.list) < |e.list| && Inv(Finish(e, ActivePos(e.list)))
  {
    var p := ActivePos(e.list);
    FinishList(e);
    NextOnward(e);
    var f := Finish(e, p);
    TurnExact(e);
    LogGrows(e.log, f.log[|e.log|]);
    hide ActivePos; hide Sorted; hide Ids; hide Keys; hide Sweeps; hide OneActive;
  }

  // ---- runs ----

  datatype Action = Arrive(id: nat, idx: nat) | Done

  ghost predicate Queued(list: seq<Request>, id: nat) {
    exists i :: 0 <= i < |list| && list[i].id == id
  }

  /** A new request has a fresh identity; only the request in service can finish. */
  ghost function Apply(e: Elevator, a: Action): (r: Elevator)
    requires Inv(e)
    ensures Inv(r)
  {
    match a
    case Arrive(id, idx) =>
      if idx < TWO32 && !Queued(e.list, id) then SubmitInv(e, id, idx); Submit(e, id, idx) else e
    case Done =>
      if e.list != [] then FinishInv(e); Finish(e, ActivePos(e.list)) else e
  }

  ghost function Run(e: Elevator, run: seq<Action>): (r: Elevator)
    requires Inv(e)
    ensures Inv(r)
    decreases |run|
  {
    if run == [] then e else Apply(Run(e, run[..|run| - 1]), run[|run| - 1])
  }

  function Start(): Elevator {
    Elevator([], true, [])
  }

  /** Every reachable queue is in order with one request in service, and its log is a sequence of sweeps. */
  lemma Reachable(run: seq<Action>)
    ensures Inv(Start()) && Inv(Run(Start(), run)) && Sweeps(Run(Start(), run).log)
  {
  }

  // ---- nobody waits for more than one turn ----

  function Turns(log: seq<Served>): nat {
    if log == [] then 0 else Turns(log[..|log| - 1]) + (if log[|log| - 1].turned then 1 else 0)
  }

  ghost predicate WaitsAt(list: seq<Request>, id: nat, i: nat) {
    i < |list| && list[i].id == id && list[i].blocked
  }

  /** Place `i` lies ahead of the request in service. */
  predicate Ahead(e: Elevator, i: nat) {
    if e.up then ActivePos(e.list) < i else i < ActivePos(e.list)
  }

  /** Turns already made, plus the one still to be made before the sweep comes towards place `i`. */
  function TurnsUntil(e: Elevator, i: nat): nat {
    Turns(e.log) + if Ahead(e, i) then 0 else 1
  }

  /** The waiting request at `i` after an arrival, and what that leaves of its wait. */
  lemma ArrivalKeepsPlace(e: Elevator, id: nat, idx: nat, i: nat)
    requires Inv(e) && idx < TWO32 && !Queued(e.list, id) && i < |e.list| && e.list[i].blocked
    ensures var k := Place(Keys(e.list), Signed(idx)); var j := if i < k then i else i + 1; var f := Submit(e, id, idx);
            j < |f.list| && f.list[j] == e.list[i] && TurnsUntil(f, j) == TurnsUntil(e, i)
  {
    InsertActive(e.list, Place(Keys(e.list), Signed(idx)), Request(id, idx, e.list != [], e.list != []));
    hide Place; hide ActivePos; hide Keys; hide Sorted; hide Ids; hide Sweeps; hide Continues;
  }

  lemma LogTurns(log: seq<Served>, s: Served)
    ensures Turns(log + [s]) == Turns(log) + if s.turned then 1 else 0
  {
    assert (log + [s])[..|log|] == log;
  }

  lemma DonePlace(list: seq<Request>, p: nat, next: nat, i: nat)
    requires p < |list| && next < |list| && i < |list| && i != p
    ensures var l := DeleteAt(list[next := list[next].(blocked := false)], p); var j := if i < p then i else i - 1;
            j < |l| && l[j] == if i == next then list[i].(blocked := false) else list[i]
  {
  }

  /** The turns still to come depend only on where the request in service was and is. */
  lemma DoneTurns(e: Elevator, f: Elevator, i: nat, j: nat)
    requires var n, p := |e.list|, ActivePos(e.list);
             && p < n && i < n && i != p && j == (if i < p then i else i - 1)
             && f.up == Turn(e.up, n, p) && Turns(f.log) == Turns(e.log) + (if f.up != e.up then 1 else 0)
             && var next := NextReq(e.up, n, p);
                next.At? && i != next.pos && ActivePos(f.list) == if next.pos < p then next.pos else p
    ensures TurnsUntil(f, j) == TurnsUntil(e, i)
  {
    hide ActivePos; hide Turns;
  }

  /** After a request is done, a waiting one is in service or as far as before from the sweep that reaches it. */
  lemma DoneKeepsPlace(e: Elevator, i: nat)
    requires Inv(e) && i < |e.list| && e.list[i].blocked
    ensures ActivePos(e.list) < |e.list|
    ensures var p := ActivePos(e.list); var j := if i < p then i else i - 1; var f := Finish(e, p);
            i != p && j < |f.list| && f.list[j].id == e.list[i].id
            && (f.list[j].blocked ==> f.list[j] == e.list[i] && TurnsUntil(f, j) == TurnsUntil(e, i))
  {
    hide ActivePos; hide Sorted; hide Keys; hide Sweeps; hide Continues; hide DeleteAt; hide Turns; hide Signed;
    hide TurnsUntil; hide NextReq; hide Turn; hide OnlyAt;
    ActivePlace(e);
    var p := ActivePos(e.list);
    var next := NextReq(e.up, |e.list|, p);
    HandOver(e.list, p, next.pos);
    DonePlace(e.list, p, next.pos, i);
    LogTurns(e.log, Record(e, p));
    var j, f := if i < p then i else i - 1, Finish(e, p);
    if f.list[j].blocked {
      DoneTurns(e, f, i, j);
    }
  }

  lemma ActivePlace(e: Elevator)
    requires Inv(e) && e.list != []
    ensures ActivePos(e.list) < |e.list| && OnlyAt(e.list, ActivePos(e.list)) && !e.list[ActivePos(e.list)].blocked
    ensures forall i | 0 <= i < |e.list| :: e.list[i].idx < TWO32
    ensures |e.list| > 1 ==> NextReq(e.up, |e.list|, ActivePos(e.list)).At?
  {
  }

  /** `id` is in the queue, not yet served, after every prefix of the run. */
  ghost predicate WaitsThrough(e: Elevator, run: seq<Action>, id: nat)
    requires Inv(e)
  {
    forall n | 0 <= n <= |run| :: Waits(Run(e, run[..n]).list, id)
  }

  ghost predicate Waits(list: seq<Request>, id: nat) {
    exists i :: WaitsAt(list, id, i)
  }

  lemma SamePlace(list: seq<Request>, id: nat, i: nat, j: nat)
    requires Ids(list) && i < |list| && j < |list| && list[i].id == id && list[j].id == id
    ensures i == j
  {
  }

  lemma StepTurns(e: Elevator, a: Action, id: nat, i: nat, j: nat)
    requires Inv(e) && WaitsAt(e.list, id, i) && WaitsAt(Apply(e, a).list, id, j)
    ensures TurnsUntil(Apply(e, a), j) == TurnsUntil(e, i)
  {
    hide Submit; hide Finish; hide ActivePos; hide Place; hide TurnsUntil; hide Sorted; hide Keys;
    var f := Apply(e, a);
    if a.Arrive? && a.idx < TWO32 && !Queued(e.list, a.id) {
      ArrivalKeepsPlace(e, a.id, a.idx, i);
      var k := Place(Keys(e.list), Signed(a.idx));
      SamePlace(f.list, id, if i < k then i else i + 1, j);
    } else if a.Done? {
      DoneKeepsPlace(e, i);
      SamePlace(f.list, id, if i < ActivePos(e.list) then i else i - 1, j);
    } else {
      SamePlace(e.list, id, i, j);
    }
  }

  /** Over any run during which a request waits, the elevator turns at most once. */
  lemma {:induction false} AtMostOneTurn(e: Elevator, run: seq<Action>, id: nat, i: nat)
    requires Inv(e) && WaitsThrough(e, run, id) && WaitsAt(e.list, id, i)
    ensures Turns(Run(e, run).log) <= Turns(e.log) + 1
    ensures exists j :: WaitsAt(Run(e, run).list, id, j) && TurnsUntil(Run(e, run), j) == TurnsUntil(e, i)
    decreases |run|
  {
    hide Inv; hide Apply; hide ActivePos;
    if run == [] {
      assert WaitsAt(Run(e, run).list, id, i);
    } else {
      var n := |run| - 1;
      assert forall m | 0 <= m <= n :: run[..n][..m] == run[..m];
      AtMostOneTurn(e, run[..n], id, i);
      var k :| WaitsAt(Run(e, run[..n]).list, id, k) && TurnsUntil(Run(e, run[..n]), k) == TurnsUntil(e, i);
      assert run[..|run|] == run;
      assert Waits(Run(e, run[..|run|]).list, id);
      var j: nat :| WaitsAt(Run(e, run).list, id, j);
      StepTurns(Run(e, run[..n]), run[n], id, k, j);
    }
  }

  /** The device with its request list, updated in place. A request is named by its place in the list. */
  class Device {
    var requests: seq<Request>
    var up: bool
    ghost var log: seq<Served>

    ghost function Abs(): Elevator
      reads this
    {
      Elevator(requests, up, log)
    }

    ghost predicate Valid()
      reads this
    {
      Inv(Abs())
    }

    constructor ()
      ensures Valid() && Abs() == Start()
    {
      requests, up, log := [], true, [];
    }

    /** The first half of device_request; `blocks` tells whether the caller goes to sleep. */
    method Enter(id: nat, idx: nat) returns (blocks: bool)
      requires Valid() && idx < TWO32 && !Queued(requests, id)
      modifies this
      ensures Valid() && Abs() == Submit(old(Abs()), id, idx) && blocks == (old(requests) != [])
    {
      hide Sorted; hide Place; hide OneActive; hide Sweeps; hide Continues;
      SubmitInv(Abs(), id, idx);
      blocks := requests != [];
      var k := 0;
      while k < |requests| && Signed(requests[k].idx) <= Signed(idx)
        invariant k <= |requests| && forall i | 0 <= i < k :: Keys(requests)[i] <= Signed(idx)
      {
        k := k + 1;
      }
      PlaceUnique(Keys(requests), Signed(idx), k);
      requests := InsertAt(requests, k, Request(id, idx, blocks, blocks));
    }

    method NextRequest(p: nat) returns (next: Neighbour)
      requires p < |requests|
      modifies this`up
      ensures up == Turn(old(up), |requests|, p) && next == NextReq(old(up), |requests|, p)
    {
      if up && p + 1 == |requests| {
        up := false;
      } else if !up && p == 0 {
        up := true;
      }
      if up {
        next := if p + 1 == |requests| then None else At(p + 1);
      } else {
        next := if p == 0 then None else At(p - 1);
      }
    }

    /** The second half of device_request, run by the task whose request at place `p` has been carried out. The
        request that takes over is the one that was next, and it had a task to wake. */
    method Leave(p: nat)
      requires Valid() && requests != [] && p == ActivePos(requests)
      modifies this
      ensures Valid() && Abs() == Finish(old(Abs()), p)
    {
      hide Ids; hide Sorted; hide OneActive; hide Sweeps; hide Continues; hide ActivePos;
      FinishInv(Abs());
      FinishList(Abs());
      ghost var e := Abs();
      ActiveBound(e);
      var next := NextRequest(p);
      log := log + [Record(e, p)];
      if next.At? {
        assert requests[next.pos].task;
        requests := requests[next.pos := requests[next.pos].(blocked := false)];
      }
      requests := DeleteAt(requests, p);
    }

    lemma ActiveBound(e: Elevator)
      requires Inv(e) && e.list != []
      ensures ActivePos(e.list) < |e.list| && forall i | 0 <= i < |e.list| :: e.list[i].idx < TWO32
    {
    }
  }
}
