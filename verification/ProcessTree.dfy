/** Fork, exit and waitpid (src/kernel/tasks.c). A task's pid is its slot in the task table. Births are numbered so
    that a process can be told from a later one in the same slot. */
module ProcessTree {
  const NR_TASKS: nat := 64
  const IDLE: nat := 0
  const FIRST: nat := 2
  const ANY: int := -1

  datatype State = Ready | Running | Blocked | Waiting | Dead

  /** `waiting` holds from the call of waitpid until it returns; `waitpid` is then its argument. */
  datatype Proc = Proc(ppid: nat, state: State, waiting: bool, waitpid: int, status: int, birth: nat)

  datatype Slot = Null | Task(proc: Proc)

  datatype Ended = Ended(birth: nat, status: int)

  /** `exited` and `reaped` record, in order, what exit() was told and what waitpid() returned. */
  datatype Tree = Tree(table: seq<Slot>, current: nat, births: nat, exited: seq<Ended>, reaped: seq<Ended>,
    halted: bool)

  // ---- the operations ----

  /** get_free_task's search; NR_TASKS if the table is full. */
  function FreeSlot(table: seq<Slot>, i: nat): (r: nat)
    requires i <= |table|
    ensures i <= r <= |table|
    ensures forall j | i <= j < r :: table[j].Task?
    ensures r < |table| ==> table[r].Null?
    decreases |table| - i
  {
    if i == |table| || table[i].Null? then i else FreeSlot(table, i + 1)
  }

  /** task_fork by the current task; a full table panics. */
  function Fork(t: Tree): Tree
    requires t.current < |t.table| && t.table[t.current].Task?
  {
    var p := t.table[t.current].proc;
    var i := FreeSlot(t.table, 0);
    if i == |t.table| then t.(halted := true)
    else t.(table := t.table[i := Task(p.(ppid := t.current, state := Ready, waiting := false, birth := t.births))],
            births := t.births + 1)
  }

  /** task_exit's loop: the children of `pid` become children of `heir`. */
  function Adopted(s: Slot, pid: nat, heir: nat): Slot {
    if s.Task? && s.proc.ppid == pid then Task(s.proc.(ppid := heir)) else s
  }

  function Adopt(table: seq<Slot>, pid: nat, heir: nat): (r: seq<Slot>)
    ensures |r| == |table| && forall i | 0 <= i < |table| :: r[i] == Adopted(table[i], pid, heir)
  {
    seq(|table|, i requires 0 <= i < |table| => Adopted(table[i], pid, heir))
  }

  predicate Awaits(p: Proc, pid: nat) {
    p.state.Waiting? && (p.waitpid == pid || p.waitpid == ANY)
  }

  /** task_exit by the current task, up to schedule(). */
  function Exit(t: Tree, status: int): Tree
    requires t.current < |t.table| && t.table[t.current].Task?
    requires var p := t.table[t.current].proc; p.ppid < |t.table| && t.table[p.ppid].Task?
  {
    var p := t.table[t.current].proc;
    var died := t.table[t.current := Task(p.(state := Dead, status := status))];
    var moved := Adopt(died, t.current, p.ppid);
    var parent := moved[p.ppid].proc;
    var woken := if Awaits(parent, t.current) then moved[p.ppid := Task(parent.(state := Ready))] else moved;
    t.(table := woken, exited := t.exited + [Ended(p.birth, status)])
  }

  /** A child of `me` that waitpid(pid) looks at. */
  predicate Match(s: Slot, i: nat, me: nat, pid: int) {
    s.Task? && s.proc.ppid == me && (pid == i || pid == ANY)
  }

  datatype Scanned = Found(slot: nat) | StillRunning | Childless

  /** The scan of task_waitpid from slot `i`. */
  function Scan(table: seq<Slot>, me: nat, pid: int, i: nat): (r: Scanned)
    requires i <= |table|
    ensures r.Found? ==>
            i <= r.slot < |table| && Match(table[r.slot], r.slot, me, pid) && table[r.slot].proc.state.Dead?
    ensures r.Found? ==> forall j | i <= j < r.slot && Match(table[j], j, me, pid) :: !table[j].proc.state.Dead?
    ensures !r.Found? ==> forall j | i <= j < |table| && Match(table[j], j, me, pid) :: !table[j].proc.state.Dead?
    ensures r.Childless? <==> forall j | i <= j < |table| :: !Match(table[j], j, me, pid)
    decreases |table| - i
  {
    if i == |table| then Childless
    else if !Match(table[i], i, me, pid) then Scan(table, me, pid, i + 1)
    else if table[i].proc.state.Dead? then Found(i)
    else
      var r := Scan(table, me, pid, i + 1);
      if r.Childless? then StillRunning else r
  }

  /** One pass of task_waitpid: reap, block, or give up. */
  function WaitPass(t: Tree, pid: int): Tree
    requires t.current < |t.table| && t.table[t.current].Task? && FIRST <= |t.table|
  {
    var p := t.table[t.current].proc;
    match Scan(t.table, t.current, pid, FIRST)
    case Found(c) =>
      var child := t.table[c].proc;
      var table := t.table[t.current := Task(p.(waiting := false))][c := Null];
      t.(table := table, reaped := t.reaped + [Ended(child.birth, child.status)])
    case StillRunning => t.(table := t.table[t.current := Task(p.(state := Waiting, waiting := true, waitpid := pid))])
    case Childless => t.(table := t.table[t.current := Task(p.(waiting := false))])
  }

  // ---- steps ----

  datatype Action =
    | DoFork
    | DoExit(status: int)
    | DoWait(pid: int)     // a call of waitpid, or its next pass after a wake-up
    | Leave(blocked: bool) // the current task yields, is preempted, or blocks on something else
    | Wake(slot: nat)      // a task blocked on something else becomes ready
    | Dispatch(slot: nat)  // the scheduler gives the processor to a ready task

  /** The current task acts only while it runs, and the idle task makes no system call. Inside waitpid the next act
      of a woken task is another pass. */
  function Apply(t: Tree, a: Action): Tree
    requires Inv(t)
  {
    var me := t.table[t.current].proc;
    if t.halted then t
    else
      match a
      case DoFork => if Acts(t) && !me.waiting then Fork(t) else t
      case DoExit(status) => if Acts(t) && !me.waiting then Exit(t, status) else t
      case DoWait(pid) => if Acts(t) then WaitPass(t, if me.waiting then me.waitpid else pid) else t
      case Leave(blocked) =>
        if me.state.Running? then
          var state := if blocked && Acts(t) && !me.waiting then Blocked else Ready;
          t.(table := t.table[t.current := Task(me.(state := state))])
        else t
      case Wake(i) =>
        if i < NR_TASKS && t.table[i].Task? && t.table[i].proc.state.Blocked? then
          t.(table := t.table[i := Task(t.table[i].proc.(state := Ready))])
        else t
      case Dispatch(i) =>
        if !me.state.Running? && i < NR_TASKS && t.table[i].Task? && t.table[i].proc.state.Ready? then
          t.(table := t.table[i := Task(t.table[i].proc.(state := Running))], current := i)
        else t
  }

  predicate Acts(t: Tree)
    requires t.current < |t.table| && t.table[t.current].Task?
  {
    t.current != IDLE && t.table[t.current].proc.state.Running?
  }

  // ---- invariants ----

  /** Every parent is a living task that is older than its child, so the tree has no cycle; idle is its root and
      the parent of init in slot 1. */
  ghost predicate Rooted(table: seq<Slot>) {
    && |table| == NR_TASKS && table[IDLE].Task? && table[IDLE].proc.ppid == IDLE
    && table[1].Task? && table[1].proc.ppid == IDLE
    && (table[IDLE].proc.state.Ready? || table[IDLE].proc.state.Running?) && !table[IDLE].proc.waiting
    && forall i | 0 <= i < NR_TASKS && table[i].Task? :: Reared(table, i)
  }

  ghost predicate Reared(table: seq<Slot>, i: nat)
    requires |table| == NR_TASKS && i < NR_TASKS && table[i].Task?
  {
    var p := table[i].proc;
    p.ppid < NR_TASKS && table[p.ppid].Task? && !table[p.ppid].proc.state.Dead?
    && (i != IDLE ==> table[p.ppid].proc.birth < p.birth)
  }

  ghost predicate Processor(t: Tree) {
    && |t.table| == NR_TASKS && t.current < NR_TASKS && t.table[t.current].Task?
    && forall i | 0 <= i < NR_TASKS && i != t.current && t.table[i].Task? :: !t.table[i].proc.state.Running?
  }

  ghost predicate HasChild(table: seq<Slot>, me: nat, pid: int, dead: bool) {
    exists j :: FIRST <= j < |table| && Match(table[j], j, me, pid) && (table[j].proc.state.Dead? <==> dead)
  }

  /** A task blocked in waitpid has a living matching child and no dead one; a task woken inside waitpid has a dead
      one. */
  ghost predicate NoLostExit(table: seq<Slot>) {
    forall i | 0 <= i < |table| && table[i].Task? ::
      var p := table[i].proc;
      (p.state.Waiting? ==> p.waiting && HasChild(table, i, p.waitpid, false) && !HasChild(table, i, p.waitpid, true))
      && (p.waiting && !p.state.Waiting? ==> HasChild(table, i, p.waitpid, true))
  }

  ghost predicate Births(t: Tree) {
    && (forall i | 0 <= i < |t.table| && t.table[i].Task? :: t.table[i].proc.birth < t.births)
    && (forall i, j | 0 <= i < j < |t.table| && t.table[i].Task? && t.table[j].Task? ::
      t.table[i].proc.birth != t.table[j].proc.birth)
  }

  /** Only the dead have exited, with their status, and nobody in the table has been reaped. */
  ghost predicate Standing(t: Tree) {
    forall i | 0 <= i < |t.table| && t.table[i].Task? ::
      var p := t.table[i].proc;
      (p.state.Dead? ==> Ended(p.birth, p.status) in t.exited)
      && (!p.state.Dead? ==> forall k | 0 <= k < |t.exited| :: t.exited[k].birth != p.birth)
      && forall k | 0 <= k < |t.reaped| :: t.reaped[k].birth != p.birth
  }

  /** Every exit is still a zombie with its status or has been reaped with it, and nothing is recorded twice. */
  ghost predicate Accounts(t: Tree) {
    && (forall k | 0 <= k < |t.exited| ::
      t.exited[k].birth < t.births && (t.exited[k] in t.reaped || Zombie(t.table, t.exited[k])))
    && (forall k | 0 <= k < |t.reaped| :: t.reaped[k] in t.exited)
    && (forall k, l | 0 <= k < l < |t.exited| :: t.exited[k].birth != t.exited[l].birth)
    && (forall k, l | 0 <= k < l < |t.reaped| :: t.reaped[k].birth != t.reaped[l].birth)
  }

  ghost predicate Ledger(t: Tree) {
    Births(t) && Standing(t) && Accounts(t)
  }

  ghost predicate Zombie(table: seq<Slot>, e: Ended) {
    exists i :: 0 <= i < |table| && ZombieAt(table, e, i)
  }

  predicate ZombieAt(table: seq<Slot>, e: Ended, i: nat)
    requires i < |table|
  {
    table[i].Task? && table[i].proc.state.Dead? && table[i].proc.birth == e.birth && table[i].proc.status == e.status
  }

  ghost predicate Inv(t: Tree) {
    Rooted(t.table) && Processor(t) && NoLostExit(t.table) && Ledger(t)
  }

  // ---- frame lemmas ----

  /** Same tasks, same parents, same dead ones; only who runs may differ. */
  ghost predicate SameFamily(a: seq<Slot>, b: seq<Slot>) {
    |a| == |b| && forall i | 0 <= i < |a| ::
      (a[i].Task? <==> b[i].Task?)
      && (a[i].Task? ==>
            var p, q := a[i].proc, b[i].proc;
            p.ppid == q.ppid && p.birth == q.birth && p.status == q.status && (p.state.Dead? <==> q.state.Dead?))
  }

  lemma FamilyChildren(a: seq<Slot>, b: seq<Slot>, me: nat, pid: int, dead: bool)
    requires SameFamily(a, b)
    ensures HasChild(a, me, pid, dead) <==> HasChild(b, me, pid, dead)
  {
    if HasChild(a, me, pid, dead) {
      var j :| FIRST <= j < |a| && Match(a[j], j, me, pid) && (a[j].proc.state.Dead? <==> dead);
      assert Match(b[j], j, me, pid);
    }
    if HasChild(b, me, pid, dead) {
      var j :| FIRST <= j < |b| && Match(b[j], j, me, pid) && (b[j].proc.state.Dead? <==> dead);
      assert Match(a[j], j, me, pid);
    }
  }

  predicate IdleRoots(table: seq<Slot>) {
    |table| == NR_TASKS && table[IDLE].Task? && (table[IDLE].proc.state.Ready? || table[IDLE].proc.state.Running?)
      && !table[IDLE].proc.waiting
  }

  lemma FamilyRooted(a: seq<Slot>, b: seq<Slot>)
    requires Rooted(a) && SameFamily(a, b) && IdleRoots(b)
    ensures Rooted(b)
  {
  }

  lemma FamilyLedger(t: Tree, u: Tree)
    requires Ledger(t) && SameFamily(t.table, u.table) && u.births == t.births && u.exited == t.exited
    requires u.reaped == t.reaped
    ensures Ledger(u)
  {
    forall k | 0 <= k < |u.exited| ensures u.exited[k] in u.reaped || Zombie(u.table, u.exited[k]) {
      if t.exited[k] !in t.reaped {
        var i :| 0 <= i < |t.table| && ZombieAt(t.table, t.exited[k], i);
        assert ZombieAt(u.table, u.exited[k], i);
      }
    }
  }

  lemma CurrentFacts(t: Tree)
    requires Inv(t)
    ensures |t.table| == NR_TASKS && t.current < NR_TASKS && t.table[t.current].Task?
    ensures var p := t.table[t.current].proc;
            p.birth < t.births && p.ppid < NR_TASKS && t.table[p.ppid].Task?
            && !t.table[p.ppid].proc.state.Dead?
              && (t.current != IDLE ==> t.table[p.ppid].proc.birth < p.birth && p.ppid != t.current)
  {
    hide NoLostExit;
  }

  predicate Schedulable(s: State) {
    s.Ready? || s.Running? || s.Blocked?
  }

  lemma RestateFamily(a: seq<Slot>, i: nat, state: State)
    requires i < |a| && a[i].Task? && Schedulable(state) && Schedulable(a[i].proc.state)
    ensures SameFamily(a, a[i := Task(a[i].proc.(state := state))])
  {
  }

  lemma RestateProcessor(t: Tree, i: nat, state: State, current: nat)
    requires |t.table| == NR_TASKS && i < NR_TASKS && t.table[i].Task? && current < NR_TASKS && t.table[current].Task?
    requires forall j | 0 <= j < NR_TASKS && t.table[j].Task? && j != i && j != current ::
             !t.table[j].proc.state.Running?
    requires state.Running? ==> current == i
    ensures Processor(t.(table := t.table[i := Task(t.table[i].proc.(state := state))], current := current))
  {
  }

  lemma RestateIdle(a: seq<Slot>, i: nat, state: State)
    requires Rooted(a) && i < NR_TASKS && a[i].Task? && Schedulable(state) && (i == IDLE ==> !state.Blocked?)
    ensures IdleRoots(a[i := Task(a[i].proc.(state := state))])
  {
  }

  /** One task changes between running, ready and blocked. */
  lemma RestateInv(t: Tree, i: nat, state: State, current: nat)
    requires Inv(t) && i < NR_TASKS && t.table[i].Task? && current < NR_TASKS && t.table[current].Task?
    requires Schedulable(state) && Schedulable(t.table[i].proc.state) && (i == IDLE ==> !state.Blocked?)
    requires forall j | 0 <= j < NR_TASKS && t.table[j].Task? && j != i && j != current ::
             !t.table[j].proc.state.Running?
    requires state.Running? ==> current == i
    ensures Inv(t.(table := t.table[i := Task(t.table[i].proc.(state := state))], current := current))
  {
    hide Rooted; hide NoLostExit; hide Ledger; hide SameFamily; hide Processor; hide IdleRoots;
    CurrentFacts(t);
    var u := t.(table := t.table[i := Task(t.table[i].proc.(state := state))], current := current);
    RestateFamily(t.table, i, state);
    RestateProcessor(t, i, state, current);
    RestateIdle(t.table, i, state);
    FamilyRooted(t.table, u.table);
    FamilyLedger(t, u);
    FamilyLostExit(t.table, i, state);
  }

  lemma FamilyLostExit(a: seq<Slot>, i: nat, state: State)
    requires NoLostExit(a) && i < |a| && a[i].Task?
    requires Schedulable(state) && Schedulable(a[i].proc.state)
    ensures NoLostExit(a[i := Task(a[i].proc.(state := state))])
  {
    hide HasChild; hide SameFamily;
    var b := a[i := Task(a[i].proc.(state := state))];
    RestateFamily(a, i, state);
    forall j | 0 <= j < |a| && a[j].Task?
      ensures HasChild(a, j, a[j].proc.waitpid, false) <==> HasChild(b, j, a[j].proc.waitpid, false)
      ensures HasChild(a, j, a[j].proc.waitpid, true) <==> HasChild(b, j, a[j].proc.waitpid, true)
    {
      FamilyChildren(a, b, j, a[j].proc.waitpid, false);
      FamilyChildren(a, b, j, a[j].proc.waitpid, true);
    }
  }

  // ---- fork ----

  lemma ForkLostExit(a: seq<Slot>, i: nat, p: Proc)
    requires NoLostExit(a) && i < |a| && a[i].Null? && !p.waiting && p.state.Ready?
    requires p.ppid < |a| && a[p.ppid].Task? && !a[p.ppid].proc.waiting
    ensures NoLostExit(a[i := Task(p)])
  {
    hide HasChild;
    var b := a[i := Task(p)];
    forall j | 0 <= j < |a| && a[j].Task? && a[j].proc.waiting
      ensures HasChild(b, j, a[j].proc.waitpid, false) <==> HasChild(a, j, a[j].proc.waitpid, false)
      ensures HasChild(b, j, a[j].proc.waitpid, true) <==> HasChild(a, j, a[j].proc.waitpid, true)
    {
      OtherChildren(a, b, i, j, a[j].proc.waitpid, false);
      OtherChildren(a, b, i, j, a[j].proc.waitpid, true);
    }
  }

  /** A slot that is not a child of `me` before or after a change does not matter to `me`. */
  lemma OtherChildren(a: seq<Slot>, b: seq<Slot>, i: nat, me: nat, pid: int, dead: bool)
    requires |a| == |b| && i < |a| && forall j | 0 <= j < |a| && j != i :: a[j] == b[j]
    requires (a[i].Task? ==> a[i].proc.ppid != me) && (b[i].Task? ==> b[i].proc.ppid != me)
    ensures HasChild(a, me, pid, dead) <==> HasChild(b, me, pid, dead)
  {
    if HasChild(a, me, pid, dead) {
      var j :| FIRST <= j < |a| && Match(a[j], j, me, pid) && (a[j].proc.state.Dead? <==> dead);
      assert Match(b[j], j, me, pid);
    }
    if HasChild(b, me, pid, dead) {
      var j :| FIRST <= j < |b| && Match(b[j], j, me, pid) && (b[j].proc.state.Dead? <==> dead);
      assert Match(a[j], j, me, pid);
    }
  }

  lemma ForkLedger(t: Tree, i: nat, p: Proc)
    requires Ledger(t) && i < |t.table| && t.table[i].Null? && p.birth == t.births && !p.state.Dead?
    ensures Ledger(t.(table := t.table[i := Task(p)], births := t.births + 1))
  {
    var u := t.(table := t.table[i := Task(p)], births := t.births + 1);
    forall k | 0 <= k < |u.exited| ensures u.exited[k] in u.reaped || Zombie(u.table, u.exited[k]) {
      if t.exited[k] !in t.reaped {
        var j :| 0 <= j < |t.table| && ZombieAt(t.table, t.exited[k], j);
        assert ZombieAt(u.table, u.exited[k], j);
      }
    }
    assert forall k | 0 <= k < |t.reaped| :: t.reaped[k] in t.exited;
    assert forall k | 0 <= k < |t.reaped| :: t.reaped[k].birth < t.births;
  }

  lemma ForkRooted(a: seq<Slot>, i: nat, p: Proc)
    requires Rooted(a) && i < NR_TASKS && a[i].Null?
    requires p.ppid < NR_TASKS && a[p.ppid].Task? && !a[p.ppid].proc.state.Dead? && a[p.ppid].proc.birth < p.birth
    ensures Rooted(a[i := Task(p)])
  {
  }

  lemma ForkProcessor(t: Tree, i: nat, p: Proc)
    requires Processor(t) && i < NR_TASKS && t.table[i].Null? && p.state.Ready?
    ensures Processor(t.(table := t.table[i := Task(p)], births := t.births + 1))
  {
  }

  lemma HaltInv(t: Tree)
    requires Inv(t)
    ensures Inv(t.(halted := true))
  {
    hide Rooted; hide NoLostExit;
  }

  lemma ForkInv(t: Tree)
    requires Inv(t) && Acts(t) && !t.table[t.current].proc.waiting
    ensures Inv(Fork(t))
  {
    hide Rooted; hide NoLostExit; hide FreeSlot; hide Ledger; hide Processor;
    CurrentFacts(t);
    var i := FreeSlot(t.table, 0);
    if i < |t.table| {
      var p := t.table[t.current].proc.(ppid := t.current, state := Ready, waiting := false, birth := t.births);
      ForkRooted(t.table, i, p);
      ForkLostExit(t.table, i, p);
      ForkLedger(t, i, p);
      ForkProcessor(t, i, p);
    } else {
      HaltInv(t);
    }
  }

  // ---- exit ----

  /** What exit leaves in a slot. */
  function AfterExit(s: Slot, i: nat, me: nat, heir: nat, status: int): Slot
  {
    var a := Adopted(s, me, heir);
    if s.Null? then Null
    else if i == me then Task(a.proc.(state := Dead, status := status))
    else if i == heir && Awaits(s.proc, me) then Task(a.proc.(state := Ready))
    else a
  }

  lemma ExitForm(t: Tree, status: int)
    requires |t.table| == NR_TASKS && t.current < NR_TASKS && t.table[t.current].Task?
    requires var p := t.table[t.current].proc; p.ppid < NR_TASKS && p.ppid != t.current && t.table[p.ppid].Task?
    ensures var p := t.table[t.current].proc; var u := Exit(t, status);
            |u.table| == NR_TASKS
            && forall i | 0 <= i < NR_TASKS :: u.table[i] == AfterExit(t.table[i], i, t.current, p.ppid, status)
  {
  }

  /** `b` is what the exit of `me` makes of `a`. */
  ghost predicate Exited(a: seq<Slot>, b: seq<Slot>, me: nat, heir: nat, status: int) {
    && |a| == |b| == NR_TASKS && me < NR_TASKS && heir < NR_TASKS && me != heir && me != IDLE
    && a[me].Task? && a[me].proc.ppid == heir && a[me].proc.state.Running? && !a[me].proc.waiting && a[heir].Task?
    && forall i | 0 <= i < NR_TASKS :: b[i] == AfterExit(a[i], i, me, heir, status)
  }

  lemma ExitRooted(a: seq<Slot>, b: seq<Slot>, me: nat, heir: nat, status: int)
    requires Rooted(a) && Exited(a, b, me, heir, status)
    ensures Rooted(b)
  {
    hide Reared;
    forall i | 0 <= i < NR_TASKS && b[i].Task? ensures Reared(b, i) {
      ExitReared(a, b, me, heir, status, i);
    }
  }

  lemma ExitReared(a: seq<Slot>, b: seq<Slot>, me: nat, heir: nat, status: int, i: nat)
    requires Rooted(a) && Exited(a, b, me, heir, status) && i < NR_TASKS && b[i].Task?
    ensures Reared(b, i)
  {
    assert Reared(a, i) && Reared(a, me);
  }

  /** A task that is neither the exiting one nor its parent keeps its children. */
  lemma ExitOthers(a: seq<Slot>, b: seq<Slot>, me: nat, heir: nat, status: int, w: nat, pid: int, dead: bool)
    requires Exited(a, b, me, heir, status) && w != me && w != heir
    ensures HasChild(a, w, pid, dead) <==> HasChild(b, w, pid, dead)
  {
    if HasChild(a, w, pid, dead) {
      var j :| FIRST <= j < |a| && Match(a[j], j, w, pid) && (a[j].proc.state.Dead? <==> dead);
      assert Match(b[j], j, w, pid);
    }
    if HasChild(b, w, pid, dead) {
      var j :| FIRST <= j < |b| && Match(b[j], j, w, pid) && (b[j].proc.state.Dead? <==> dead);
      assert Match(a[j], j, w, pid);
    }
  }

  /** What NoLostExit says of one task. */
  lemma WaitsFor(a: seq<Slot>, i: nat)
    requires NoLostExit(a) && i < |a| && a[i].Task? && a[i].proc.waiting
    ensures var p := a[i].proc;
            HasChild(a, i, p.waitpid, !p.state.Waiting?) && (p.state.Waiting? ==> !HasChild(a, i, p.waitpid, true))
  {
    hide HasChild;
  }

  /** A parent that waits for another child sees no difference. */
  lemma ExitUnseen(a: seq<Slot>, b: seq<Slot>, me: nat, heir: nat, status: int)
    requires Exited(a, b, me, heir, status) && me >= FIRST && a[heir].proc.waiting && !Awaits(a[heir].proc, me)
    requires var p := a[heir].proc;
             HasChild(a, heir, p.waitpid, !p.state.Waiting?)
               && (p.state.Waiting? ==> !HasChild(a, heir, p.waitpid, true))
    ensures var p := a[heir].proc; b[heir].proc.state.Waiting? == p.state.Waiting?
    ensures var p := a[heir].proc;
            HasChild(b, heir, p.waitpid, !p.state.Waiting?)
              && (p.state.Waiting? ==> !HasChild(b, heir, p.waitpid, true))
  {
    var p := a[heir].proc;
    var j :| FIRST <= j < |a| && Match(a[j], j, heir, p.waitpid) && (a[j].proc.state.Dead? <==> !p.state.Waiting?);
    assert Match(b[j], j, heir, p.waitpid);
    if p.state.Waiting? {
      forall k | FIRST <= k < |b| && Match(b[k], k, heir, p.waitpid) ensures !b[k].proc.state.Dead? {
        assert k == j;
      }
    }
  }

  /** The parent: it is woken and finds the exited child, or it waits for another child and sees no difference. */
  lemma ExitParent(a: seq<Slot>, b: seq<Slot>, me: nat, heir: nat, status: int)
    requires Rooted(a) && NoLostExit(a) && Exited(a, b, me, heir, status) && a[heir].proc.waiting
    requires me >= FIRST
    ensures var pid := a[heir].proc.waitpid; var p := b[heir].proc;
            (p.state.Waiting? ==> HasChild(b, heir, pid, false) && !HasChild(b, heir, pid, true))
            && (!p.state.Waiting? ==> HasChild(b, heir, pid, true))
  {
    hide Rooted; hide NoLostExit;
    WaitsFor(a, heir);
    if Awaits(a[heir].proc, me) {
      assert Match(b[me], me, heir, a[heir].proc.waitpid);
    } else {
      hide HasChild;
      ExitUnseen(a, b, me, heir, status);
    }
  }

  lemma ExitLostExit(a: seq<Slot>, b: seq<Slot>, me: nat, heir: nat, status: int)
    requires Rooted(a) && NoLostExit(a) && Exited(a, b, me, heir, status) && (me >= FIRST || heir == IDLE)
    ensures NoLostExit(b)
  {
    hide HasChild; hide Rooted;
    forall i | 0 <= i < |b| && b[i].Task?
      ensures var p := b[i].proc;
              (p.state.Waiting? ==> p.waiting && HasChild(b, i, p.waitpid, false) && !HasChild(b, i, p.waitpid, true))
              && (p.waiting && !p.state.Waiting? ==> HasChild(b, i, p.waitpid, true))
    {
      if i == heir {
        IdleRoot(a);
        if a[heir].proc.waiting {
          ExitParent(a, b, me, heir, status);
        }
      } else if i != me {
        ExitOthers(a, b, me, heir, status, i, a[i].proc.waitpid, false);
        ExitOthers(a, b, me, heir, status, i, a[i].proc.waitpid, true);
      }
    }
  }

  lemma IdleRoot(a: seq<Slot>)
    requires Rooted(a)
    ensures IdleRoots(a)
  {
  }

  lemma ExitZombie(a: seq<Slot>, b: seq<Slot>, me: nat, heir: nat, status: int, e: Ended)
    requires Exited(a, b, me, heir, status) && Zombie(a, e)
    ensures Zombie(b, e)
  {
    var j :| 0 <= j < |a| && ZombieAt(a, e, j);
    assert ZombieAt(b, e, j);
  }

  lemma NewZombie(a: seq<Slot>, b: seq<Slot>, me: nat, heir: nat, status: int)
    requires Exited(a, b, me, heir, status)
    ensures Zombie(b, Ended(a[me].proc.birth, status))
  {
    assert ZombieAt(b, Ended(a[me].proc.birth, status), me);
  }

  lemma ExitAccounts(t: Tree, u: Tree, heir: nat, status: int)
    requires Births(t) && Standing(t) && Accounts(t) && Exited(t.table, u.table, t.current, heir, status)
    requires u.births == t.births && u.reaped == t.reaped
    requires u.exited == t.exited + [Ended(t.table[t.current].proc.birth, status)]
    ensures Accounts(u)
  {
    hide Births; hide Zombie; hide AfterExit;
    var e := Ended(t.table[t.current].proc.birth, status);
    NewBirth(t, t.current);
    NewZombie(t.table, u.table, t.current, heir, status);
    assert forall k | 0 <= k < |t.exited| :: t.exited[k] in u.exited && t.exited[k].birth != e.birth;
    assert u.exited[|t.exited|] == e;
    forall k | 0 <= k < |u.exited| ensures u.exited[k] in u.reaped || Zombie(u.table, u.exited[k]) {
      if k < |t.exited| && t.exited[k] !in t.reaped {
        ExitZombie(t.table, u.table, t.current, heir, status, t.exited[k]);
      }
    }
  }

  lemma NewBirth(t: Tree, i: nat)
    requires Births(t) && i < |t.table| && t.table[i].Task?
    ensures t.table[i].proc.birth < t.births
  {
  }

  lemma ExitStanding(t: Tree, u: Tree, heir: nat, status: int)
    requires Births(t) && Standing(t) && Exited(t.table, u.table, t.current, heir, status) && u.births == t.births
    requires u.exited == t.exited + [Ended(t.table[t.current].proc.birth, status)] && u.reaped == t.reaped
    ensures Births(u) && Standing(u)
  {
    assert u.exited[|t.exited|] == Ended(t.table[t.current].proc.birth, status);
  }

  lemma ExitInv(t: Tree, status: int)
    requires Inv(t) && Acts(t) && !t.table[t.current].proc.waiting
    ensures Inv(Exit(t, status))
  {
    hide Rooted; hide NoLostExit; hide Births; hide Standing; hide Accounts; hide Exit; hide Exited; hide Processor;
    CurrentFacts(t);
    ExitIsExited(t, status);
    var u := Exit(t, status);
    var heir := t.table[t.current].proc.ppid;
    ExitRooted(t.table, u.table, t.current, heir, status);
    ExitLostExit(t.table, u.table, t.current, heir, status);
    ExitAccounts(t, u, heir, status);
    ExitStanding(t, u, heir, status);
  }

  lemma ExitIsExited(t: Tree, status: int)
    requires Inv(t) && Acts(t) && !t.table[t.current].proc.waiting
    ensures var u := Exit(t, status); var heir := t.table[t.current].proc.ppid;
            Exited(t.table, u.table, t.current, heir, status) && Processor(u) && (t.current >= FIRST || heir == IDLE)
            && u.births == t.births && u.reaped == t.reaped
            && u.exited == t.exited + [Ended(t.table[t.current].proc.birth, status)]
  {
    hide NoLostExit; hide Ledger; hide Rooted; hide AfterExit; hide Exit; hide Processor;
    CurrentFacts(t);
    InitOfIdle(t);
    ExitForm(t, status);
    ExitLog(t, status);
    ExitProcessor(t, status);
  }

  lemma InitOfIdle(t: Tree)
    requires Inv(t)
    ensures t.current == 1 ==> t.table[1].proc.ppid == IDLE
  {
    hide NoLostExit; hide Ledger; hide Reared;
  }

  lemma ExitLog(t: Tree, status: int)
    requires |t.table| == NR_TASKS && t.current < NR_TASKS && t.table[t.current].Task?
    requires var p := t.table[t.current].proc; p.ppid < NR_TASKS && p.ppid != t.current && t.table[p.ppid].Task?
    ensures var u := Exit(t, status);
            u.births == t.births && u.reaped == t.reaped && u.current == t.current
            && u.exited == t.exited + [Ended(t.table[t.current].proc.birth, status)]
  {
  }

  lemma ExitProcessor(t: Tree, status: int)
    requires Processor(t)
    requires var p := t.table[t.current].proc; p.ppid < NR_TASKS && p.ppid != t.current && t.table[p.ppid].Task?
    ensures Processor(Exit(t, status))
  {
    hide Exit;
    ExitForm(t, status);
    ExitLog(t, status);
  }

  // ---- waitpid ----

  /** `b` is `a` after `me` has reaped its dead child `c`. */
  ghost predicate Reaped(a: seq<Slot>, b: seq<Slot>, me: nat, c: nat) {
    && |a| == |b| == NR_TASKS && me < NR_TASKS && FIRST <= c < NR_TASKS && c != me && me != IDLE
    && a[me].Task? && a[me].proc.state.Running? && a[c].Task? && a[c].proc.state.Dead? && a[c].proc.ppid == me
    && b == a[me := Task(a[me].proc.(waiting := false))][c := Null]
  }

  lemma ReapReared(a: seq<Slot>, b: seq<Slot>, me: nat, c: nat, i: nat)
    requires Rooted(a) && Reaped(a, b, me, c) && i < NR_TASKS && b[i].Task?
    ensures Reared(b, i)
  {
    assert Reared(a, i);
  }

  lemma ReapRooted(a: seq<Slot>, b: seq<Slot>, me: nat, c: nat)
    requires Rooted(a) && Reaped(a, b, me, c)
    ensures Rooted(b)
  {
    hide Reared;
    forall i | 0 <= i < NR_TASKS && b[i].Task? ensures Reared(b, i) {
      ReapReared(a, b, me, c, i);
    }
  }

  lemma ReapLostExit(a: seq<Slot>, b: seq<Slot>, me: nat, c: nat)
    requires NoLostExit(a) && Reaped(a, b, me, c)
    ensures NoLostExit(b)
  {
    hide HasChild;
    var d := a[me := Task(a[me].proc.(waiting := false))];
    forall i, pid: int, dead | 0 <= i < |a| && i != me
      ensures HasChild(a, i, pid, dead) <==> HasChild(b, i, pid, dead) {
      FamilyChildren(a, d, i, pid, dead);
      OtherChildren(d, b, c, i, pid, dead);
    }
  }

  lemma ReapAccounts(t: Tree, u: Tree, c: nat)
    requires Standing(t) && Accounts(t) && Births(t) && Reaped(t.table, u.table, t.current, c)
    requires u.births == t.births && u.exited == t.exited
    requires u.reaped == t.reaped + [Ended(t.table[c].proc.birth, t.table[c].proc.status)]
    ensures Accounts(u)
  {
    hide Births;
    var e := Ended(t.table[c].proc.birth, t.table[c].proc.status);
    assert u.reaped[|t.reaped|] == e;
    forall k | 0 <= k < |u.exited| ensures u.exited[k] in u.reaped || Zombie(u.table, u.exited[k]) {
      if t.exited[k] in t.reaped {
        assert t.exited[k] in u.reaped;
      } else {
        var j :| 0 <= j < |t.table| && ZombieAt(t.table, t.exited[k], j);
        if j != c {
          assert ZombieAt(u.table, u.exited[k], j);
        }
      }
    }
  }

  lemma ReapStanding(t: Tree, u: Tree, c: nat)
    requires Standing(t) && Births(t) && Reaped(t.table, u.table, t.current, c) && u.births == t.births
    requires u.exited == t.exited
    requires u.reaped == t.reaped + [Ended(t.table[c].proc.birth, t.table[c].proc.status)]
    ensures Births(u) && Standing(u)
  {
    assert forall i | 0 <= i < |t.table| && i != c && t.table[i].Task? ::
      t.table[i].proc.birth != t.table[c].proc.birth;
  }

  lemma ReapInv(t: Tree, pid: int, c: nat)
    requires Inv(t) && Acts(t) && Scan(t.table, t.current, pid, FIRST) == Found(c)
    ensures Inv(WaitPass(t, pid))
  {
    hide Rooted; hide NoLostExit; hide Births; hide Standing; hide Accounts; hide Reaped; hide Processor;
    CurrentFacts(t);
    ReapIsReaped(t, pid, c);
    var u := WaitPass(t, pid);
    ReapRooted(t.table, u.table, t.current, c);
    ReapLostExit(t.table, u.table, t.current, c);
    ReapAccounts(t, u, c);
    ReapStanding(t, u, c);
  }

  lemma ReapIsReaped(t: Tree, pid: int, c: nat)
    requires Inv(t) && Acts(t) && Scan(t.table, t.current, pid, FIRST) == Found(c)
    ensures var u := WaitPass(t, pid); Reaped(t.table, u.table, t.current, c) && Processor(u)
  {
    hide Rooted; hide NoLostExit; hide Ledger;
  }

  /** A pass that finds no dead child leaves the table as it was, but for the caller's own state. */
  lemma NoReapInv(t: Tree, pid: int)
    requires Inv(t) && Acts(t) && !Scan(t.table, t.current, pid, FIRST).Found?
    ensures Inv(WaitPass(t, pid))
  {
    hide Rooted; hide NoLostExit; hide Ledger; hide SameFamily; hide IdleRoots; hide Processor;
    CurrentFacts(t);
    NoReapFamily(t, pid);
    var u := WaitPass(t, pid);
    FamilyRooted(t.table, u.table);
    FamilyLedger(t, u);
    NoReapLostExit(t, pid);
  }

  lemma UpdateFamily(t: Tree, p: Proc)
    requires IdleRoots(t.table) && Processor(t) && Acts(t) && !p.state.Dead?
    requires var q := t.table[t.current].proc; p.ppid == q.ppid && p.birth == q.birth && p.status == q.status
    ensures var u := t.(table := t.table[t.current := Task(p)]);
            SameFamily(t.table, u.table) && IdleRoots(u.table) && Processor(u)
  {
  }

  lemma NoReapFamily(t: Tree, pid: int)
    requires Inv(t) && Acts(t) && !Scan(t.table, t.current, pid, FIRST).Found?
    ensures SameFamily(t.table, WaitPass(t, pid).table) && IdleRoots(WaitPass(t, pid).table)
    ensures Processor(WaitPass(t, pid))
  {
    hide NoLostExit; hide Ledger; hide Rooted; hide SameFamily; hide Processor; hide IdleRoots; hide Scan;
    CurrentFacts(t);
    IdleRoot(t.table);
    var p := t.table[t.current].proc;
    UpdateFamily(t, p.(state := Waiting, waiting := true, waitpid := pid));
    UpdateFamily(t, p.(waiting := false));
  }

  lemma NoReapLostExit(t: Tree, pid: int)
    requires Inv(t) && Acts(t) && !Scan(t.table, t.current, pid, FIRST).Found?
    ensures NoLostExit(WaitPass(t, pid).table)
  {
    hide HasChild; hide Ledger; hide Rooted; hide SameFamily;
    NoReapFamily(t, pid);
    var b := WaitPass(t, pid).table;
    forall i, p: int, dead | 0 <= i < |b| ensures HasChild(t.table, i, p, dead) <==> HasChild(b, i, p, dead) {
      FamilyChildren(t.table, b, i, p, dead);
    }
    ScanChildren(t.table, t.current, pid);
  }

  lemma ScanChildren(a: seq<Slot>, me: nat, pid: int)
    requires |a| == NR_TASKS
    ensures var r := Scan(a, me, pid, FIRST);
            (r.Found? <==> HasChild(a, me, pid, true))
              && (r.StillRunning? <==> !HasChild(a, me, pid, true) && HasChild(a, me, pid, false))
  {
    var r := Scan(a, me, pid, FIRST);
    if r.StillRunning? {
      assert HasChild(a, me, pid, false) by {
        var j :| FIRST <= j < |a| && Match(a[j], j, me, pid);
      }
    }
  }

  /** A woken waiter's next pass always reaps: waitpid never blocks twice. */
  lemma WokenReaps(t: Tree)
    requires Inv(t) && Acts(t) && t.table[t.current].proc.waiting
    ensures Scan(t.table, t.current, t.table[t.current].proc.waitpid, FIRST).Found?
  {
    hide Rooted; hide Ledger; hide HasChild; hide Scan;
    ScanChildren(t.table, t.current, t.table[t.current].proc.waitpid);
  }

  /** A pass blocks exactly when a matching child lives and none is dead, and fails exactly when there is no match. */
  lemma PassOutcome(t: Tree, pid: int)
    requires Inv(t) && Acts(t)
    ensures |t.table| == NR_TASKS && t.current < NR_TASKS && t.current < |WaitPass(t, pid).table|
    ensures WaitPass(t, pid).table[t.current].Task?
    ensures var u := WaitPass(t, pid); var me := t.current;
            (|u.reaped| == |t.reaped| + 1 <==> HasChild(t.table, me, pid, true))
            && (u.table[me].proc.state.Waiting? <==>
              !HasChild(t.table, me, pid, true) && HasChild(t.table, me, pid, false))
  {
    hide NoLostExit; hide Ledger; hide HasChild;
    ScanChildren(t.table, t.current, pid);
  }

  // ---- the exact effect of each call ----

  /** The fork filled slot `i`, the first empty one, with a ready child of the caller that nobody has been before. */
  ghost predicate ForkedInto(t: Tree, u: Tree, i: nat) {
    && FIRST <= i < |t.table| == |u.table| && t.table[i].Null? && (forall j | 0 <= j < i :: t.table[j].Task?)
    && (forall j | 0 <= j < |t.table| && j != i :: u.table[j] == t.table[j])
    && u.table[i].Task?
    && (var p := u.table[i].proc; p.ppid == t.current && p.state.Ready? && !p.waiting && p.birth == t.births)
    && (forall j | 0 <= j < |t.table| && t.table[j].Task? :: t.table[j].proc.birth < t.births)
    && (forall e | e in t.exited :: e.birth < t.births)
    && u.births == t.births + 1 && u.current == t.current && u.exited == t.exited && u.reaped == t.reaped
  }

  /** fork panics exactly on a full table; otherwise exactly the first empty slot changes, to a new child of the
      caller. */
  lemma ForkExact(t: Tree)
    requires Inv(t) && Acts(t) && !t.halted && !t.table[t.current].proc.waiting
    ensures |t.table| == NR_TASKS && t.current < NR_TASKS && t.table[t.current].Task?
    ensures Fork(t).halted <==> forall i | 0 <= i < NR_TASKS :: t.table[i].Task?
    ensures !Fork(t).halted ==> exists i :: ForkedInto(t, Fork(t), i)
  {
    hide NoLostExit; hide Reared; hide Standing; hide FreeSlot;
    CurrentFacts(t);
    var i := FreeSlot(t.table, 0);
    if i < NR_TASKS {
      assert i != 0 && i != 1;
      forall e | e in t.exited ensures e.birth < t.births {
        var k :| 0 <= k < |t.exited| && t.exited[k] == e;
      }
      assert ForkedInto(t, Fork(t), i);
    }
  }

  /** Only the state of the task in slot `i` changes, to `state`. */
  ghost predicate Becomes(t: Tree, r: Tree, i: nat, state: State) {
    && i < |t.table| == |r.table| && t.table[i].Task?
    && r == t.(table := r.table, current := r.current)
    && r.table == t.table[i := Task(t.table[i].proc.(state := state))]
  }

  /** A running task that gives way is ready again, or blocked on something else; inside waitpid and in idle it does
      not block so. */
  lemma LeaveExact(t: Tree, blocked: bool)
    requires Inv(t) && !t.halted
    ensures |t.table| == 64 && t.current < 64 && t.table[t.current].Task?
    ensures var me := t.table[t.current].proc;
            me.state == Running ==>
              && Becomes(t, Apply(t, Leave(blocked)), t.current,
                         if blocked && t.current != 0 && !me.waiting then Blocked else Ready)
              && Apply(t, Leave(blocked)).current == t.current
  {
    hide Inv; hide Fork; hide Exit; hide WaitPass;
    CurrentFacts(t);
  }

  /** A blocked task that is woken is ready, and one that waits for a child is not woken by this; the scheduler lets a
      ready task run when no other does. */
  lemma WakeExact(t: Tree, i: nat)
    requires Inv(t) && !t.halted && i < 64
    ensures |t.table| == 64 && t.current < 64 && t.table[t.current].Task?
    ensures t.table[i].Task? && t.table[i].proc.state == Blocked ==>
              Becomes(t, Apply(t, Wake(i)), i, Ready) && Apply(t, Wake(i)).current == t.current
    ensures t.table[i].Task? && t.table[i].proc.state == Waiting ==> Apply(t, Wake(i)) == t
    ensures t.table[i].Task? && t.table[i].proc.state == Ready && t.table[t.current].proc.state != Running ==>
              Becomes(t, Apply(t, Dispatch(i)), i, Running) && Apply(t, Dispatch(i)).current == i
  {
    hide Inv; hide Fork; hide Exit; hide WaitPass;
    CurrentFacts(t);
  }

  /** The child can be waited for at once: waitpid for its pid blocks, and waitpid for any child does not fail. */
  lemma ForkThenWait(t: Tree, i: nat)
    requires Inv(t) && Acts(t) && !t.halted && !t.table[t.current].proc.waiting && ForkedInto(t, Fork(t), i)
    ensures Inv(Fork(t)) && Acts(Fork(t)) && Fork(t).current == t.current < |WaitPass(Fork(t), i).table|
    ensures var u := WaitPass(Fork(t), i);
            u.table[t.current].Task? && u.table[t.current].proc.state.Waiting? && u.table[t.current].proc.waitpid == i
    ensures Scan(Fork(t).table, t.current, ANY, FIRST) != Childless
  {
    hide Rooted; hide NoLostExit; hide Ledger; hide Fork; hide Inv;
    ForkInv(t);
    CurrentFacts(t);
    var u := Fork(t);
    CurrentFacts(u);
    assert Match(u.table[i], i, t.current, i) && Match(u.table[i], i, t.current, ANY);
    OnlyMatch(u.table, t.current, i);
  }

  /** A pid names one slot. */
  lemma OnlyMatch(table: seq<Slot>, me: nat, i: nat)
    requires FIRST <= i < |table| && Match(table[i], i, me, i) && !table[i].proc.state.Dead?
    ensures Scan(table, me, i, FIRST) == StillRunning
  {
  }

  /** exit: the caller is dead with its status, its children have its parent, the parent is ready exactly if it was
      waiting for the caller or for anybody, and nothing else changes. */
  lemma ExitExact(t: Tree, status: int)
    requires Inv(t) && Acts(t) && !t.halted && !t.table[t.current].proc.waiting
    ensures |t.table| == NR_TASKS && t.current < NR_TASKS && t.table[t.current].Task?
    ensures var u, me, p := Exit(t, status), t.current, t.table[t.current].proc;
            && |u.table| == NR_TASKS && u.current == me && u.births == t.births && u.reaped == t.reaped && !u.halted
            && p.ppid != me
            && u.exited == t.exited + [Ended(p.birth, status)]
            && u.table[me] == Task(Proc(p.ppid, Dead, false, p.waitpid, status, p.birth))
            && forall i | 0 <= i < NR_TASKS && i != me ::
                 if t.table[i].Null? then u.table[i].Null?
                 else
                   var q, r := t.table[i].proc, u.table[i];
                   && r.Task? && r.proc.ppid == (if q.ppid == me then p.ppid else q.ppid)
                   && r.proc.state == (if i == p.ppid && q.state == Waiting && (q.waitpid == me || q.waitpid == -1)
                                       then Ready else q.state)
                   && r.proc.waiting == q.waiting && r.proc.waitpid == q.waitpid && r.proc.status == q.status
                   && r.proc.birth == q.birth
  {
    hide NoLostExit; hide Ledger; hide Rooted; hide Exit;
    CurrentFacts(t);
    ExitForm(t, status);
    ExitLog(t, status);
    ExitRuns(t, status);
  }

  lemma ExitRuns(t: Tree, status: int)
    requires t.current < |t.table| && t.table[t.current].Task?
    requires var p := t.table[t.current].proc; p.ppid < |t.table| && t.table[p.ppid].Task?
    ensures Exit(t, status).halted == t.halted
  {
  }

  /** Slot `c` is the first dead child of the caller that `pid` asks for. */
  ghost predicate FirstDead(t: Tree, pid: int, c: nat) {
    && FIRST <= c < |t.table| && t.table[c].Task? && t.table[c].proc.ppid == t.current && (pid == c || pid == -1)
    && t.table[c].proc.state == Dead
    && forall j | FIRST <= j < c && t.table[j].Task? && t.table[j].proc.ppid == t.current && (pid == j || pid == -1) ::
         t.table[j].proc.state != Dead
  }

  /** A pass of waitpid that finds a dead child: the first one leaves the table, its status is recorded, and the call
      is over. */
  lemma WaitReaps(t: Tree, pid: int, c: nat)
    requires Inv(t) && Acts(t) && FirstDead(t, pid, c)
    ensures t.current < |t.table| && t.table[t.current].Task?
    ensures WaitPass(t, pid) == t.(
              table := t.table[t.current := Task(t.table[t.current].proc.(waiting := false))][c := Null],
              reaped := t.reaped + [Ended(t.table[c].proc.birth, t.table[c].proc.status)])
  {
    hide Rooted; hide NoLostExit; hide Ledger; hide Scan;
    CurrentFacts(t);
    FirstIs(t, pid, c);
  }

  /** The caller has a child that `pid` asks for. */
  ghost predicate Asked(t: Tree, pid: int) {
    exists j :: FIRST <= j < |t.table| && t.table[j].Task? && t.table[j].proc.ppid == t.current
      && (pid == j || pid == -1)
  }

  /** A pass that finds no dead child: the caller blocks if it has a child that it asks for, and otherwise the call
      is over; nothing else changes. */
  lemma WaitElse(t: Tree, pid: int)
    requires Inv(t) && Acts(t) && forall c :: !FirstDead(t, pid, c)
    ensures t.current < |t.table| && t.table[t.current].Task?
    ensures var p := t.table[t.current].proc;
            var q := if Asked(t, pid) then p.(state := Waiting, waiting := true, waitpid := pid)
                     else p.(waiting := false);
            WaitPass(t, pid) == t.(table := t.table[t.current := Task(q)])
  {
    hide Rooted; hide NoLostExit; hide Ledger; hide Scan; hide Asked; hide FirstDead;
    CurrentFacts(t);
    ScanSays(t, pid);
  }

  lemma ScanSays(t: Tree, pid: int)
    requires FIRST <= |t.table|
    ensures var r := Scan(t.table, t.current, pid, FIRST);
            (r.Found? ==> FirstDead(t, pid, r.slot)) && (r.Childless? <==> !Asked(t, pid))
  {
    var r := Scan(t.table, t.current, pid, FIRST);
    if r.Found? {
      forall j | FIRST <= j < r.slot && t.table[j].Task? && t.table[j].proc.ppid == t.current && (pid == j || pid == -1)
        ensures t.table[j].proc.state != Dead
      {
        assert Match(t.table[j], j, t.current, pid);
      }
    }
    if Asked(t, pid) {
      var j :| FIRST <= j < |t.table| && t.table[j].Task? && t.table[j].proc.ppid == t.current
               && (pid == j || pid == -1);
      assert Match(t.table[j], j, t.current, pid);
    }
  }

  lemma FirstIs(t: Tree, pid: int, c: nat)
    requires FirstDead(t, pid, c)
    ensures Scan(t.table, t.current, pid, FIRST) == Found(c)
  {
    ScanSays(t, pid);
    assert Match(t.table[c], c, t.current, pid);
  }

  lemma ZombieParent(t: Tree, i: nat)
    requires Inv(t) && i < NR_TASKS && t.table[i].Task? && t.table[i].proc.state.Dead?
    ensures var m := t.table[i].proc.ppid;
            |t.table| == NR_TASKS && m < NR_TASKS && t.table[m].Task? && !t.table[m].proc.state.Dead?
              && (m != IDLE ==> i >= FIRST)
  {
    hide NoLostExit; hide Ledger;
    assert Reared(t.table, i);
  }

  lemma DeadChild(table: seq<Slot>, m: nat, i: nat, pid: int)
    requires FIRST <= i < |table| && table[i].Task? && table[i].proc.ppid == m && table[i].proc.state.Dead?
    requires (pid == i || pid == ANY)
    ensures HasChild(table, m, pid, true)
  {
    assert Match(table[i], i, m, pid);
  }

  /** Whoever is dead has a living parent, and any parent but idle can reap it. */
  lemma ZombieReapable(t: Tree, i: nat)
    requires Inv(t) && i < NR_TASKS && t.table[i].Task? && t.table[i].proc.state.Dead?
    ensures var m := t.table[i].proc.ppid;
            m < NR_TASKS && t.table[m].Task? && !t.table[m].proc.state.Dead?
            && (m != IDLE ==> Scan(t.table, m, i, FIRST) == Found(i) && Scan(t.table, m, ANY, FIRST).Found?)
  {
    hide NoLostExit; hide Ledger; hide Scan; hide Rooted; hide Processor; hide HasChild;
    ZombieParent(t, i);
    var m := t.table[i].proc.ppid;
    if m != IDLE {
      DeadChild(t.table, m, i, i);
      DeadChild(t.table, m, i, ANY);
      ScanChildren(t.table, m, i);
      ScanChildren(t.table, m, ANY);
    }
  }

  // ---- runs ----

  lemma ApplyInv(t: Tree, a: Action)
    requires Inv(t)
    ensures Inv(Apply(t, a))
  {
    hide Rooted; hide NoLostExit; hide Ledger; hide Fork; hide Exit; hide WaitPass;
    CurrentFacts(t);
    RunnerAwake(t);
    var me := t.table[t.current].proc;
    if !t.halted {
      match a
      case DoFork =>
        if Acts(t) && !me.waiting {
          ForkInv(t);
        }
      case DoExit(status) =>
        if Acts(t) && !me.waiting {
          ExitInv(t, status);
        }
      case DoWait(pid) =>
        if Acts(t) {
          var w := if me.waiting then me.waitpid else pid;
          if Scan(t.table, t.current, w, FIRST).Found? {
            ReapInv(t, w, Scan(t.table, t.current, w, FIRST).slot);
          } else {
            NoReapInv(t, w);
          }
        }
      case Leave(blocked) =>
        if me.state.Running? {
          RestateInv(t, t.current, if blocked && Acts(t) && !me.waiting then Blocked else Ready, t.current);
        }
      case Wake(i) =>
        if i < NR_TASKS && t.table[i].Task? && t.table[i].proc.state.Blocked? {
          RestateInv(t, i, Ready, t.current);
        }
      case Dispatch(i) =>
        if !me.state.Running? && i < NR_TASKS && t.table[i].Task? && t.table[i].proc.state.Ready? {
          RestateInv(t, i, Running, i);
        }
    }
  }

  lemma RunnerAwake(t: Tree)
    requires Inv(t)
    ensures IdleRoots(t.table)
  {
  }

  ghost function Run(t: Tree, run: seq<Action>): (r: Tree)
    requires Inv(t)
    ensures Inv(r)
    decreases |run|
  {
    if run == [] then t else
      ApplyInv(Run(t, run[..|run| - 1]), run[|run| - 1]);
      Apply(Run(t, run[..|run| - 1]), run[|run| - 1])
  }

  /** Idle in slot 0, init running in slot 1, the test thread in slot 2, all children of idle. */
  function StartSlot(i: nat): Slot {
    if i > 2 then Null else Task(Proc(IDLE, if i == 1 then Running else Ready, false, 0, 0, i))
  }

  function Start(): (t: Tree)
    ensures |t.table| == NR_TASKS && forall i | 0 <= i < NR_TASKS :: t.table[i] == StartSlot(i)
  {
    Tree(seq(NR_TASKS, i requires 0 <= i < NR_TASKS => StartSlot(i)), 1, 3, [], [], false)
  }

  lemma StartRooted()
    ensures Rooted(Start().table)
  {
    hide Start;
    var a := Start().table;
    assert a[IDLE] == StartSlot(0) && a[1] == StartSlot(1);
  }

  lemma StartInv()
    ensures Inv(Start())
  {
    hide Rooted; hide HasChild;
    StartRooted();
    assert Start().table[1] == StartSlot(1);
  }

  /** Over every run: parents are alive, waiters have a living child and no dead one, and every exit is a zombie
      with its status or was reaped with that status exactly once. */
  lemma Reachable(run: seq<Action>)
    ensures Inv(Start())
    ensures var t := Run(Start(), run);
            (forall i | 0 <= i < |t.table| && t.table[i].Task? ::
               var p := t.table[i].proc;
                 p.ppid < |t.table| && t.table[p.ppid].Task? && !t.table[p.ppid].proc.state.Dead?)
            && (forall i | 0 <= i < |t.table| && t.table[i].Task? && t.table[i].proc.state.Waiting? ::
                  HasChild(t.table, i, t.table[i].proc.waitpid, false)
                    && !HasChild(t.table, i, t.table[i].proc.waitpid, true))
            && (forall e | e in t.exited :: e in t.reaped <==> !Zombie(t.table, e))
            && (forall k, l | 0 <= k < l < |t.reaped| :: t.reaped[k].birth != t.reaped[l].birth)
            && (forall e | e in t.reaped :: e in t.exited)
  {
    hide Births; hide Standing; hide Zombie; hide HasChild; hide Processor; hide Start; hide Run;
    StartInv();
    InvSays(Run(Start(), run));
  }

  lemma InvSays(t: Tree)
    requires Inv(t)
    ensures forall e | e in t.exited :: e in t.reaped <==> !Zombie(t.table, e)
    ensures forall e | e in t.reaped :: e in t.exited
  {
    hide Rooted; hide NoLostExit;
    forall e | e in t.exited && e in t.reaped ensures !Zombie(t.table, e) {
      var k :| 0 <= k < |t.reaped| && t.reaped[k] == e;
    }
  }
}
