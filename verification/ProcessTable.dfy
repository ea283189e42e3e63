/** The task table as fork, exit and waitpid update it in place. Every method refines ProcessTree. */
module ProcessTable {
  import opened ProcessTree

  class ProcessTable {
    const table: array<Slot>
    var current: nat
    var halted: bool
    var births: nat
    ghost var exited: seq<Ended>
    ghost var reaped: seq<Ended>

    ghost function Abs(): Tree
      reads this, table
    {
      Tree(table[..], current, births, exited, reaped, halted)
    }

    ghost predicate Valid()
      reads this, table
    {
      Inv(Abs())
    }

    constructor ()
      ensures Valid() && fresh(table) && Abs() == Start()
    {
      hide Inv;
      table := new Slot[NR_TASKS](i requires 0 <= i < NR_TASKS => StartSlot(i));
      current, halted, births, exited, reaped := 1, false, 3, [], [];
      new;
      assert table[..] == Start().table;
      StartInv();
    }

    /** The search of get_free_task; NR_TASKS if there is none. */
    method GetFreeTask() returns (i: nat)
      ensures i == FreeSlot(table[..], 0) <= table.Length
    {
      i := 0;
      while i < table.Length && table[i].Task?
        invariant i <= table.Length && FreeSlot(table[..], i) == FreeSlot(table[..], 0)
      {
        i := i + 1;
      }
    }

    method TaskFork() returns (pid: nat)
      requires Valid() && Acts(Abs()) && !table[current].proc.waiting
      modifies this, table
      ensures Valid() && Abs() == Fork(old(Abs())) && pid == FreeSlot(old(table[..]), 0)
    {
      hide Inv; hide FreeSlot;
      ghost var t := Abs();
      CurrentFacts(t);
      ForkInv(t);
      pid := GetFreeTask();
      if pid == table.Length {
        halted := true;
        return;
      }
      var child := table[current].proc.(ppid := current, state := Ready, waiting := false, birth := births);
      table[pid] := Task(child);
      births := births + 1;
      assert table[..] == t.table[pid := Task(child)];
    }

    method TaskExit(status: int)
      requires Valid() && Acts(Abs()) && !table[current].proc.waiting
      modifies this, table
      ensures Valid() && Abs() == Exit(old(Abs()), status)
    {
      hide Inv; hide Awaits;
      ghost var t := Abs();
      CurrentFacts(t);
      ExitInv(t, status);
      table[current] := Task(table[current].proc.(state := Dead, status := status));
      exited := exited + [Ended(table[current].proc.birth, status)];
      ghost var died := table[..];
      assert died == t.table[current := Task(t.table[current].proc.(state := Dead, status := status))];
      var heir := table[current].proc.ppid;
      var i := 0;
      while i < NR_TASKS
        invariant 0 <= i <= NR_TASKS
        invariant forall j | 0 <= j < NR_TASKS :: table[j] == if j < i then Adopted(died[j], current, heir) else died[j]
        modifies table
      {
        if table[i].Task? && table[i].proc.ppid == current {
          table[i] := Task(table[i].proc.(ppid := heir));
        }
        i := i + 1;
      }
      assert table[..] == Adopt(died, current, heir);
      var parent := table[heir].proc;
      ghost var moved := table[..];
      assert moved == Adopt(died, t.current, t.table[t.current].proc.ppid);
      assert parent == moved[heir].proc;
      if Awaits(parent, current) {
        table[heir] := Task(parent.(state := Ready));
      }
      assert table[..] == if Awaits(parent, current) then moved[heir := Task(parent.(state := Ready))] else moved;
    }

    /** The scan of task_waitpid. */
    method ScanChildren(pid: int) returns (r: Scanned)
      requires table.Length == NR_TASKS && current < NR_TASKS
      ensures r == Scan(table[..], current, pid, FIRST)
    {
      var hasChild := false;
      var i := FIRST;
      while i < NR_TASKS
        invariant FIRST <= i <= NR_TASKS
        invariant Scan(table[..], current, pid, FIRST) ==
                  var rest := Scan(table[..], current, pid, i);
                  if hasChild && rest.Childless? then StillRunning else rest
      {
        if Match(table[i], i, current, pid) {
          if table[i].proc.state.Dead? {
            return Found(i);
          }
          hasChild := true;
        }
        i := i + 1;
      }
      return if hasChild then StillRunning else Childless;
    }

    /** One pass of task_waitpid: not done if it blocks, else the pid and status, or -1. */
    method TaskWaitpid(pid: int) returns (done: bool, ret: int, status: int)
      requires Valid() && Acts(Abs())
      modifies this, table
      ensures Valid() && Abs() == WaitPass(old(Abs()), pid)
      ensures match Scan(old(table[..]), current, pid, FIRST)
              case Found(c) => done && ret == c && status == old(table[c]).proc.status
              case StillRunning => !done
              case Childless => done && ret == -1
    {
      hide Inv; hide Scan;
      ghost var t := Abs();
      CurrentFacts(t);
      PassInv(t, pid);
      var r := ScanChildren(pid);
      var p := table[current].proc;
      done, ret, status := true, -1, 0;
      match r {
        case Found(c) =>
          var child := table[c].proc;
          table[current] := Task(p.(waiting := false));
          table[c] := Null;
          reaped := reaped + [Ended(child.birth, child.status)];
          ret, status := c, child.status;
        case StillRunning =>
          table[current] := Task(p.(state := Waiting, waiting := true, waitpid := pid));
          done := false;
        case Childless =>
          table[current] := Task(p.(waiting := false));
      }
      assert table[..] == WaitPass(t, pid).table;
    }

    lemma PassInv(t: Tree, pid: int)
      requires Inv(t) && Acts(t)
      ensures Inv(WaitPass(t, pid)) && |t.table| == NR_TASKS
    {
      hide Inv; hide WaitPass; hide Scan;
      CurrentFacts(t);
      if Scan(t.table, t.current, pid, FIRST).Found? {
        ReapInv(t, pid, Scan(t.table, t.current, pid, FIRST).slot);
      } else {
        NoReapInv(t, pid);
      }
    }
  }
}
