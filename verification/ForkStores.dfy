/** Fork and the stores after it: what the program image, the faults, mmap and fork do to the flag bits keeps every
    page that was writable storable for parent and child. */
module ForkStores {
  import opened Counting
  import opened Frames
  import opened AddressSpaces
  import opened Paging
  import opened PagingEffects
  import opened CopyOnWrite

  /** No page is both writable and read-only, and every page lies below the top of the stack. */
  ghost predicate Tidy(m: Machine) {
    && (forall s | s in m.flags :: !(m.flags[s].write && m.flags[s].readonly))
    && (forall s | s in m.frames :: s.vpn < STACK_TOP_PAGE)
  }

  /** Entry `s` is absent or tidy. */
  predicate TidyAt(m: Machine, s: Slot) {
    && (s in m.flags ==> !(m.flags[s].write && m.flags[s].readonly))
    && (s in m.frames ==> s.vpn < STACK_TOP_PAGE)
  }

  lemma TidyAll(m: Machine)
    requires forall s :: TidyAt(m, s)
    ensures Tidy(m)
  {
    forall s | s in m.flags ensures !(m.flags[s].write && m.flags[s].readonly) {
      assert TidyAt(m, s);
    }
    forall s | s in m.frames ensures s.vpn < STACK_TOP_PAGE {
      assert TidyAt(m, s);
    }
  }

  lemma TidyKept(m: Machine, r: Machine, s: Slot)
    requires Tidy(m) && KeptPage(m, r, s)
    ensures TidyAt(r, s)
  {
  }

  lemma TidyBut(m: Machine, r: Machine, s: Slot)
    requires Tidy(m) && AllBut(m, r, s) && TidyAt(r, s)
    ensures Tidy(r)
  {
    forall u ensures TidyAt(r, u) {
      if u != s {
        assert KeptPage(m, r, u);
        TidyKept(m, r, u);
      }
    }
    TidyAll(r);
  }

  lemma TidyRange(m: Machine, r: Machine, p: Pid, lo: nat, hi: nat)
    requires Tidy(m) && AllButRange(m, r, p, lo, hi)
    requires forall v: nat | lo <= v < hi :: TidyAt(r, Slot(p, v))
    ensures Tidy(r)
  {
    forall u ensures TidyAt(r, u) {
      if u.pid == p && lo <= u.vpn < hi {
        assert TidyAt(r, Slot(p, u.vpn));
      } else {
        assert KeptPage(m, r, u);
        TidyKept(m, r, u);
      }
    }
    TidyAll(r);
  }

  lemma TidySame(m: Machine, r: Machine)
    requires Tidy(m) && r.frames == m.frames && r.flags == m.flags
    ensures Tidy(r)
  {
  }

  // ---- every action keeps the entries tidy ----

  lemma ExitTidy(m: Machine, p: Pid)
    requires Good(m) && !m.halted && p in m.spaces && Tidy(m)
    ensures Tidy(Exit(m, p))
  {
    hide Base; hide Cow; hide Tabled; hide Exit;
    var r := Exit(m, p);
    forall s ensures TidyAt(r, s) {
      if s.pid != p {
        assert KeptSlot(m, r, s);
      }
    }
    TidyAll(r);
  }

  lemma ForkTidy(m: Machine, p: Pid, c: Pid)
    requires Good(m) && !m.halted && p in m.spaces && c !in m.spaces && c < NR_TASKS && Tidy(m)
    requires !Fork(m, p, c).halted
    ensures Tidy(Fork(m, p, c))
  {
    hide Base; hide Cow; hide Good; hide Fork;
    var r := Fork(m, p, c);
    assert Mirrored(r, p, c, LAST_DIR * TABLE) && ParentKept(m, r, p, c);
    forall s ensures TidyAt(r, s) {
      SameKeys(m, s);
      SameKeys(r, s);
      SameKeys(m, Slot(p, s.vpn));
      SameKeys(r, Slot(p, s.vpn));
      if (s.pid == c || s.pid == p) && Slot(p, s.vpn) in m.flags {
        ForkFlags(m, p, c, s.vpn);
      }
    }
    TidyAll(r);
  }

  lemma FaultTidy(m: Machine, p: Pid, addr: nat, present: bool)
    requires Good(m) && !m.halted && p in m.spaces && (present <==> SlotOf(p, addr) in m.frames) && Tidy(m)
    requires !Fault(m, p, addr, present).halted
    ensures Tidy(Fault(m, p, addr, present))
  {
    hide Base; hide Cow; hide Tabled; hide AllBut; hide Others; hide PageOf; hide Exit; hide WriteFault; hide Tidy;
    hide FaultPanics;
    if EXEC_ADDR <= addr < STACK_TOP {
      FaultFlags(m, p, addr, present);
      TidyBut(m, Fault(m, p, addr, present), SlotOf(p, addr));
    } else {
      ExitTidy(m, p);
    }
  }

  lemma PokeEntries(m: Machine, p: Pid, addr: nat, b: Byte)
    requires Good(m) && Writable(m, SlotOf(p, addr))
    ensures Poke(m, p, addr, b).frames == m.frames && Poke(m, p, addr, b).flags == m.flags
    ensures Poke(m, p, addr, b).counts == m.counts && Poke(m, p, addr, b).free == m.free
    ensures Poke(m, p, addr, b).tables == m.tables
  {
    hide Base; hide Cow; hide Good;
  }

  lemma WriteTidy(m: Machine, p: Pid, addr: nat, b: Byte)
    requires Good(m) && !m.halted && p in m.spaces && Tidy(m) && !UserWrite(m, p, addr, b).halted
    ensures Tidy(UserWrite(m, p, addr, b))
  {
    hide Base; hide Cow; hide Tabled; hide AllBut; hide Others; hide Fault; hide PageOf; hide Poke; hide Good;
    hide FaultPanics; hide Holds; hide Stored; hide SlotOf; hide Tidy;
    var s := SlotOf(p, addr);
    if Writable(m, s) {
      PokeEntries(m, p, addr, b);
      TidySame(m, Poke(m, p, addr, b));
    } else {
      FaultTidy(m, p, addr, s in m.frames);
      var n := Fault(m, p, addr, s in m.frames);
      if p in n.spaces {
        PokeEntries(n, p, addr, b);
        TidySame(n, Poke(n, p, addr, b));
      }
    }
  }

  lemma ReadTidy(m: Machine, p: Pid, addr: nat)
    requires Good(m) && !m.halted && p in m.spaces && Tidy(m) && !UserRead(m, p, addr).halted
    ensures Tidy(UserRead(m, p, addr))
  {
    hide Base; hide Cow; hide Tabled; hide AllBut; hide Others; hide Fault; hide PageOf; hide Good; hide FaultPanics;
    hide Tidy;
    if SlotOf(p, addr) !in m.frames {
      FaultTidy(m, p, addr, false);
    }
  }

  lemma BrkTidy(m: Machine, p: Pid, addr: nat)
    requires Good(m) && !m.halted && p in m.spaces && Tidy(m) && !Brk(m, p, addr).0.halted
    ensures Tidy(Brk(m, p, addr).0)
  {
    hide Base; hide Cow; hide Tabled; hide Others; hide Good; hide Brk; hide AllButRange; hide BrkPages; hide Tidy;
    var (r, ok) := Brk(m, p, addr);
    if ok && addr < m.spaces[p].brk {
      var lo, k := addr / PAGE_SIZE, BrkPages(m.spaces[p].brk, addr);
      forall v: nat | lo <= v < lo + k ensures TidyAt(r, Slot(p, v)) {
        SameKeys(r, Slot(p, v));
      }
      TidyRange(m, r, p, lo, lo + k);
    } else if ok {
      TidySame(m, r);
    }
  }

  lemma MmapTidy(m: Machine, p: Pid, addr: nat, length: nat, write: bool, shared: bool, priv: bool)
    requires Good(m) && !m.halted && p in m.spaces && Tidy(m) && !Mmap(m, p, addr, length, write, shared, priv).halted
    ensures Tidy(Mmap(m, p, addr, length, write, shared, priv))
  {
    hide Base; hide Cow; hide Tabled; hide Others; hide Good; hide Mmap; hide Place; hide PageCount; hide AllButRange;
    hide Tidy;
    MmapEffect(m, p, addr, length, write, shared, priv);
    var at, k := Place(m.spaces[p].vmap, addr, PageCount(length)), PageCount(length);
    var v, r := at.vaddr / PAGE_SIZE, Mmap(m, p, addr, length, write, shared, priv);
    forall u: nat | v <= u < v + k ensures TidyAt(r, Slot(p, u)) {
      assert MarkedFrom(m, r, Slot(p, u), write, shared, priv);
    }
    TidyRange(m, r, p, v, v + k);
  }

  lemma MunmapTidy(m: Machine, p: Pid, addr: nat, length: nat)
    requires Good(m) && !m.halted && p in m.spaces && Tidy(m) && !Munmap(m, p, addr, length).halted
    ensures Tidy(Munmap(m, p, addr, length))
  {
    hide Base; hide Cow; hide Tabled; hide Others; hide Good; hide Munmap; hide PageCount; hide AllButRange; hide Tidy;
    MunmapEffect(m, p, addr, length);
    var v, k, r := addr / PAGE_SIZE, PageCount(length), Munmap(m, p, addr, length);
    forall u: nat | v <= u < v + k ensures TidyAt(r, Slot(p, u)) {
      SameKeys(r, Slot(p, u));
    }
    TidyRange(m, r, p, v, v + k);
  }

  lemma LoadTidy(m: Machine, p: Pid, v: nat, readonly: bool)
    requires Good(m) && !m.halted && p in m.spaces && Tidy(m) && !LoadPage(m, p, v, readonly).halted
    ensures Tidy(LoadPage(m, p, v, readonly))
  {
    hide Base; hide Cow; hide Tabled; hide Others; hide Good; hide LoadPage; hide AllBut; hide LinkNeeds;
    var r := LoadPage(m, p, v, readonly);
    assert TidyAt(r, Slot(p, v));
    TidyBut(m, r, Slot(p, v));
  }

  lemma ApplyTidy(m: Machine, a: Action)
    requires Good(m) && !m.halted && Tidy(m) && !Apply(m, a).halted
    ensures Tidy(Apply(m, a))
  {
    hide Base; hide Cow; hide Tabled; hide Good; hide Others; hide Tidy;
    hide UserWrite; hide UserRead; hide Brk; hide Mmap; hide Munmap; hide LoadPage; hide Exit; hide Fork;
    if a.Spawn? {
      TidySame(m, Apply(m, a));
    } else if a.pid in m.spaces {
      if a.ForkTo? {
        if a.child !in m.spaces && a.child < NR_TASKS {
          ForkTidy(m, a.pid, a.child);
        }
      } else if a.ExitOf? {
        ExitTidy(m, a.pid);
      } else if a.WriteByte? {
        WriteTidy(m, a.pid, a.addr, a.byte);
      } else if a.ReadByte? {
        ReadTidy(m, a.pid, a.addr);
      } else if a.BrkTo? {
        BrkTidy(m, a.pid, a.addr);
      } else if a.Map? {
        MmapTidy(m, a.pid, a.addr, a.length, a.write, a.shared, a.priv);
      } else if a.Unmap? {
        MunmapTidy(m, a.pid, a.addr, a.length);
      } else if a.Load? {
        LoadTidy(m, a.pid, a.vpn, a.readonly);
      } else {
        TidySame(m, Apply(m, a));
      }
    }
  }

  lemma {:induction false} RunTidy(m: Machine, actions: seq<Action>)
    requires Good(m) && Tidy(m)
    ensures Run(m, actions).halted || Tidy(Run(m, actions))
    decreases |actions|
  {
    hide Good; hide Apply; hide Tidy;
    if actions != [] {
      var n := Run(m, actions[..|actions| - 1]);
      RunTidy(m, actions[..|actions| - 1]);
      if n.halted {
        HaltStays(n, actions[|actions| - 1]);
      } else if !Apply(n, actions[|actions| - 1]).halted {
        ApplyTidy(n, actions[|actions| - 1]);
      }
    }
  }

  lemma HaltStays(m: Machine, a: Action)
    requires Good(m) && m.halted
    ensures Apply(m, a) == m
  {
    hide Good;
  }

  /** In every reachable state of a running kernel no page is writable and read-only at once. */
  lemma ReachableTidy(total: nat, actions: seq<Action>)
    requires total >= KERNEL_FRAMES
    ensures Good(Boot(total)) && (Run(Boot(total), actions).halted || Tidy(Run(Boot(total), actions)))
  {
    hide Good; hide Run;
    BootGood(total);
    RunTidy(Boot(total), actions);
  }

  // ---- stores after a fork ----

  /** A private page that the parent could write before the fork can be written after it by parent and child as long as
      one frame is free: the store does not panic, nobody is killed, and the writer finds its byte. */
  lemma ForkThenStore(m: Machine, p: Pid, c: Pid, q: Pid, addr: nat, b: Byte)
    requires Good(m) && Tidy(m) && !m.halted && p in m.spaces && c !in m.spaces && c < NR_TASKS && q in {p, c}
    requires Writable(m, SlotOf(p, addr)) && Private(m, SlotOf(p, addr))
    requires !Fork(m, p, c).halted && Fork(m, p, c).free > 0
    ensures q in Fork(m, p, c).spaces
    ensures var r := UserWrite(Fork(m, p, c), q, addr, b);
            !r.halted && q in r.spaces && Holds(PageOf(r, SlotOf(q, addr)), addr % PAGE_SIZE, b)
  {
    hide Base; hide Cow; hide Tabled; hide Good; hide Fork; hide UserWrite; hide PageOf; hide Holds;
    var n, s := Fork(m, p, c), SlotOf(p, addr);
    ForkFlags(m, p, c, s.vpn);
    MappedUser(m, s);
    SameKeys(n, SlotOf(q, addr));
    assert !WritePanics(n, SlotOf(q, addr));
  }

  lemma MappedUser(m: Machine, s: Slot)
    requires Good(m) && Tidy(m) && s in m.frames
    ensures EXEC_PAGE <= s.vpn < STACK_TOP_PAGE
  {
  }

  /** A shared page that the parent could write is written in place by both, without a fault or a frame. */
  lemma ForkThenStoreShared(m: Machine, p: Pid, c: Pid, q: Pid, addr: nat, b: Byte)
    requires Good(m) && !m.halted && p in m.spaces && c !in m.spaces && c < NR_TASKS && q in {p, c}
    requires Writable(m, SlotOf(p, addr)) && !Private(m, SlotOf(p, addr)) && !Fork(m, p, c).halted
    ensures q in Fork(m, p, c).spaces && Writable(Fork(m, p, c), SlotOf(q, addr))
    ensures var r := UserWrite(Fork(m, p, c), q, addr, b);
            && !r.halted && p in r.spaces && c in r.spaces
            && Holds(PageOf(r, SlotOf(p, addr)), addr % PAGE_SIZE, b)
            && Holds(PageOf(r, SlotOf(c, addr)), addr % PAGE_SIZE, b)
  {
    hide Base; hide Cow; hide Tabled; hide Good; hide Fork; hide PageOf; hide Holds; hide Poke; hide Private;
    var n, s := Fork(m, p, c), SlotOf(p, addr);
    SharedAfter(m, p, c, addr);
    var r := Poke(n, q, addr, b);
    assert UserWrite(n, q, addr, b) == r;
    BothSee(n, p, c, q, addr, b);
  }

  lemma SharedAfter(m: Machine, p: Pid, c: Pid, addr: nat)
    requires Good(m) && !m.halted && p in m.spaces && c !in m.spaces && c < NR_TASKS
    requires Writable(m, SlotOf(p, addr)) && !Private(m, SlotOf(p, addr)) && !Fork(m, p, c).halted
    ensures var n := Fork(m, p, c);
            && n.spaces == m.spaces[c := m.spaces[p]] && !n.halted && p != c
            && Writable(n, SlotOf(p, addr)) && Writable(n, SlotOf(c, addr))
            && n.frames[SlotOf(p, addr)] == n.frames[SlotOf(c, addr)]
  {
    hide Base; hide Cow; hide Tabled; hide Good; hide Fork;
    ForkFlags(m, p, c, SlotOf(p, addr).vpn);
    ForkFrame(m, p, c, SlotOf(p, addr).vpn);
  }

  lemma BothSee(n: Machine, p: Pid, c: Pid, q: Pid, addr: nat, b: Byte)
    requires Good(n) && q in {p, c} && Writable(n, SlotOf(p, addr)) && Writable(n, SlotOf(c, addr))
    requires n.frames[SlotOf(p, addr)] == n.frames[SlotOf(c, addr)]
    ensures var r := Poke(n, q, addr, b);
            && Holds(PageOf(r, SlotOf(p, addr)), addr % PAGE_SIZE, b)
            && Holds(PageOf(r, SlotOf(c, addr)), addr % PAGE_SIZE, b)
  {
    hide Base; hide Cow; hide Good; hide Holds; hide PageOf; hide Store; hide Stored;
    MappedBytes(n, SlotOf(p, addr));
    MappedBytes(n, SlotOf(c, addr));
    StoreSeenThrough(n, SlotOf(q, addr), SlotOf(p, addr), addr % PAGE_SIZE, b);
    StoreSeenThrough(n, SlotOf(q, addr), SlotOf(c, addr), addr % PAGE_SIZE, b);
    StoredHolds(PageOf(n, SlotOf(p, addr)), addr % PAGE_SIZE, b);
    StoredHolds(PageOf(n, SlotOf(c, addr)), addr % PAGE_SIZE, b);
  }
}
