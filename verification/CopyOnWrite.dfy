/** Runs of the paging system: the reference counts are exact in every reachable state, and copy-on-write
    gives every process memory of its own. */
module CopyOnWrite {
  import opened Counting
  import opened Frames
  import opened AddressSpaces
  import opened Paging

  datatype Action =
    | Spawn(pid: Pid)
    | ForkTo(pid: Pid, child: Pid)
    | ExitOf(pid: Pid)
    | WriteByte(pid: Pid, addr: nat, byte: Byte)
    | ReadByte(pid: Pid, addr: nat)
    | BrkTo(pid: Pid, addr: nat)
    | Map(pid: Pid, addr: nat, length: nat, write: bool, shared: bool, priv: bool)
    | Unmap(pid: Pid, addr: nat, length: nat)
    | Load(pid: Pid, vpn: nat, readonly: bool)
    | SetEnd(pid: Pid, end: nat)

  function NewLayout(): (l: Layout)
    ensures |l.vmap| == VMAP_PAGES && l.end == l.brk == EXEC_ADDR
  {
    Layout(EXEC_ADDR, EXEC_ADDR, seq(VMAP_PAGES, i => false))
  }

  /** task_to_user_mode: an address space without user pages. */
  function Spawned(m: Machine, p: Pid): (r: Machine)
    requires Good(m) && p !in m.spaces && p < NR_TASKS
    ensures Good(r) && (Cow(m) ==> Cow(r)) && Others(m, r, p)
  {
    hide Base; hide Cow; hide Others;
    SpaceBase(m, p, NewLayout());
    SamePages(m, m.(spaces := m.spaces[p := NewLayout()]), Slot(p, 0));
    m.(spaces := m.spaces[p := NewLayout()])
  }

  /** load_elf moving the end of the program image. */
  function WithEnd(m: Machine, p: Pid, end: nat): (r: Machine)
    requires Good(m) && p in m.spaces
    ensures Good(r) && (Cow(m) ==> Cow(r)) && Others(m, r, p)
  {
    VmapOf(m, p);
    Relayout(m, p, m.spaces[p].(end := end))
  }

  /** A new address space has no page and an unused window, its program and break at 16 MiB; moving the end of the
      program image moves nothing else. */
  lemma LayoutExact(m: Machine, p: Pid, end: nat)
    requires Good(m) && p < NR_TASKS
    ensures p !in m.spaces ==>
              var r := Spawned(m, p);
              && r == m.(spaces := r.spaces) && r.spaces.Keys == m.spaces.Keys + {p}
              && r.spaces[p].end == r.spaces[p].brk == 0x100_0000
              && |r.spaces[p].vmap| == 32768 && (forall i | 0 <= i < 32768 :: !r.spaces[p].vmap[i])
              && forall q | q in m.spaces :: r.spaces[q] == m.spaces[q]
    ensures p in m.spaces ==>
              var r := WithEnd(m, p, end);
              && r == m.(spaces := r.spaces) && r.spaces.Keys == m.spaces.Keys
              && r.spaces[p].end == end && r.spaces[p].brk == m.spaces[p].brk
              && r.spaces[p].vmap == m.spaces[p].vmap
              && forall q | q in m.spaces && q != p :: r.spaces[q] == m.spaces[q]
  {
    hide Base; hide Cow; hide Others; hide Good;
    if p in m.spaces {
      VmapOf(m, p);
    }
  }

  /** One action of a process; an action by a process that does not exist, or a fork to a slot
      in use, is no step. */
  function Apply(m: Machine, a: Action): (r: Machine)
    requires Good(m)
    ensures Good(r)
    ensures Cow(m) && !a.Map? ==> Cow(r)
    ensures Cow(m) && !a.ForkTo? ==> Others(m, r, a.pid)
  {
    hide Base; hide Cow; hide Tabled; hide Others; hide Good;
    hide UserWrite; hide UserRead; hide Brk; hide Mmap; hide Munmap; hide LoadPage; hide Exit; hide Fork;
    HaltOthers(m, a.pid);
    if m.halted then m
    else if a.Spawn? then
      if a.pid in m.spaces || a.pid >= NR_TASKS then m
      else Spawned(m, a.pid)
    else if a.pid !in m.spaces then m
    else if a.ForkTo? then (if a.child in m.spaces || a.child >= NR_TASKS then m else Fork(m, a.pid, a.child))
    else if a.ExitOf? then (ExitOthers(m, a.pid); Exit(m, a.pid))
    else if a.WriteByte? then UserWrite(m, a.pid, a.addr, a.byte)
    else if a.ReadByte? then UserRead(m, a.pid, a.addr)
    else if a.BrkTo? then Brk(m, a.pid, a.addr).0
    else if a.Map? then Mmap(m, a.pid, a.addr, a.length, a.write, a.shared, a.priv)
    else if a.Unmap? then Munmap(m, a.pid, a.addr, a.length)
    else if a.Load? then LoadPage(m, a.pid, a.vpn, a.readonly)
    else WithEnd(m, a.pid, a.end)
  }

  function Run(m: Machine, actions: seq<Action>): (r: Machine)
    requires Good(m)
    ensures Good(r)
    decreases |actions|
  {
    hide Good; hide Apply;
    if actions == [] then m else Apply(Run(m, actions[..|actions| - 1]), actions[|actions| - 1])
  }

  // ---- the first state ----

  /** The state after mapping_init on a machine of `total` frames. */
  function Boot(total: nat): (m: Machine)
    requires total >= KERNEL_FRAMES
  {
    Machine(seq(total, f => if f < KERNEL_FRAMES then 1 else 0), total - KERNEL_FRAMES,
            seq(total, _ => seq(PAGE_SIZE, _ => 0)), map[], map[], map[], map[], false)
  }

  lemma {:induction false} IntervalSize(lo: nat, hi: nat, s: set<nat>)
    requires lo <= hi && forall f: nat :: f in s <==> lo <= f < hi
    ensures |s| == hi - lo
    decreases hi
  {
    if lo < hi {
      IntervalSize(lo, hi - 1, s - {hi - 1});
    } else {
      assert s == {};
    }
  }

  lemma BootGood(total: nat)
    requires total >= KERNEL_FRAMES
    ensures Good(Boot(total)) && Cow(Boot(total))
  {
    var m := Boot(total);
    IntervalSize(KERNEL_FRAMES, total, Zeros(m.counts));
    forall f | KERNEL_FRAMES <= f < total
      ensures m.counts[f] == Uses(m.frames, f) + Uses(m.tables, f)
    {
      assert Holders(m.frames, f) == {} && Holders(m.tables, f) == {};
    }
  }

  /** In every reachable state, whatever the processes do, memory_map is exactly the number of page-table and
      directory entries per frame, none above 64, and free_pages the number of frames without any. */
  lemma ReachableCounts(total: nat, actions: seq<Action>)
    requires total >= KERNEL_FRAMES
    ensures var m := (BootGood(total); Run(Boot(total), actions));
            && m.free == |Zeros(m.counts)|
            && forall f | KERNEL_FRAMES <= f < |m.counts| ::
              m.counts[f] == Uses(m.frames, f) + Uses(m.tables, f) <= NR_TASKS
  {
    BootGood(total);
    var m := Run(Boot(total), actions);
    forall f | KERNEL_FRAMES <= f < |m.counts|
      ensures m.counts[f] == Uses(m.frames, f) + Uses(m.tables, f) <= NR_TASKS
    {
      CountBound(m, f);
    }
  }

  /** Once every process is gone no user frame is in use: exit leaks nothing. */
  lemma NothingLeaks(m: Machine)
    requires Good(m) && m.spaces == map[]
    ensures m.frames == map[] && m.tables == map[]
    ensures forall f | KERNEL_FRAMES <= f < |m.counts| :: m.counts[f] == 0
    ensures m.free == |m.counts| - KERNEL_FRAMES
  {
    assert m.frames == map[] && m.tables == map[];
    forall f | KERNEL_FRAMES <= f < |m.counts|
      ensures m.counts[f] == 0
    {
      assert Holders(m.frames, f) == {} && Holders(m.tables, f) == {};
    }
    IntervalSize(KERNEL_FRAMES, |m.counts|, Zeros(m.counts));
  }

  // ---- mmap: exactly when it keeps copy-on-write ----

  /** Two processes refer to one frame and at least one of them may write it privately, or they disagree on sharing. */
  ghost predicate Torn(m: Machine, s: Slot, t: Slot) {
    && s.pid != t.pid && s in m.frames && t in m.frames && s in m.flags && t in m.flags && m.frames[s] == m.frames[t]
    && ((m.flags[s].write && !m.flags[s].shared) || m.flags[s].shared != m.flags[t].shared)
  }

  lemma TornNotCow(m: Machine, s: Slot, t: Slot)
    requires Base(m) && Torn(m, s, t)
    ensures !Cow(m)
  {
    if Cow(m) {
      MappedFacts(m, s);
      OnlyReference(m, s);
    }
  }

  lemma UnsafeTears(m: Machine, p: Pid, v: nat, write: bool, shared: bool, priv: bool) returns (t: Slot)
    requires Good(m) && Cow(m) && p in m.spaces && MMAP_PAGE <= v <= STACK_TOP_PAGE
    requires !RemapSafe(m, Slot(p, v), write, shared) && !MmapPage(m, p, v, write, shared, priv).halted
    ensures Torn(MmapPage(m, p, v, write, shared, priv), Slot(p, v), t)
  {
    hide Base; hide Cow; hide Good; hide Tabled; hide Others; hide LinkPage;
    var s := Slot(p, v);
    GoodParts(m);
    t := OtherReference(m, s);
    NoAlias(m, s, t);
    AgreedOn(m, s, t);
    var n := Link(m, s);
    assert KeptPage(m, MmapPage(m, p, v, write, shared, priv), t);
  }

  lemma NoAlias(m: Machine, s: Slot, t: Slot)
    requires Base(m) && s in m.frames && t in m.frames && s != t && m.frames[s] == m.frames[t]
    ensures s.pid != t.pid
  {
  }

  lemma AgreedOn(m: Machine, s: Slot, t: Slot)
    requires Cow(m) && s in m.frames && t in m.frames && s in m.flags && t in m.flags && m.frames[s] == m.frames[t]
    ensures m.flags[s].shared == m.flags[t].shared
  {
  }

  ghost predicate AllSafe(m: Machine, p: Pid, v: nat, k: nat, write: bool, shared: bool) {
    forall u: nat | v <= u < v + k :: RemapSafe(m, Slot(p, u), write, shared)
  }

  ghost predicate TornIn(m: Machine, p: Pid, v: nat, k: nat) {
    exists s, t :: Torn(m, s, t) && s.pid == p && v <= s.vpn < v + k
  }

  /** The pages of `p` from `v` on are mapped as before and in-use counts are unchanged. */
  ghost predicate Ahead(m: Machine, r: Machine, p: Pid, v: nat) {
    CountsKept(m, r) && forall u: nat | v <= u :: KeptSlot(m, r, Slot(p, u))
  }

  lemma SafeAhead(m: Machine, n: Machine, s: Slot, write: bool, shared: bool)
    requires Base(m) && KeptSlot(m, n, s) && CountsKept(m, n)
    ensures RemapSafe(m, s, write, shared) == RemapSafe(n, s, write, shared)
  {
    if s in m.frames {
      MappedFacts(m, s);
    }
  }

  lemma TornStays(n: Machine, r: Machine, p: Pid, v: nat, k: nat, u: nat)
    requires TornIn(n, p, v, k) && v + k <= u && AllBut(n, r, Slot(p, u))
    ensures TornIn(r, p, v, k + 1)
  {
    var s, t :| Torn(n, s, t) && s.pid == p && v <= s.vpn < v + k;
    assert KeptPage(n, r, s) && KeptPage(n, r, t);
    assert Torn(r, s, t);
  }

  lemma AheadStep(m: Machine, n: Machine, r: Machine, p: Pid, u: nat)
    requires Ahead(m, n, p, u) && AllBut(n, r, Slot(p, u)) && CountsKept(n, r)
    ensures Ahead(m, r, p, u + 1)
  {
    forall w: nat | u + 1 <= w
      ensures KeptSlot(m, r, Slot(p, w))
    {
      assert KeptSlot(m, n, Slot(p, w)) && KeptPage(n, r, Slot(p, w));
    }
  }

  lemma MmapStepCow(n: Machine, p: Pid, v: nat, k: nat, write: bool, shared: bool, priv: bool)
    requires Good(n) && p in n.spaces && MMAP_PAGE <= v && v + k <= STACK_TOP_PAGE && !n.halted
    requires Cow(n) || TornIn(n, p, v, k)
    ensures var r := MmapPage(n, p, v + k, write, shared, priv);
            && (Cow(n) && RemapSafe(n, Slot(p, v + k), write, shared) ==> Cow(r))
            && (!r.halted && !(Cow(n) && RemapSafe(n, Slot(p, v + k), write, shared)) ==> TornIn(r, p, v, k + 1))
  {
    hide Base; hide Cow; hide Good; hide MmapPage; hide AllBut; hide RemapSafe; hide CountsKept; hide Torn;
    var r := MmapPage(n, p, v + k, write, shared, priv);
    if Cow(n) {
      MmapPageCow(n, p, v + k, write, shared, priv);
      if !r.halted && !RemapSafe(n, Slot(p, v + k), write, shared) {
        var t := UnsafeTears(n, p, v + k, write, shared, priv);
      }
    } else {
      TornStays(n, r, p, v, k, v + k);
    }
  }

  lemma {:induction false} MmapUpToCow(m: Machine, p: Pid, v: nat, k: nat, write: bool, shared: bool, priv: bool)
    requires Good(m) && Cow(m) && p in m.spaces && MMAP_PAGE <= v < STACK_TOP_PAGE
    ensures var r := MmapUpTo(m, p, v, k, write, shared, priv);
            && (AllSafe(m, p, v, k, write, shared) ==> Cow(r))
            && (!r.halted && !AllSafe(m, p, v, k, write, shared) ==> TornIn(r, p, v, k))
            && (!r.halted ==> Ahead(m, r, p, v + k))
    decreases k
  {
    hide Granted; hide GrantedAt; hide Others; hide Tabled;
    hide Base; hide Cow; hide Good; hide MmapPage; hide AllBut; hide RemapSafe; hide CountsKept; hide Torn;
    hide TornIn; hide KeptSlot;
    if k == 0 {
      AheadSame(m, p, v);
    } else {
      MmapUpToCow(m, p, v, k - 1, write, shared, priv);
      var n := MmapUpTo(m, p, v, k - 1, write, shared, priv);
      var s := Slot(p, v + k - 1);
      if !n.halted {
        GoodParts(m);
        GoodParts(n);
        if TornIn(n, p, v, k - 1) {
          TornInNotCow(n, p, v, k - 1);
        }
        SafeAhead(m, n, s, write, shared);
        MmapStepCow(n, p, v, k - 1, write, shared, priv);
        AheadStep(m, n, MmapPage(n, p, v + k - 1, write, shared, priv), p, v + k - 1);
        assert AllSafe(m, p, v, k, write, shared) <==>
          AllSafe(m, p, v, k - 1, write, shared) && RemapSafe(m, s, write, shared);
      }
    }
  }

  lemma AheadSame(m: Machine, p: Pid, v: nat)
    ensures Ahead(m, m, p, v)
  {
  }

  lemma TornInNotCow(m: Machine, p: Pid, v: nat, k: nat)
    requires Base(m) && TornIn(m, p, v, k)
    ensures !Cow(m)
  {
    var s, t :| Torn(m, s, t);
    TornNotCow(m, s, t);
  }

  /** sys_mmap keeps copy-on-write exactly when no page it covers is private and still shared with another process
      (or it grants such pages nothing). */
  lemma MmapExact(m: Machine, p: Pid, addr: nat, length: nat, write: bool, shared: bool, priv: bool)
    requires Good(m) && Cow(m) && p in m.spaces && !m.halted
    requires Place(m.spaces[p].vmap, addr, PageCount(length)).There?
    requires !Mmap(m, p, addr, length, write, shared, priv).halted
    ensures Cow(Mmap(m, p, addr, length, write, shared, priv)) <==>
            AllSafe(m, p, Place(m.spaces[p].vmap, addr, PageCount(length)).vaddr / PAGE_SIZE, PageCount(length), write,
              shared)
  {
    hide Base; hide Cow; hide Good; hide MmapUpTo; hide Torn; hide TornIn; hide Place;
    VmapOf(m, p);
    var at := Place(m.spaces[p].vmap, addr, PageCount(length));
    var v, k := at.vaddr / PAGE_SIZE, PageCount(length);
    var n := Relayout(m, p, m.spaces[p].(vmap := at.vmap));
    MmapUpToCow(n, p, v, k, write, shared, priv);
    var r := MmapUpTo(n, p, v, k, write, shared, priv);
    GoodParts(r);
    if TornIn(r, p, v, k) {
      TornInNotCow(r, p, v, k);
    }
    assert AllSafe(m, p, v, k, write, shared) <==> AllSafe(n, p, v, k, write, shared);
  }

  /** Every page an mmap would cover can be remapped safely. */
  ghost predicate MapSound(m: Machine, p: Pid, addr: nat, length: nat, write: bool, shared: bool)
    requires p in m.spaces
  {
    match Place(m.spaces[p].vmap, addr, PageCount(length))
    case Nowhere => true
    case There(vaddr, _) => AllSafe(m, p, vaddr / PAGE_SIZE, PageCount(length), write, shared)
  }

  /** A failed mmap halts the kernel without tearing anything, and a sound one keeps copy-on-write. */
  lemma MmapSafe(m: Machine, p: Pid, addr: nat, length: nat, write: bool, shared: bool, priv: bool)
    requires Good(m) && Cow(m) && p in m.spaces && MapSound(m, p, addr, length, write, shared)
    ensures Cow(Mmap(m, p, addr, length, write, shared, priv))
  {
    hide Base; hide Cow; hide Good; hide MmapUpTo; hide RemapSafe; hide Place;
    VmapOf(m, p);
    var at := Place(m.spaces[p].vmap, addr, PageCount(length));
    if !m.halted && at.There? {
      var n := Relayout(m, p, m.spaces[p].(vmap := at.vmap));
      forall u: nat
        ensures RemapSafe(n, Slot(p, u), write, shared) == RemapSafe(m, Slot(p, u), write, shared)
      {
        SameRemap(m, n, Slot(p, u), write, shared);
      }
      MmapUpToCow(n, p, at.vaddr / PAGE_SIZE, PageCount(length), write, shared, priv);
    }
  }

  lemma SameRemap(m: Machine, n: Machine, s: Slot, write: bool, shared: bool)
    requires n.frames == m.frames && n.flags == m.flags && n.counts == m.counts
    ensures RemapSafe(n, s, write, shared) == RemapSafe(m, s, write, shared)
  {
  }

  lemma RemapKeepsFrame(m: Machine, p: Pid, v: nat, priv: bool)
    requires Good(m) && p in m.spaces && MMAP_PAGE <= v <= STACK_TOP_PAGE && Slot(p, v) in m.frames
    requires !MmapPage(m, p, v, true, false, priv).halted
    ensures var r := MmapPage(m, p, v, true, false, priv);
            Writable(r, Slot(p, v)) && r.frames[Slot(p, v)] == m.frames[Slot(p, v)]
  {
    hide Base; hide Cow; hide Good; hide Tabled; hide Others; hide AllBut; hide KeptPage;
    var n := Link(m, Slot(p, v));
  }

  /** The failing case: a private page is mapped, the process forks, and the parent maps the page again for writing.
      There are frames enough for the child's page tables, so neither call panics; and from then on what the parent
      writes there appears in the child. */
  lemma RemapLeaks(m: Machine, p: Pid, c: Pid, v: nat, priv: bool, off: nat, b: Byte)
    requires Good(m) && !m.halted && p in m.spaces && c !in m.spaces && c < NR_TASKS && off < PAGE_SIZE
    requires MMAP_PAGE <= v < STACK_TOP_PAGE && Slot(p, v) in m.frames
    requires m.free >= PageTables(m.tables, p, LAST_DIR)
    ensures var r := MmapPage(Fork(m, p, c), p, v, true, false, priv);
            !r.halted && Writable(r, Slot(p, v))
            && PageOf(Store(r, Slot(p, v), off, b), Slot(c, v)) == Stored(PageOf(r, Slot(c, v)), off, b)
  {
    ForkHalts(m, p, c);
    ForkFrame(m, p, c, v);
    hide *;
    var n := Fork(m, p, c);
    RemapRuns(n, p, v, priv);
    var r := MmapPage(n, p, v, true, false, priv);
    RemapKeepsFrame(n, p, v, priv);
    KeptFrame(n, r, Slot(p, v), Slot(c, v));
    StoreSeenThrough(r, Slot(p, v), Slot(c, v), off, b);
  }

  /** Mapping a mapped page again takes no frame. */
  lemma RemapRuns(m: Machine, p: Pid, v: nat, priv: bool)
    requires Good(m) && !m.halted && p in m.spaces && MMAP_PAGE <= v < STACK_TOP_PAGE && Slot(p, v) in m.frames
    ensures !MmapPage(m, p, v, true, false, priv).halted
  {
    hide Base; hide Cow; hide MmapPage;
    MmapPageHalts(m, p, v, true, false, priv);
    FreeFrames(m);
    assert DirOf(Slot(p, v)) in m.tables;
  }

  // ---- the failing case on a run from boot ----

  lemma RunSnoc(m: Machine, actions: seq<Action>, a: Action)
    requires Good(m)
    ensures Run(m, actions + [a]) == Apply(Run(m, actions), a)
  {
    hide Good; hide Apply;
    var all := actions + [a];
    assert all[..|all| - 1] == actions;
  }

  /** Remapping one page at a given address, as an mmap call. */
  lemma MmapOne(m: Machine, p: Pid, priv: bool)
    requires Good(m) && !m.halted && p in m.spaces
    ensures Mmap(m, p, MMAP_ADDR, PAGE_SIZE, true, false, priv) == MmapPage(m, p, MMAP_PAGE, true, false, priv)
  {
    hide Base; hide Cow; hide Tabled; hide Others; hide Good; hide MmapPage; hide Granted;
    VmapOf(m, p);
    var l := m.spaces[p];
    assert m.(spaces := m.spaces[p := l.(vmap := l.vmap)]) == m;
    assert MmapUpTo(m, p, MMAP_PAGE, 0, true, false, priv) == m;
    assert MmapUpTo(m, p, MMAP_PAGE, 1, true, false, priv) == MmapPage(m, p, MMAP_PAGE, true, false, priv);
  }

  lemma MmapPageSpaces(m: Machine, p: Pid, v: nat, priv: bool)
    requires Good(m) && p in m.spaces && MMAP_PAGE <= v <= STACK_TOP_PAGE
    ensures MmapPage(m, p, v, true, false, priv).spaces.Keys == m.spaces.Keys
  {
    hide Base; hide Cow; hide Tabled; hide Others; hide Good; hide FlagsSafe; hide AllBut; hide LinkNeeds;
    hide CountsKept;
    var n := Link(m, Slot(p, v));
  }

  lemma {:induction false} OneTable(tables: map<Dir, nat>, p: Pid, d: nat, only: nat)
    requires d >= FIRST_DIR && forall e | e in tables :: e == Dir(p, only)
    ensures PageTables(tables, p, d) <= if only < d then 1 else 0
    decreases d
  {
    if d > FIRST_DIR {
      OneTable(tables, p, d - 1, only);
    }
  }

  /** The first process maps one private page on a machine with three free frames; one is left for the child's table. */
  lemma FirstMapping(m: Machine, p: Pid)
    requires Good(m) && !m.halted && m.spaces.Keys == {p} && m.frames == map[] && m.tables == map[] && m.free >= 3
    ensures var r := MmapPage(m, p, MMAP_PAGE, true, false, true);
            && !r.halted && r.spaces.Keys == {p} && Slot(p, MMAP_PAGE) in r.frames && Private(r, Slot(p, MMAP_PAGE))
            && r.free >= PageTables(r.tables, p, LAST_DIR)
  {
    hide Base; hide Cow; hide Good; hide MmapPage; hide AllBut; hide CountsKept;
    MmapPageHalts(m, p, MMAP_PAGE, true, false, true);
    MmapPageSpaces(m, p, MMAP_PAGE, true);
    var r := MmapPage(m, p, MMAP_PAGE, true, false, true);
    OneTable(r.tables, p, LAST_DIR, MMAP_PAGE / TABLE);
    FirstPrivate(m, p);
  }

  lemma FirstPrivate(m: Machine, p: Pid)
    requires Good(m) && p in m.spaces && Slot(p, MMAP_PAGE) !in m.frames
    requires !MmapPage(m, p, MMAP_PAGE, true, false, true).halted
    ensures Private(MmapPage(m, p, MMAP_PAGE, true, false, true), Slot(p, MMAP_PAGE))
  {
    hide Base; hide Cow; hide Tabled; hide Others; hide Good; hide FlagsSafe; hide AllBut; hide LinkNeeds;
    hide CountsKept;
    var n := Link(m, Slot(p, MMAP_PAGE));
  }

  const MAPPING: Action := Map(1, MMAP_ADDR, PAGE_SIZE, true, false, true)

  lemma ApplySpawn(m: Machine)
    requires Good(m) && !m.halted && m.spaces == map[]
    ensures Apply(m, Spawn(1)) == Spawned(m, 1) && Spawned(m, 1).spaces.Keys == {1}
  {
    hide Base; hide Cow; hide Good;
  }

  lemma ApplyMapping(m: Machine)
    requires Good(m) && !m.halted && 1 in m.spaces
    ensures Apply(m, MAPPING) == MmapPage(m, 1, MMAP_PAGE, true, false, true)
  {
    hide Base; hide Cow; hide Good; hide Mmap; hide MmapPage;
    MmapOne(m, 1, true);
  }

  lemma ApplyFork(m: Machine)
    requires Good(m) && !m.halted && 1 in m.spaces && 2 !in m.spaces
    ensures Apply(m, ForkTo(1, 2)) == Fork(m, 1, 2)
  {
    hide Base; hide Cow; hide Good; hide Fork;
  }

  lemma ApplyStore(m: Machine, off: nat, b: Byte)
    requires Good(m) && !m.halted && 1 in m.spaces && Writable(m, Slot(1, MMAP_PAGE)) && off < PAGE_SIZE
    ensures Apply(m, WriteByte(1, MMAP_ADDR + off, b)) == Store(m, Slot(1, MMAP_PAGE), off, b)
  {
    hide Base; hide Cow; hide Good; hide Store;
    assert SlotOf(1, MMAP_ADDR + off) == Slot(1, MMAP_PAGE) && (MMAP_ADDR + off) % PAGE_SIZE == off;
  }

  /** A process starts and maps one private page. */
  lemma MappedOnce(start: Machine) returns (m: Machine)
    requires Good(start) && !start.halted && start.spaces == map[] && start.frames == map[] && start.tables == map[]
    requires start.free >= 3
    ensures m == Run(start, [Spawn(1), MAPPING])
    ensures Good(m) && !m.halted && 1 in m.spaces && 2 !in m.spaces && m.free >= PageTables(m.tables, 1, LAST_DIR)
    ensures Slot(1, MMAP_PAGE) in m.frames && Private(m, Slot(1, MMAP_PAGE))
  {
    hide Base; hide Cow; hide Good; hide Apply; hide MmapPage; hide PageTables; hide Run;
    ApplySpawn(start);
    var spawned := Spawned(start, 1);
    FirstMapping(spawned, 1);
    ApplyMapping(spawned);
    m := MmapPage(spawned, 1, MMAP_PAGE, true, false, true);
    RunEmpty(start);
    RunSnoc(start, [], Spawn(1));
    RunSnoc(start, [Spawn(1)], MAPPING);
    assert [] + [Spawn(1)] == [Spawn(1)] && [Spawn(1)] + [MAPPING] == [Spawn(1), MAPPING];
  }

  lemma ForkPrivate(m: Machine, p: Pid, c: Pid, v: nat)
    requires Good(m) && p in m.spaces && c !in m.spaces && c < NR_TASKS && !Fork(m, p, c).halted
    requires Slot(p, v) in m.frames && Private(m, Slot(p, v))
    ensures Private(Fork(m, p, c), Slot(p, v)) && Private(Fork(m, p, c), Slot(c, v))
  {
    hide Cow; hide Fork; hide Counted;
    var n := Fork(m, p, c);
    assert Mirrored(n, p, c, LAST_DIR * TABLE) && ParentKept(m, n, p, c);
  }

  lemma RemapPrivate(m: Machine, p: Pid, v: nat, priv: bool)
    requires Good(m) && p in m.spaces && MMAP_PAGE <= v <= STACK_TOP_PAGE && Slot(p, v) in m.frames
    requires Private(m, Slot(p, v)) && !MmapPage(m, p, v, true, false, priv).halted
    ensures Private(MmapPage(m, p, v, true, false, priv), Slot(p, v))
  {
    hide Base; hide Cow; hide Tabled; hide Others; hide Good; hide FlagsSafe; hide AllBut; hide LinkNeeds;
    hide CountsKept;
    var n := Link(m, Slot(p, v));
  }

  lemma KeptPrivate(n: Machine, r: Machine, s: Slot, t: Slot)
    requires AllBut(n, r, s) && t != s && Private(n, t)
    ensures Private(r, t)
  {
    assert KeptPage(n, r, t);
  }

  /** It forks and maps the page again. */
  lemma MappedTwice(m: Machine) returns (r: Machine)
    requires Good(m) && !m.halted && 1 in m.spaces && 2 !in m.spaces && m.free >= PageTables(m.tables, 1, LAST_DIR)
    requires Slot(1, MMAP_PAGE) in m.frames && Private(m, Slot(1, MMAP_PAGE))
    ensures r == Apply(Apply(m, ForkTo(1, 2)), MAPPING)
    ensures Good(r) && !r.halted && 1 in r.spaces && Writable(r, Slot(1, MMAP_PAGE)) && Slot(2, MMAP_PAGE) in r.frames
    ensures Private(r, Slot(1, MMAP_PAGE)) && Private(r, Slot(2, MMAP_PAGE))
    ensures r.frames[Slot(1, MMAP_PAGE)] == r.frames[Slot(2, MMAP_PAGE)]
  {
    hide Base; hide Cow; hide Good; hide Apply; hide MmapPage; hide PageTables; hide Fork; hide Private; hide AllBut;
    hide ParentKept; hide Mirrored; hide GrantedAt; hide CountsKept; hide TablesKept;
    ForkHalts(m, 1, 2);
    ForkFrame(m, 1, 2, MMAP_PAGE);
    ForkPrivate(m, 1, 2, MMAP_PAGE);
    ApplyFork(m);
    var n := Fork(m, 1, 2);
    RemapRuns(n, 1, MMAP_PAGE, true);
    ApplyMapping(n);
    r := MmapPage(n, 1, MMAP_PAGE, true, false, true);
    RemapKeepsFrame(n, 1, MMAP_PAGE, true);
    RemapPrivate(n, 1, MMAP_PAGE, true);
    KeptFrame(n, r, Slot(1, MMAP_PAGE), Slot(2, MMAP_PAGE));
    KeptPrivate(n, r, Slot(1, MMAP_PAGE), Slot(2, MMAP_PAGE));
  }

  /** The calls of RemapLeaks, made by the first process after boot. */
  const REMAPPING: seq<Action> := [Spawn(1), MAPPING, ForkTo(1, 2), MAPPING]

  lemma RunRemapping(start: Machine)
    requires Good(start)
    ensures Run(start, REMAPPING) == Apply(Apply(Run(start, [Spawn(1), MAPPING]), ForkTo(1, 2)), MAPPING)
  {
    hide Good; hide Apply; hide Run;
    RunSnoc(start, [Spawn(1), MAPPING], ForkTo(1, 2));
    RunSnoc(start, [Spawn(1), MAPPING, ForkTo(1, 2)], MAPPING);
    assert [Spawn(1), MAPPING] + [ForkTo(1, 2)] == [Spawn(1), MAPPING, ForkTo(1, 2)];
    assert [Spawn(1), MAPPING, ForkTo(1, 2)] + [MAPPING] == REMAPPING;
  }

  lemma RunEmpty(m: Machine)
    requires Good(m)
    ensures Run(m, []) == m
  {
  }

  lemma BootFresh(total: nat)
    requires total >= KERNEL_FRAMES
    ensures var m := Boot(total);
            !m.halted && m.spaces == map[] && m.frames == map[] && m.tables == map[] && m.free == total - KERNEL_FRAMES
  {
  }

  /** On every machine with three user frames: a process starts, maps a private page, forks and maps the page again.
      Whatever byte it then stores there, the child finds it in its own private page. */
  lemma LeakReachable(total: nat, off: nat, b: Byte)
    requires total >= KERNEL_FRAMES + 3 && off < PAGE_SIZE
    ensures Good(Boot(total))
    ensures var m := Run(Boot(total), REMAPPING);
            !m.halted && Private(m, Slot(1, MMAP_PAGE)) && Private(m, Slot(2, MMAP_PAGE))
    ensures Holds(PageOf(Run(Boot(total), REMAPPING + [WriteByte(1, MMAP_ADDR + off, b)]), Slot(2, MMAP_PAGE)), off, b)
  {
    hide Base; hide Cow; hide Good; hide Apply; hide Run; hide Boot; hide PageTables; hide Store; hide Private;
    hide Writable;
    hide PageOf; hide Holds; hide Stored;
    BootGood(total);
    BootFresh(total);
    var start := Boot(total);
    var m := MappedOnce(start);
    var r := MappedTwice(m);
    RunRemapping(start);
    RunSnoc(start, REMAPPING, WriteByte(1, MMAP_ADDR + off, b));
    ApplyStore(r, off, b);
    StoreSeenThrough(r, Slot(1, MMAP_PAGE), Slot(2, MMAP_PAGE), off, b);
    MappedBytes(r, Slot(2, MMAP_PAGE));
    StoredHolds(PageOf(r, Slot(2, MMAP_PAGE)), off, b);
  }

  lemma ForkFrame(m: Machine, p: Pid, c: Pid, v: nat)
    requires Good(m) && p in m.spaces && c !in m.spaces && c < NR_TASKS && !Fork(m, p, c).halted
    requires Slot(p, v) in m.frames
    ensures var n := Fork(m, p, c);
            !m.halted && n.spaces == m.spaces[c := m.spaces[p]] && p != c
            && Slot(p, v) in n.frames && Slot(c, v) in n.frames && n.frames[Slot(c, v)] == n.frames[Slot(p, v)]
  {
    hide Base; hide Cow; hide Good; hide Fork;
    var n := Fork(m, p, c);
    assert Mirrored(n, p, c, LAST_DIR * TABLE) && ParentKept(m, n, p, c);
  }

  lemma KeptFrame(n: Machine, r: Machine, s: Slot, t: Slot)
    requires AllBut(n, r, s) && t != s && t in n.frames
    ensures t in r.frames && r.frames[t] == n.frames[t]
  {
    assert KeptPage(n, r, t);
  }

  lemma StoreSeenThrough(m: Machine, s: Slot, t: Slot, off: nat, b: Byte)
    requires Good(m) && Writable(m, s) && t in m.frames && m.frames[t] == m.frames[s] && off < PAGE_SIZE
    ensures PageOf(Store(m, s, off, b), t) == Stored(PageOf(m, t), off, b)
  {
    hide Base;
  }

  // ---- isolation ----

  /** What a safe action is: any but an mmap over a private page that another process still shares. */
  ghost predicate Sound(m: Machine, a: Action) {
    a.Map? && a.pid in m.spaces ==> MapSound(m, a.pid, a.addr, a.length, a.write, a.shared)
  }

  /** Which processes an action concerns. */
  predicate Concerns(a: Action, q: Pid) {
    a.pid == q || (a.ForkTo? && a.child == q)
  }

  lemma ForkOthers(m: Machine, p: Pid, c: Pid, s: Slot)
    requires Good(m) && p in m.spaces && c !in m.spaces && c < NR_TASKS && s.pid != p && s.pid != c
    ensures KeptPage(m, Fork(m, p, c), s)
  {
    hide Base; hide Cow; hide Good; hide Fork;
    var r := Fork(m, p, c);
    assert ParentKept(m, r, p, c);
  }

  /** One action leaves every private page of every other process as it was, and keeps copy-on-write. */
  lemma StepIsolated(m: Machine, a: Action, q: Pid)
    requires Good(m) && Cow(m) && Sound(m, a)
    ensures Cow(Apply(m, a))
    ensures !Concerns(a, q) ==> forall s: Slot | s.pid == q :: KeptPage(m, Apply(m, a), s)
  {
    var r := Apply(m, a);
    if a.Map? && a.pid in m.spaces && !m.halted {
      MmapSafe(m, a.pid, a.addr, a.length, a.write, a.shared, a.priv);
    }
    if !Concerns(a, q) {
      forall s: Slot | s.pid == q
        ensures KeptPage(m, r, s)
      {
        if a.ForkTo? {
          if !m.halted && a.pid in m.spaces && a.child !in m.spaces && a.child < NR_TASKS {
            ForkOthers(m, a.pid, a.child, s);
          }
        }
      }
    }
  }

  /** Every action of the run is sound where it happens. */
  ghost predicate SoundRun(m: Machine, actions: seq<Action>)
    requires Good(m)
    decreases |actions|
  {
    actions != [] ==>
      && SoundRun(m, actions[..|actions| - 1])
      && Sound(Run(m, actions[..|actions| - 1]), actions[|actions| - 1])
  }

  /** Copy-on-write isolation over any run: what a process finds in its private pages changes only by its own
      actions (or by its own creation), whatever the others write, map, fork or free. */
  lemma {:induction false} RunIsolated(m: Machine, actions: seq<Action>, q: Pid)
    requires Good(m) && Cow(m) && SoundRun(m, actions)
    ensures Cow(Run(m, actions))
    ensures (forall i | 0 <= i < |actions| :: !Concerns(actions[i], q)) ==>
              forall s: Slot | s.pid == q :: KeptPage(m, Run(m, actions), s)
    decreases |actions|
  {
    hide Good; hide Cow; hide Apply; hide Sound; hide KeptPage;
    if actions != [] {
      var front, a := actions[..|actions| - 1], actions[|actions| - 1];
      RunIsolated(m, front, q);
      var n := Run(m, front);
      StepIsolated(n, a, q);
      if forall i | 0 <= i < |actions| :: !Concerns(actions[i], q) {
        forall s: Slot | s.pid == q
          ensures KeptPage(m, Run(m, actions), s)
        {
          KeptTrans(m, n, Apply(n, a), s);
        }
      }
    } else {
      forall s: Slot | s.pid == q
        ensures KeptPage(m, m, s)
      {
        KeptSelf(m, s);
      }
    }
  }

  lemma KeptSelf(m: Machine, s: Slot)
    ensures KeptPage(m, m, s)
  {
  }

  lemma KeptTrans(m: Machine, n: Machine, r: Machine, s: Slot)
    requires KeptPage(m, n, s) && KeptPage(n, r, s)
    ensures KeptPage(m, r, s)
  {
  }

  /** Right after fork, parent and child find the same bytes at every address, the parent's old ones. */
  lemma ForkSameBytes(m: Machine, p: Pid, c: Pid, v: nat)
    requires Good(m) && p in m.spaces && c !in m.spaces && c < NR_TASKS
    requires !Fork(m, p, c).halted
    ensures PageOf(Fork(m, p, c), Slot(c, v)) == PageOf(Fork(m, p, c), Slot(p, v)) == PageOf(m, Slot(p, v))
  {
    hide Base; hide Cow; hide Good; hide Fork;
    var r := Fork(m, p, c);
    assert Mirrored(r, p, c, LAST_DIR * TABLE) && ParentKept(m, r, p, c);
  }

  lemma WriteOthers(m: Machine, p: Pid, addr: nat, b: Byte, s: Slot)
    requires Good(m) && Cow(m) && p in m.spaces && s.pid != p && Private(m, s)
    ensures PageOf(UserWrite(m, p, addr, b), s) == PageOf(m, s)
  {
    hide Base; hide Cow; hide Good; hide UserWrite; hide PageOf;
    assert KeptPage(m, UserWrite(m, p, addr, b), s);
  }

  /** After fork, a write by either side is invisible to the other on private pages. */
  lemma ForkThenWrite(m: Machine, p: Pid, c: Pid, addr: nat, b: Byte, v: nat)
    requires Good(m) && Cow(m) && p in m.spaces && c !in m.spaces && c < NR_TASKS
    requires !Fork(m, p, c).halted && Private(Fork(m, p, c), Slot(p, v)) && Private(Fork(m, p, c), Slot(c, v))
    ensures PageOf(UserWrite(Fork(m, p, c), p, addr, b), Slot(c, v)) == PageOf(m, Slot(p, v))
    ensures PageOf(UserWrite(Fork(m, p, c), c, addr, b), Slot(p, v)) == PageOf(m, Slot(p, v))
  {
    hide *;
    ForkSameBytes(m, p, c, v);
    var r := Fork(m, p, c);
    WriteOthers(r, p, addr, b, Slot(c, v));
    WriteOthers(r, c, addr, b, Slot(p, v));
  }
}
