/** The operations of src/kernel/memory.c on whole address spaces: unmapping a range, fork and exit. Each keeps
    the counting invariants; each mirrors the code's loop as a left fold over pages or directory entries. */
module AddressSpaces {
  import opened Frames

  const EXEC_ADDR: nat := 0x1000000
  const MMAP_ADDR: nat := 0x8000000
  const STACK_TOP: nat := 0x10000000
  const STACK_BOTTOM: nat := 0xFE00000
  const TWO32: nat := 0x1_0000_0000

  /** Every mapped page lies under a present page table. */
  ghost predicate Tabled(m: Machine) {
    forall s | s in m.frames :: DirOf(s) in m.tables
  }

  ghost predicate Good(m: Machine) {
    Base(m) && (!m.halted ==> Tabled(m))
  }

  /** `r` maps `s` exactly as `m` does. */
  ghost predicate KeptSlot(m: Machine, r: Machine, s: Slot) {
    && (s in r.frames <==> s in m.frames)
    && (s in m.frames && s in r.frames ==> r.frames[s] == m.frames[s])
    && (s in r.flags <==> s in m.flags)
    && (s in m.flags && s in r.flags ==> r.flags[s] == m.flags[s])
  }

  /** What a process finds at a page. */
  datatype Contents = Unmapped | Mapped(bytes: Page)

  function PageOf(m: Machine, s: Slot): Contents {
    if s in m.frames && m.frames[s] < |m.mem| then Mapped(m.mem[m.frames[s]]) else Unmapped
  }

  predicate Private(m: Machine, s: Slot) {
    s in m.flags && !m.flags[s].shared
  }

  /** `r` leaves slot `s` mapped as in `m` and, if it is private, its bytes as well. */
  ghost predicate KeptPage(m: Machine, r: Machine, s: Slot) {
    KeptSlot(m, r, s) && (Private(m, s) ==> PageOf(r, s) == PageOf(m, s))
  }

  /** Nothing of any process but `p` changes. */
  ghost predicate Others(m: Machine, r: Machine, p: Pid) {
    forall s: Slot | s.pid != p :: KeptPage(m, r, s)
  }

  /** Nothing but slot `s` changes. */
  ghost predicate AllBut(m: Machine, r: Machine, s: Slot) {
    forall u | u != s :: KeptPage(m, r, u)
  }

  lemma OthersTrans(m: Machine, n: Machine, r: Machine, p: Pid)
    requires Others(m, n, p) && Others(n, r, p)
    ensures Others(m, r, p)
  {
    forall s: Slot | s.pid != p
      ensures KeptPage(m, r, s)
    {
      assert KeptPage(m, n, s) && KeptPage(n, r, s);
    }
  }

  lemma AllButTrans(m: Machine, n: Machine, r: Machine, s: Slot)
    requires AllBut(m, n, s) && AllBut(n, r, s)
    ensures AllBut(m, r, s)
  {
    forall u | u != s
      ensures KeptPage(m, r, u)
    {
      assert KeptPage(m, n, u) && KeptPage(n, r, u);
    }
  }

  lemma AllButOthers(m: Machine, r: Machine, s: Slot)
    requires AllBut(m, r, s)
    ensures Others(m, r, s.pid)
  {
  }

  lemma SamePages(m: Machine, r: Machine, s: Slot)
    requires r.frames == m.frames && r.flags == m.flags && r.mem == m.mem
    ensures AllBut(m, r, s) && Others(m, r, s.pid) && PageOf(r, s) == PageOf(m, s)
  {
  }

  /** What is left of a page table when `k` pages from `lo` are gone. */
  function Outside<T>(table: map<Slot, T>, p: Pid, lo: nat, k: nat): map<Slot, T> {
    map s | s in table && !(s.pid == p && lo <= s.vpn < lo + k) :: table[s]
  }

  lemma OutsideStep<T>(table: map<Slot, T>, p: Pid, lo: nat, k: nat)
    ensures Outside(table, p, lo, 0) == table
    ensures Outside(table, p, lo, k) - {Slot(p, lo + k)} == Outside(table, p, lo, k + 1)
  {
  }

  /** What Base says about one mapped page. */
  lemma MappedFacts(m: Machine, s: Slot)
    requires Base(m) && s in m.frames
    ensures s in m.flags && OwnedSlot(s, m.spaces)
    ensures KERNEL_FRAMES <= m.frames[s] < |m.counts| == |m.mem| && m.counts[m.frames[s]] >= 1
  {
    MappedCount(m, s);
  }

  // ---- unmapping a range of pages ----

  function UnlinkRange(m: Machine, p: Pid, lo: nat, k: nat): (r: Machine)
    requires Base(m)
    ensures Base(r) && (Cow(m) ==> Cow(r))
    ensures r.mem == m.mem && r.spaces == m.spaces && r.tables == m.tables && r.halted == m.halted
    ensures !m.halted ==> r.frames == Outside(m.frames, p, lo, k) && r.flags == Outside(m.flags, p, lo, k)
    ensures m.halted ==> r == m
    decreases k
  {
    hide Base; hide Cow; hide Outside;
    if k == 0 then
      OutsideStep(m.frames, p, lo, 0);
      OutsideStep(m.flags, p, lo, 0);
      m
    else
      OutsideStep(m.frames, p, lo, k - 1);
      OutsideStep(m.flags, p, lo, k - 1);
      UnlinkPage(UnlinkRange(m, p, lo, k - 1), Slot(p, lo + k - 1))
  }

  // ---- fork ----

  /** The child maps what the parent maps below `limit`, on the same frames with the same flags. */
  ghost predicate Mirrored(m: Machine, p: Pid, c: Pid, limit: nat) {
    && (forall v: nat :: Slot(c, v) in m.frames <==> Slot(p, v) in m.frames && v < limit)
    && (forall v: nat | Slot(c, v) in m.frames && Slot(p, v) in m.frames ::
      m.frames[Slot(c, v)] == m.frames[Slot(p, v)])
    && (forall v: nat | Slot(c, v) in m.flags && Slot(p, v) in m.flags :: m.flags[Slot(c, v)] == m.flags[Slot(p, v)])
  }

  /** Fork moves no mapping of anyone but the child, and at most freezes the parent's flags. */
  ghost predicate ParentKept(m: Machine, r: Machine, p: Pid, c: Pid) {
    && (forall s: Slot | s.pid != c :: (s in r.frames <==> s in m.frames) && (s in r.flags <==> s in m.flags))
    && (forall s: Slot | s.pid != c && s in m.frames && s in r.frames :: r.frames[s] == m.frames[s])
    && (forall s: Slot | s.pid != c && s in m.flags && s in r.flags ::
      r.flags[s] == m.flags[s] || (s.pid == p && r.flags[s] == Frozen(m.flags[s])))
  }

  lemma SharePageOk(m: Machine, p: Pid, c: Pid, v: nat)
    requires Base(m) && p in m.spaces && c in m.spaces && p != c && Mirrored(m, p, c, v)
    requires Slot(p, v) in m.frames && Slot(p, v) in m.flags && m.frames[Slot(p, v)] < |m.counts|
    ensures Base(Share(m, Slot(p, v), Slot(c, v)))
    ensures Cow(m) ==> Cow(Share(m, Slot(p, v), Slot(c, v)))
  {
    var s, t := Slot(p, v), Slot(c, v);
    MappedFacts(m, s);
    forall u | u in m.frames && u.pid == c
      ensures m.frames[u] != m.frames[s]
    {
      assert Slot(c, u.vpn) in m.frames;
    }
    hide Base; hide Cow;
    ShareBase(m, s, t);
    ShareCow(m, s, t);
  }

  lemma SharePageMirrors(m: Machine, p: Pid, c: Pid, v: nat)
    requires p != c && Mirrored(m, p, c, v)
    requires Slot(p, v) in m.frames && Slot(p, v) in m.flags && m.frames[Slot(p, v)] < |m.counts|
    ensures Mirrored(Share(m, Slot(p, v), Slot(c, v)), p, c, v + 1)
    ensures ParentKept(m, Share(m, Slot(p, v), Slot(c, v)), p, c)
  {
  }

  lemma MirrorSkip(m: Machine, p: Pid, c: Pid, v: nat)
    requires Mirrored(m, p, c, v) && Slot(p, v) !in m.frames
    ensures Mirrored(m, p, c, v + 1)
  {
  }

  lemma ParentKeptRefl(m: Machine, p: Pid, c: Pid)
    ensures ParentKept(m, m, p, c)
  {
  }

  function SharePage(m: Machine, p: Pid, c: Pid, v: nat): (r: Machine)
    requires Base(m) && p in m.spaces && c in m.spaces && p != c && Mirrored(m, p, c, v)
    ensures Base(r) && (Cow(m) ==> Cow(r))
    ensures r.mem == m.mem && r.spaces == m.spaces && r.tables == m.tables && r.halted == m.halted
    ensures Mirrored(r, p, c, v + 1) && r.free == m.free
    ensures ParentKept(m, r, p, c)
  {
    hide Base; hide Cow; hide Mirrored; hide ParentKept;
    if Slot(p, v) !in m.frames then
      ParentKeptRefl(m, p, c);
      MirrorSkip(m, p, c, v);
      m
    else
      MappedFacts(m, Slot(p, v));
      SharePageOk(m, p, c, v);
      SharePageMirrors(m, p, c, v);
      Share(m, Slot(p, v), Slot(c, v))
  }

  lemma ParentKeptTrans(m: Machine, n: Machine, r: Machine, p: Pid, c: Pid)
    requires ParentKept(m, n, p, c) && ParentKept(n, r, p, c)
    ensures ParentKept(m, r, p, c)
  {
  }

  function ShareUpTo(m: Machine, p: Pid, c: Pid, lo: nat, k: nat): (r: Machine)
    requires Base(m) && p in m.spaces && c in m.spaces && p != c && Mirrored(m, p, c, lo)
    ensures Base(r) && (Cow(m) ==> Cow(r))
    ensures r.mem == m.mem && r.spaces == m.spaces && r.tables == m.tables && r.halted == m.halted
    ensures Mirrored(r, p, c, lo + k) && r.free == m.free
    ensures ParentKept(m, r, p, c)
    decreases k
  {
    hide Base; hide Cow; hide Mirrored; hide ParentKept;
    if k == 0 then
      ParentKeptRefl(m, p, c);
      m
    else
      var n := ShareUpTo(m, p, c, lo, k - 1);
      var r := SharePage(n, p, c, lo + k - 1);
      ParentKeptTrans(m, n, r, p, c);
      r
  }

  /** Below `limit`, and everywhere for the other tasks, mapped pages have their page table. */
  ghost predicate TabledBelow(m: Machine, c: Pid, limit: nat) {
    forall s | s in m.frames && (s.pid != c || s.vpn < limit) :: DirOf(s) in m.tables
  }

  ghost predicate ForkReady(m: Machine, p: Pid, c: Pid, didx: nat) {
    Mirrored(m, p, c, didx * TABLE) && TabledBelow(m, c, didx * TABLE)
      && (forall e | e in m.tables && e.pid == c :: e.didx < didx)
  }

  lemma ForkDirReady(m: Machine, n: Machine, r: Machine, p: Pid, c: Pid, didx: nat)
    requires p != c && ForkReady(m, p, c, didx)
    requires n.tables == m.tables && ParentKept(m, n, p, c) && Mirrored(n, p, c, (didx + 1) * TABLE)
    requires r.frames == n.frames && r.flags == n.flags
    requires Dir(c, didx) in r.tables && r.tables == n.tables[Dir(c, didx) := r.tables[Dir(c, didx)]]
    ensures ForkReady(r, p, c, didx + 1)
  {
    forall s | s in r.frames && (s.pid != c || s.vpn < (didx + 1) * TABLE)
      ensures DirOf(s) in r.tables
    {
      if s.pid == c && s.vpn < didx * TABLE {
        assert Slot(p, s.vpn) in n.frames;
        assert Slot(c, s.vpn) in m.frames;
      }
    }
  }

  lemma ForkDirSkip(m: Machine, p: Pid, c: Pid, didx: nat)
    requires p != c && ForkReady(m, p, c, didx) && Dir(p, didx) !in m.tables
    ensures ForkReady(m, p, c, didx + 1)
  {
    forall v: nat | didx * TABLE <= v < (didx + 1) * TABLE
      ensures Slot(p, v) !in m.frames
    {
      assert DirOf(Slot(p, v)) == Dir(p, didx);
    }
  }

  lemma ForkDirOk(m: Machine, p: Pid, c: Pid, didx: nat)
    requires Base(m) && p in m.spaces && c in m.spaces && p != c && FIRST_DIR <= didx < LAST_DIR
    requires Mirrored(m, p, c, didx * TABLE)
    ensures var n := ShareUpTo(m, p, c, didx * TABLE, TABLE); Mirrored(n, p, c, (didx + 1) * TABLE)
  {
    hide *;
    assert didx * TABLE + TABLE == (didx + 1) * TABLE;
  }

  lemma ParentKeptTables(m: Machine, n: Machine, r: Machine, p: Pid, c: Pid)
    requires ParentKept(m, n, p, c) && r.frames == n.frames && r.flags == n.flags
    ensures ParentKept(m, r, p, c)
  {
  }

  lemma ForkReadyParts(m: Machine, p: Pid, c: Pid, didx: nat)
    requires ForkReady(m, p, c, didx)
    ensures Mirrored(m, p, c, didx * TABLE) && Dir(c, didx) !in m.tables
  {
  }

  lemma DirOwned(m: Machine, c: Pid, didx: nat)
    requires c in m.spaces && FIRST_DIR <= didx < LAST_DIR
    ensures OwnedDir(Dir(c, didx), m.spaces)
  {
  }

  /** The pages under one directory entry are shared, and a page table for the child is made. */
  function ShareDir(m: Machine, p: Pid, c: Pid, didx: nat): (r: Machine)
    requires Base(m) && p in m.spaces && c in m.spaces && p != c && FIRST_DIR <= didx < LAST_DIR
    requires ForkReady(m, p, c, didx)
    ensures Base(r) && (Cow(m) ==> Cow(r))
    ensures r.mem == m.mem && r.spaces == m.spaces
    ensures !r.halted ==> ForkReady(r, p, c, didx + 1)
    ensures ParentKept(m, r, p, c)
  {
    hide Base; hide Cow; hide Mirrored; hide ForkReady; hide ParentKept; hide ShareUpTo; hide AddTable;
    hide CountsKept; hide OwnedDir;
    DirOwned(m, c, didx);
    ForkReadyParts(m, p, c, didx);
    ForkDirOk(m, p, c, didx);
    var n := ShareUpTo(m, p, c, didx * TABLE, TABLE);
    var r := AddTable(n, Dir(c, didx));
    assert !r.halted ==> ForkReady(r, p, c, didx + 1) by { if !r.halted { ForkDirReady(m, n, r, p, c, didx); } }
    ParentKeptTables(m, n, r, p, c);
    r
  }

  /** One directory entry of copy_pde. */
  function ForkDir(m: Machine, p: Pid, c: Pid, didx: nat): (r: Machine)
    requires Base(m) && p in m.spaces && c in m.spaces && p != c && FIRST_DIR <= didx < LAST_DIR
    requires !m.halted ==> ForkReady(m, p, c, didx)
    ensures Base(r) && (Cow(m) ==> Cow(r)) && (m.halted ==> r == m)
    ensures r.mem == m.mem && r.spaces == m.spaces
    ensures !r.halted ==> ForkReady(r, p, c, didx + 1)
    ensures ParentKept(m, r, p, c)
  {
    hide Base; hide Cow; hide ForkReady; hide ParentKept; hide ShareDir;
    ParentKeptRefl(m, p, c);
    if m.halted then
      m
    else if Dir(p, didx) !in m.tables then
      ForkDirSkip(m, p, c, didx);
      m
    else
      ShareDir(m, p, c, didx)
  }

  function ForkUpTo(m: Machine, p: Pid, c: Pid, d: nat): (r: Machine)
    requires Base(m) && p in m.spaces && c in m.spaces && p != c && FIRST_DIR <= d <= LAST_DIR
    requires !m.halted ==> ForkReady(m, p, c, FIRST_DIR)
    ensures Base(r) && (Cow(m) ==> Cow(r)) && (m.halted ==> r == m)
    ensures r.mem == m.mem && r.spaces == m.spaces
    ensures !r.halted ==> ForkReady(r, p, c, d)
    ensures ParentKept(m, r, p, c)
    decreases d
  {
    hide Base; hide Cow; hide ForkReady; hide ParentKept;
    if d == FIRST_DIR then
      ParentKeptRefl(m, p, c);
      m
    else
      var n := ForkUpTo(m, p, c, d - 1);
      var r := ForkDir(n, p, c, d - 1);
      ParentKeptTrans(m, n, r, p, c);
      r
  }

  lemma SpaceBase(m: Machine, p: Pid, l: Layout)
    requires Base(m) && p < NR_TASKS && |l.vmap| == VMAP_PAGES
    ensures Base(m.(spaces := m.spaces[p := l]))
    ensures Cow(m) ==> Cow(m.(spaces := m.spaces[p := l]))
  {
  }

  lemma VmapSize(m: Machine, p: Pid)
    requires Base(m) && p in m.spaces
    ensures p < NR_TASKS && |m.spaces[p].vmap| == VMAP_PAGES
  {
  }

  function SetLayout(m: Machine, p: Pid, l: Layout): (r: Machine)
    requires Base(m) && p < NR_TASKS && |l.vmap| == VMAP_PAGES
    ensures Base(r) && (Cow(m) ==> Cow(r))
  {
    SpaceBase(m, p, l);
    m.(spaces := m.spaces[p := l])
  }

  lemma NothingOwned(m: Machine, c: Pid)
    requires Base(m) && c !in m.spaces
    ensures forall s | s in m.frames || s in m.flags :: s.pid != c
    ensures forall e | e in m.tables :: e.pid != c
  {
  }

  lemma ForkStart(m: Machine, p: Pid, c: Pid)
    requires Good(m) && !m.halted && p in m.spaces && c !in m.spaces && c < NR_TASKS
    ensures ForkReady(m.(spaces := m.spaces[c := m.spaces[p]]), p, c, FIRST_DIR)
  {
    NothingOwned(m, c);
    forall v: nat | Slot(p, v) in m.frames
      ensures v >= FIRST_DIR * TABLE
    {
    }
  }

  lemma ForkDone(m: Machine, p: Pid, c: Pid)
    requires Base(m) && ForkReady(m, p, c, LAST_DIR)
    ensures Tabled(m)
    ensures forall v: nat :: Slot(c, v) in m.frames <==> Slot(p, v) in m.frames
  {
    forall s | s in m.frames
      ensures s.vpn < LAST_DIR * TABLE
    {
    }
  }

  /** task_fork's part in memory.c: copy the layout, then copy_pde. */
  function Fork(m: Machine, p: Pid, c: Pid): (r: Machine)
    requires Good(m) && p in m.spaces && c !in m.spaces && c < NR_TASKS
    ensures Good(r) && (Cow(m) ==> Cow(r)) && (m.halted ==> r == m)
    ensures r.mem == m.mem && (!m.halted ==> r.spaces == m.spaces[c := m.spaces[p]])
    ensures ParentKept(m, r, p, c)
    ensures !r.halted ==> Mirrored(r, p, c, LAST_DIR * TABLE)
    ensures !r.halted ==> forall v: nat :: Slot(c, v) in r.frames <==> Slot(p, v) in r.frames
  {
    hide Base; hide Cow; hide Mirrored; hide ParentKept; hide ForkReady; hide ForkUpTo;
    if m.halted then
      ParentKeptRefl(m, p, c);
      m
    else
      VmapSize(m, p);
      ForkStart(m, p, c);
      var n := SetLayout(m, c, m.spaces[p]);
      assert ParentKept(m, n, p, c) by { ParentKeptRefl(m, p, c); ParentKeptTables(m, m, n, p, c); }
      var r := ForkUpTo(n, p, c, LAST_DIR);
      ParentKeptTrans(m, n, r, p, c);
      assert !r.halted ==> Tabled(r) && forall v: nat :: Slot(c, v) in r.frames <==> Slot(p, v) in r.frames by {
        if !r.halted { ForkDone(r, p, c); }
      }
      r
  }

  // ---- what fork does to the flags ----

  /** A shared entry keeps its flags; a private one loses write permission and nothing else. */
  predicate Demoted(e: Flags, f: Flags) {
    f.shared == e.shared && f.priv == e.priv && f.readonly == e.readonly
               && (f.write <==> e.write && e.shared)
  }

  /** The parent's entries from `lo` to `hi` are demoted, its others as they were. */
  ghost predicate DemotedIn(m: Machine, r: Machine, p: Pid, lo: nat, hi: nat) {
    forall v: nat | Slot(p, v) in m.flags && Slot(p, v) in r.flags ::
      if lo <= v < hi then Demoted(m.flags[Slot(p, v)], r.flags[Slot(p, v)])
      else r.flags[Slot(p, v)] == m.flags[Slot(p, v)]
  }

  lemma DemotedSame(m: Machine, r: Machine, p: Pid, lo: nat)
    requires r.flags == m.flags
    ensures DemotedIn(m, r, p, lo, lo)
  {
  }

  lemma DemotedJoin(m: Machine, n: Machine, r: Machine, p: Pid, c: Pid, lo: nat, mid: nat, hi: nat)
    requires lo <= mid <= hi && p != c && DemotedIn(m, n, p, lo, mid) && DemotedIn(n, r, p, mid, hi)
    requires ParentKept(m, n, p, c)
    ensures DemotedIn(m, r, p, lo, hi)
  {
  }

  /** Pages that are not there can be counted in. */
  lemma DemotedWiden(m: Machine, r: Machine, p: Pid, lo: nat, mid: nat, hi: nat)
    requires lo <= mid <= hi && DemotedIn(m, r, p, lo, mid)
    requires forall v: nat | mid <= v < hi :: Slot(p, v) !in m.flags
    ensures DemotedIn(m, r, p, lo, hi)
  {
  }

  lemma ShareDemotes(m: Machine, p: Pid, c: Pid, v: nat)
    requires Base(m) && p in m.spaces && c in m.spaces && p != c && Mirrored(m, p, c, v)
    ensures DemotedIn(m, SharePage(m, p, c, v), p, v, v + 1)
  {
    hide Counted; hide Unaliased; hide TablesAlone; hide Owned; hide Mirrored; hide ParentKept; hide Cow;
  }

  lemma {:induction false} ShareUpToDemotes(m: Machine, p: Pid, c: Pid, lo: nat, k: nat)
    requires Base(m) && p in m.spaces && c in m.spaces && p != c && Mirrored(m, p, c, lo)
    ensures DemotedIn(m, ShareUpTo(m, p, c, lo, k), p, lo, lo + k)
    decreases k
  {
    hide Base; hide Cow; hide Mirrored; hide ParentKept; hide SharePage; hide DemotedIn;
    if k == 0 {
      DemotedSame(m, m, p, lo);
    } else {
      var n := ShareUpTo(m, p, c, lo, k - 1);
      ShareUpToDemotes(m, p, c, lo, k - 1);
      ShareDemotes(n, p, c, lo + k - 1);
      DemotedJoin(m, n, SharePage(n, p, c, lo + k - 1), p, c, lo, lo + k - 1, lo + k);
    }
  }

  lemma SkippedDir(m: Machine, p: Pid, c: Pid, didx: nat)
    requires Base(m) && p != c && ForkReady(m, p, c, didx) && Dir(p, didx) !in m.tables
    ensures forall v: nat | didx * TABLE <= v < (didx + 1) * TABLE :: Slot(p, v) !in m.flags
  {
    forall v: nat | didx * TABLE <= v < (didx + 1) * TABLE
      ensures Slot(p, v) !in m.flags
    {
      assert DirOf(Slot(p, v)) == Dir(p, didx);
    }
  }

  lemma DemotedFlags(m: Machine, n: Machine, r: Machine, p: Pid, lo: nat, hi: nat)
    requires DemotedIn(m, n, p, lo, hi) && r.flags == n.flags
    ensures DemotedIn(m, r, p, lo, hi)
  {
  }

  lemma ForkDirDemotes(m: Machine, p: Pid, c: Pid, didx: nat)
    requires Base(m) && p in m.spaces && c in m.spaces && p != c && FIRST_DIR <= didx < LAST_DIR
    requires !m.halted && ForkReady(m, p, c, didx)
    ensures DemotedIn(m, ForkDir(m, p, c, didx), p, didx * TABLE, (didx + 1) * TABLE)
  {
    hide Base; hide Cow; hide Mirrored; hide ForkReady; hide ParentKept; hide ShareUpTo; hide AddTable;
    hide CountsKept; hide OwnedDir; hide DemotedIn;
    assert didx * TABLE + TABLE == (didx + 1) * TABLE;
    if Dir(p, didx) in m.tables {
      DirOwned(m, c, didx);
      ForkReadyParts(m, p, c, didx);
      var n := ShareUpTo(m, p, c, didx * TABLE, TABLE);
      ShareUpToDemotes(m, p, c, didx * TABLE, TABLE);
      DemotedFlags(m, n, ForkDir(m, p, c, didx), p, didx * TABLE, didx * TABLE + TABLE);
    } else {
      SkippedDir(m, p, c, didx);
      DemotedSame(m, m, p, didx * TABLE);
      DemotedWiden(m, m, p, didx * TABLE, didx * TABLE, (didx + 1) * TABLE);
    }
  }

  lemma {:induction false} ForkUpToDemotes(m: Machine, p: Pid, c: Pid, d: nat)
    requires Base(m) && p in m.spaces && c in m.spaces && p != c && FIRST_DIR <= d <= LAST_DIR
    requires !m.halted && ForkReady(m, p, c, FIRST_DIR) && !ForkUpTo(m, p, c, d).halted
    ensures DemotedIn(m, ForkUpTo(m, p, c, d), p, FIRST_DIR * TABLE, d * TABLE)
    decreases d
  {
    hide Base; hide Cow; hide ForkReady; hide ParentKept; hide DemotedIn; hide ForkDir;
    if d == FIRST_DIR {
      DemotedSame(m, m, p, FIRST_DIR * TABLE);
    } else {
      var n := ForkUpTo(m, p, c, d - 1);
      ForkUpToDemotes(m, p, c, d - 1);
      ForkDirDemotes(n, p, c, d - 1);
      DemotedJoin(m, n, ForkDir(n, p, c, d - 1), p, c, FIRST_DIR * TABLE, (d - 1) * TABLE, d * TABLE);
    }
  }

  lemma UserPage(m: Machine, s: Slot)
    requires Base(m) && s in m.flags
    ensures s in m.frames && FIRST_DIR * TABLE <= s.vpn < LAST_DIR * TABLE
  {
  }

  /** After a fork that does not halt, every page of the parent has the same flags in parent and child: a shared page
      all of its old ones, a private page all but write. */
  lemma ForkFlags(m: Machine, p: Pid, c: Pid, v: nat)
    requires Good(m) && !m.halted && p in m.spaces && c !in m.spaces && c < NR_TASKS && !Fork(m, p, c).halted
    requires Slot(p, v) in m.flags
    ensures var r := Fork(m, p, c);
            && Slot(p, v) in r.flags && Slot(c, v) in r.flags && r.flags[Slot(c, v)] == r.flags[Slot(p, v)]
            && var e, f := m.flags[Slot(p, v)], r.flags[Slot(p, v)];
               f.shared == e.shared && f.priv == e.priv && f.readonly == e.readonly
               && (f.write <==> e.write && e.shared)
  {
    hide Base; hide Cow; hide ForkReady; hide ForkUpTo;
    VmapSize(m, p);
    ForkStart(m, p, c);
    UserPage(m, Slot(p, v));
    var n, r := SetLayout(m, c, m.spaces[p]), Fork(m, p, c);
    ForkUpToDemotes(n, p, c, LAST_DIR);
    assert Mirrored(r, p, c, LAST_DIR * TABLE) && ParentKept(m, r, p, c);
    FlagsMatch(r, Slot(c, v));
    assert Slot(c, v) in r.frames;
  }

  lemma FlagsMatch(m: Machine, s: Slot)
    requires Base(m)
    ensures s in m.frames <==> s in m.flags
  {
  }

  // ---- when fork runs out of frames ----

  /** Fork allocates page tables for the child only. */
  ghost predicate TablesKept(m: Machine, r: Machine, c: Pid) {
    forall e: Dir | e.pid != c :: e in r.tables <==> e in m.tables
  }

  lemma TablesKeptSame(m: Machine, r: Machine, c: Pid)
    requires r.tables == m.tables
    ensures TablesKept(m, r, c)
  {
  }

  lemma TablesKeptAdd(m: Machine, n: Machine, r: Machine, c: Pid, d: nat)
    requires n.tables == m.tables && Dir(c, d) in r.tables && r.tables == n.tables[Dir(c, d) := r.tables[Dir(c, d)]]
    ensures TablesKept(m, r, c)
  {
  }

  lemma TablesKeptTrans(m: Machine, n: Machine, r: Machine, c: Pid)
    requires TablesKept(m, n, c) && TablesKept(n, r, c)
    ensures TablesKept(m, r, c)
  {
  }

  lemma TablesKeptAt(m: Machine, r: Machine, c: Pid, e: Dir)
    requires TablesKept(m, r, c) && e.pid != c
    ensures e in r.tables <==> e in m.tables
  {
  }

  /** How many page tables `p` has below directory entry `d`. */
  function PageTables(tables: map<Dir, nat>, p: Pid, d: nat): nat
    requires d >= FIRST_DIR
    decreases d
  {
    if d == FIRST_DIR then 0 else PageTables(tables, p, d - 1) + if Dir(p, d - 1) in tables then 1 else 0
  }

  lemma ForkDirHalts(m: Machine, p: Pid, c: Pid, didx: nat)
    requires Base(m) && p in m.spaces && c in m.spaces && p != c && FIRST_DIR <= didx < LAST_DIR
    requires !m.halted && ForkReady(m, p, c, didx)
    ensures var r := ForkDir(m, p, c, didx);
            && (r.halted <==> Dir(p, didx) in m.tables && m.free == 0)
            && (!r.halted ==> TablesKept(m, r, c) && r.free == m.free - if Dir(p, didx) in m.tables then 1 else 0)
  {
    hide Base; hide Cow; hide Mirrored; hide ForkReady; hide ParentKept; hide ShareUpTo; hide AddTable; hide TablesKept;
    hide CountsKept; hide OwnedDir;
    TablesKeptSame(m, m, c);
    if Dir(p, didx) in m.tables {
      ForkReadyParts(m, p, c, didx);
      var n := ShareUpTo(m, p, c, didx * TABLE, TABLE);
      var r := ForkDir(m, p, c, didx);
      if !r.halted {
        TablesKeptAdd(m, n, r, c, didx);
      }
    }
  }

  lemma TablesStep(tables: map<Dir, nat>, p: Pid, d: nat)
    requires d >= FIRST_DIR
    ensures d == FIRST_DIR ==> PageTables(tables, p, d) == 0
    ensures d > FIRST_DIR ==>
              PageTables(tables, p, d) == PageTables(tables, p, d - 1) + if Dir(p, d - 1) in tables then 1 else 0
  {
  }

  lemma {:induction false} ForkUpToHalts(m: Machine, p: Pid, c: Pid, d: nat)
    requires Base(m) && p in m.spaces && c in m.spaces && p != c && FIRST_DIR <= d <= LAST_DIR
    requires !m.halted && ForkReady(m, p, c, FIRST_DIR)
    ensures var r := ForkUpTo(m, p, c, d);
            && (r.halted <==> m.free < PageTables(m.tables, p, d))
            && (!r.halted ==> TablesKept(m, r, c) && r.free == m.free - PageTables(m.tables, p, d))
    decreases d
  {
    hide Base; hide Cow; hide ForkReady; hide ParentKept; hide TablesKept; hide ForkDir; hide PageTables;
    FreeFrames(m);
    TablesStep(m.tables, p, d);
    if d == FIRST_DIR {
      TablesKeptSame(m, m, c);
    } else {
      ForkUpToHalts(m, p, c, d - 1);
      var n := ForkUpTo(m, p, c, d - 1);
      if !n.halted {
        FreeFrames(n);
        ForkDirHalts(n, p, c, d - 1);
        TablesKeptAt(m, n, c, Dir(p, d - 1));
        var r := ForkDir(n, p, c, d - 1);
        if !r.halted {
          TablesKeptTrans(m, n, r, c);
        }
      }
    }
  }

  /** fork panics exactly when fewer frames are free than the parent has page tables. */
  lemma ForkHalts(m: Machine, p: Pid, c: Pid)
    requires Good(m) && !m.halted && p in m.spaces && c !in m.spaces && c < NR_TASKS
    ensures var r := Fork(m, p, c);
            && (r.halted <==> m.free < PageTables(m.tables, p, LAST_DIR))
            && (!r.halted ==> TablesKept(m, r, c) && r.free == m.free - PageTables(m.tables, p, LAST_DIR))
  {
    hide Base; hide Cow; hide Mirrored; hide ParentKept; hide ForkReady; hide ForkUpTo; hide PageTables;
    hide TablesKept;
    VmapSize(m, p);
    ForkStart(m, p, c);
    var n := SetLayout(m, c, m.spaces[p]);
    ForkUpToHalts(n, p, c, LAST_DIR);
    var r := Fork(m, p, c);
    if !r.halted {
      TablesKeptSame(m, n, c);
      TablesKeptTrans(m, n, r, c);
    }
  }

  // ---- exit (free_pde) ----

  function OtherTables(tables: map<Dir, nat>, p: Pid, d: nat): map<Dir, nat> {
    map e | e in tables && !(e.pid == p && e.didx < d) :: tables[e]
  }

  lemma OtherTablesStep(tables: map<Dir, nat>, p: Pid, d: nat)
    ensures OtherTables(tables, p, d) - {Dir(p, d)} == OtherTables(tables, p, d + 1)
  {
  }

  lemma OutsideJoin<T>(table: map<Slot, T>, p: Pid, lo: nat, k: nat, j: nat)
    ensures Outside(Outside(table, p, lo, k), p, lo + k, j) == Outside(table, p, lo, k + j)
  {
  }

  /** A directory entry that is absent has no pages under it. */
  lemma EmptyDir<T>(table: map<Slot, T>, tables: map<Dir, nat>, p: Pid, d: nat)
    requires forall s | s in table && s.pid == p && d * TABLE <= s.vpn < (d + 1) * TABLE :: DirOf(s) in tables
    requires Dir(p, d) !in tables
    ensures Outside(table, p, d * TABLE, TABLE) == table
  {
    forall s: Slot | s.pid == p && d * TABLE <= s.vpn < d * TABLE + TABLE
      ensures s !in table
    {
      assert DirOf(s) == Dir(p, d);
    }
  }

  ghost predicate DirCut(m: Machine, r: Machine, p: Pid, d: nat) {
    if Dir(p, d) in m.tables then
      && r.frames == Outside(m.frames, p, d * TABLE, TABLE)
      && r.flags == Outside(m.flags, p, d * TABLE, TABLE)
      && r.tables == m.tables - {Dir(p, d)}
    else
      r == m
  }

  function ExitDir(m: Machine, p: Pid, d: nat): (r: Machine)
    requires Base(m)
    ensures Base(r) && (Cow(m) ==> Cow(r))
    ensures r.mem == m.mem && r.spaces == m.spaces && r.halted == m.halted && (m.halted ==> r == m)
    ensures !m.halted ==> DirCut(m, r, p, d)
  {
    hide Base; hide Cow;
    if m.halted || Dir(p, d) !in m.tables then m
    else DropTable(UnlinkRange(m, p, d * TABLE, TABLE), Dir(p, d))
  }

  ghost predicate Exited(m: Machine, r: Machine, p: Pid, d: nat)
    requires d >= FIRST_DIR
  {
    && r.frames == Outside(m.frames, p, FIRST_DIR * TABLE, (d - FIRST_DIR) * TABLE)
    && r.flags == Outside(m.flags, p, FIRST_DIR * TABLE, (d - FIRST_DIR) * TABLE)
    && r.tables == OtherTables(m.tables, p, d)
  }

  ghost predicate SlotsTabled(m: Machine) {
    forall s | s in m.frames || s in m.flags :: DirOf(s) in m.tables
  }

  lemma GoodTabled(m: Machine)
    requires Good(m) && !m.halted
    ensures SlotsTabled(m)
  {
  }

  lemma NoTableLeft(m: Machine, n: Machine, p: Pid, d: nat)
    requires SlotsTabled(m) && d > FIRST_DIR && Exited(m, n, p, d - 1) && Dir(p, d - 1) !in n.tables
    ensures Outside(n.frames, p, (d - 1) * TABLE, TABLE) == n.frames
    ensures Outside(n.flags, p, (d - 1) * TABLE, TABLE) == n.flags
    ensures n.tables - {Dir(p, d - 1)} == n.tables
  {
    EmptyDir(n.frames, m.tables, p, d - 1);
    EmptyDir(n.flags, m.tables, p, d - 1);
  }

  lemma ExitDirExits(m: Machine, n: Machine, r: Machine, p: Pid, d: nat)
    requires SlotsTabled(m) && d > FIRST_DIR && Exited(m, n, p, d - 1) && DirCut(n, r, p, d - 1)
    ensures Exited(m, r, p, d)
  {
    hide Outside; hide OtherTables; hide SlotsTabled;
    var lo, k := FIRST_DIR * TABLE, (d - 1 - FIRST_DIR) * TABLE;
    assert lo + k == (d - 1) * TABLE && (d - FIRST_DIR) * TABLE == k + TABLE;
    OutsideJoin(m.frames, p, lo, k, TABLE);
    OutsideJoin(m.flags, p, lo, k, TABLE);
    OtherTablesStep(m.tables, p, d - 1);
    if Dir(p, d - 1) !in n.tables {
      NoTableLeft(m, n, p, d);
    }
  }

  lemma ExitStart(m: Machine, p: Pid)
    requires Base(m)
    ensures Exited(m, ExitUpTo(m, p, FIRST_DIR), p, FIRST_DIR)
  {
    OutsideStep(m.frames, p, FIRST_DIR * TABLE, 0);
    OutsideStep(m.flags, p, FIRST_DIR * TABLE, 0);
    NoLowTables(m, p);
  }

  function ExitUpTo(m: Machine, p: Pid, d: nat): (r: Machine)
    requires Base(m) && d >= FIRST_DIR
    ensures Base(r) && (Cow(m) ==> Cow(r))
    ensures r.mem == m.mem && r.spaces == m.spaces && r.halted == m.halted && (m.halted ==> r == m)
    decreases d
  {
    hide Base; hide Cow;
    if d == FIRST_DIR then m else ExitDir(ExitUpTo(m, p, d - 1), p, d - 1)
  }

  lemma ExitStep(m: Machine, p: Pid, d: nat)
    requires Base(m) && SlotsTabled(m) && !m.halted && d > FIRST_DIR
    requires Exited(m, ExitUpTo(m, p, d - 1), p, d - 1)
    ensures Exited(m, ExitUpTo(m, p, d), p, d)
  {
    ghost var n := ExitUpTo(m, p, d - 1);
    ghost var r := ExitDir(n, p, d - 1);
    assert ExitUpTo(m, p, d) == r;
    hide *;
    ExitDirExits(m, n, r, p, d);
  }

  lemma {:induction false} ExitUpToExits(m: Machine, p: Pid, d: nat)
    requires Base(m) && SlotsTabled(m) && !m.halted && d >= FIRST_DIR
    ensures Exited(m, ExitUpTo(m, p, d), p, d)
    decreases d
  {
    hide *;
    if d == FIRST_DIR {
      ExitStart(m, p);
    } else {
      ExitUpToExits(m, p, d - 1);
      ExitStep(m, p, d);
    }
  }

  lemma NoLowTables(m: Machine, p: Pid)
    requires Base(m)
    ensures OtherTables(m.tables, p, FIRST_DIR) == m.tables
  {
  }

  lemma ExitedAll(m: Machine, r: Machine, p: Pid)
    requires Base(m) && Exited(m, r, p, LAST_DIR)
    ensures forall s | s in r.frames || s in r.flags :: s.pid != p
    ensures forall e | e in r.tables :: e.pid != p
  {
    forall s | s in m.frames || s in m.flags
      ensures OwnedSlot(s, m.spaces)
    {
    }
  }

  lemma ExitedTabled(m: Machine, r: Machine, p: Pid)
    requires SlotsTabled(m) && Exited(m, r, p, LAST_DIR)
    requires forall s | s in r.frames || s in r.flags :: s.pid != p
    ensures Tabled(r)
    ensures forall s: Slot | s.pid != p :: KeptSlot(m, r, s)
  {
  }

  lemma DropSpace(m: Machine, p: Pid)
    requires Base(m)
    requires forall s | s in m.frames || s in m.flags :: s.pid != p
    requires forall e | e in m.tables :: e.pid != p
    ensures Base(m.(spaces := m.spaces - {p}))
    ensures Cow(m) ==> Cow(m.(spaces := m.spaces - {p}))
  {
  }

  /** free_pde, and with it the end of the address space. */
  function Exit(m: Machine, p: Pid): (r: Machine)
    requires Good(m) && p in m.spaces
    ensures Good(r) && (Cow(m) ==> Cow(r))
    ensures r.mem == m.mem && r.halted == m.halted && (m.halted ==> r == m)
    ensures !m.halted ==> r.spaces == m.spaces - {p}
    ensures !m.halted ==> forall s | s in r.frames || s in r.flags :: s.pid != p
    ensures forall s: Slot | s.pid != p :: KeptSlot(m, r, s)
  {
    hide Base; hide Cow; hide Exited; hide SlotsTabled;
    if m.halted then
      m
    else
      GoodTabled(m);
      ExitUpToExits(m, p, LAST_DIR);
      var n := ExitUpTo(m, p, LAST_DIR);
      ExitedAll(m, n, p);
      ExitedTabled(m, n, p);
      DropSpace(n, p);
      n.(spaces := n.spaces - {p})
  }
}
