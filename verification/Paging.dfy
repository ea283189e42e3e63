/** System calls and page faults of src/kernel/memory.c as steps of one process:
    brk, mmap, munmap, the copy-on-write fault, and the user accesses that fault. */
module Paging {
  import opened Bitmaps
  import opened Counting
  import opened Frames
  import opened AddressSpaces

  // ---- small steps shared by the system calls ----

  function WithLayout(m: Machine, p: Pid, l: Layout): (r: Machine)
    requires Good(m) && p in m.spaces && |l.vmap| == VMAP_PAGES
    ensures Good(r) && (Cow(m) ==> Cow(r))
    ensures r == m.(spaces := m.spaces[p := l])
  {
    VmapSize(m, p);
    SpaceBase(m, p, l);
    m.(spaces := m.spaces[p := l])
  }

  /** Changing the flags of one entry keeps copy-on-write exactly when the entry does not become
      privately writable on a counted frame and does not change its sharing alone. */
  ghost predicate FlagsSafe(m: Machine, s: Slot, e: Flags)
    requires s in m.frames && s in m.flags && m.frames[s] < |m.counts|
  {
    m.counts[m.frames[s]] > 1 ==> (e.shared == m.flags[s].shared && (e.write ==> e.shared))
  }

  lemma OtherReference(m: Machine, s: Slot) returns (t: Slot)
    requires Base(m) && s in m.frames && m.counts[m.frames[s]] > 1
    ensures t != s && t in m.frames && t in m.flags && m.frames[t] == m.frames[s]
  {
    var f := m.frames[s];
    MappedCount(m, s);
    assert Holders(m.tables, f) == {};
    var others := Holders(m.frames, f) - {s};
    assert |Holders(m.frames, f)| > 1 && s in Holders(m.frames, f);
    assert |others| > 0;
    t :| t in others;
  }

  lemma FlagsExclusive(m: Machine, s: Slot, e: Flags)
    requires Base(m) && Cow(m) && s in m.frames && s in m.flags && m.frames[s] < |m.counts|
    requires FlagsSafe(m, s, e)
    ensures Exclusive(m.counts, m.frames, m.flags[s := e])
  {
    hide Counted; hide Zeros; hide TablesAlone; hide Unaliased; hide Agreed;
    MappedCount(m, s);
  }

  lemma FlagsAgreed(m: Machine, s: Slot, e: Flags)
    requires Base(m) && Cow(m) && s in m.frames && s in m.flags && m.frames[s] < |m.counts|
    requires FlagsSafe(m, s, e)
    ensures Agreed(m.frames, m.flags[s := e])
  {
    hide Counted; hide Zeros; hide TablesAlone; hide Unaliased; hide Exclusive;
    MappedCount(m, s);
    if m.counts[m.frames[s]] == 1 {
      OnlyReference(m, s);
    }
  }

  /** A second reference is left behind by unsafe flags. */
  lemma FlagsUnsafe(m: Machine, s: Slot, e: Flags)
    requires Base(m) && Cow(m) && s in m.frames && s in m.flags && m.frames[s] < |m.counts|
    requires !FlagsSafe(m, s, e)
    ensures !Cow(m.(flags := m.flags[s := e]))
  {
    hide Counted; hide Zeros; hide TablesAlone; hide Unaliased;
    var r := m.(flags := m.flags[s := e]);
    var t := OtherReference(m, s);
    assert r.flags[t] == m.flags[t] && r.frames[t] == r.frames[s];
  }

  lemma FlagsCow(m: Machine, s: Slot, e: Flags)
    requires Base(m) && Cow(m) && s in m.frames && s in m.flags && m.frames[s] < |m.counts|
    ensures Base(m.(flags := m.flags[s := e]))
    ensures Cow(m.(flags := m.flags[s := e])) <==> FlagsSafe(m, s, e)
  {
    hide Counted; hide Zeros; hide TablesAlone; hide Unaliased; hide Exclusive; hide Agreed; hide FlagsSafe;
    if FlagsSafe(m, s, e) {
      FlagsExclusive(m, s, e);
      FlagsAgreed(m, s, e);
    } else {
      FlagsUnsafe(m, s, e);
    }
  }

  lemma FlagsBase(m: Machine, s: Slot, e: Flags)
    requires Good(m) && s in m.frames && s in m.flags
    ensures Good(m.(flags := m.flags[s := e]))
  {
  }

  lemma FlagsKeep(m: Machine, s: Slot, e: Flags)
    requires s in m.frames && s in m.flags
    ensures AllBut(m, m.(flags := m.flags[s := e]), s)
    ensures PageOf(m.(flags := m.flags[s := e]), s) == PageOf(m, s)
  {
  }

  lemma GoodParts(m: Machine)
    requires Good(m)
    ensures Base(m) && (!m.halted ==> Tabled(m))
  {
  }

  function WithFlags(m: Machine, s: Slot, e: Flags): (r: Machine)
    requires Good(m) && s in m.frames
    ensures Good(r) && r == m.(flags := m.flags[s := e])
    ensures s in m.flags && m.frames[s] < |m.counts| && (Cow(m) ==> (Cow(r) <==> FlagsSafe(m, s, e)))
    ensures AllBut(m, r, s) && PageOf(r, s) == PageOf(m, s)
  {
    hide Base; hide Cow; hide Tabled; hide FlagsSafe; hide AllBut; hide PageOf; hide Good;
    GoodParts(m);
    MappedFacts(m, s);
    FlagsBase(m, s, e);
    FlagsKeep(m, s, e);
    assert Cow(m) ==> (Cow(m.(flags := m.flags[s := e])) <==> FlagsSafe(m, s, e)) by {
      if Cow(m) { FlagsCow(m, s, e); }
    }
    m.(flags := m.flags[s := e])
  }

  lemma LinkTabled(m: Machine, r: Machine, s: Slot)
    requires Tabled(m) && (forall e | e in m.tables :: e in r.tables)
    requires DirOf(s) in r.tables && forall u | u in r.frames && u != s :: u in m.frames
    ensures Tabled(r)
  {
  }

  lemma LinkKeeps(m: Machine, r: Machine, s: Slot)
    requires r.mem == m.mem
    requires (r.frames == m.frames && r.flags == m.flags)
             || (s !in m.frames && s in r.frames && r.frames == m.frames[s := r.frames[s]]
               && r.flags == m.flags[s := FRESH])
    ensures AllBut(m, r, s)
  {
  }

  function Link(m: Machine, s: Slot): (r: Machine)
    requires Good(m) && OwnedSlot(s, m.spaces)
    ensures Good(r) && r == LinkPage(m, s)
    ensures AllBut(m, r, s)
  {
    hide Base; hide Cow; hide Tabled; hide LinkPage; hide CountsKept; hide AllBut;
    var r := LinkPage(m, s);
    LinkKeeps(m, r, s);
    assert !r.halted ==> Tabled(r) by { if !r.halted { LinkTabled(m, r, s); } }
    r
  }

  // ---- page faults ----

  predicate Writable(m: Machine, s: Slot) {
    s in m.frames && s in m.flags && m.flags[s].write
  }

  /** The slot of a user address. */
  function SlotOf(p: Pid, addr: nat): Slot {
    Slot(p, addr / PAGE_SIZE)
  }

  lemma UserSlot(m: Machine, p: Pid, addr: nat)
    requires p in m.spaces && EXEC_ADDR <= addr < STACK_TOP
    ensures OwnedSlot(SlotOf(p, addr), m.spaces)
  {
  }

  lemma CopyTabled(m: Machine, s: Slot, f: nat)
    requires Tabled(m) && s in m.frames && m.frames[s] < |m.counts| == |m.mem| && f < |m.counts| && f != m.frames[s]
    requires m.counts[m.frames[s]] >= 1
    ensures Tabled(CopyAt(m, s, f))
  {
  }

  lemma CopyGood(m: Machine, s: Slot, f: nat)
    requires Good(m) && !m.halted && s in m.frames && s in m.flags && !m.flags[s].shared && m.counts[m.frames[s]] > 1
    requires KERNEL_FRAMES <= f < |m.counts| && m.counts[f] == 0
    ensures Good(CopyAt(m, s, f)) && (Cow(m) ==> Cow(CopyAt(m, s, f)))
  {
    hide Base; hide Cow; hide Tabled;
    MappedFacts(m, s);
    CopyTabled(m, s, f);
    CopyAtBase(m, s, f);
    CopyAtCow(m, s, f);
  }

  lemma CopyKeeps(m: Machine, s: Slot, f: nat)
    requires Base(m) && s in m.frames && m.frames[s] < |m.counts| == |m.mem| && m.counts[m.frames[s]] >= 1
    requires KERNEL_FRAMES <= f < |m.counts| && m.counts[f] == 0
    ensures AllBut(m, CopyAt(m, s, f), s)
    ensures PageOf(CopyAt(m, s, f), s) == PageOf(m, s)
  {
    hide Base;
    Unreferenced(m, f);
  }

  /** What makes a write to a present page panic: the page is shared or read-only, or it needs a copy and no frame
      is free. */
  predicate WritePanics(m: Machine, s: Slot) {
    && s in m.frames && s in m.flags && m.frames[s] < |m.counts|
    && (m.flags[s].shared || m.flags[s].readonly || (m.counts[m.frames[s]] != 1 && m.free == 0))
  }

  /** A write to a present read-only page: refused on shared and read-only pages (a failed assert),
      made writable in place by the last owner, copied otherwise. */
  function WriteFault(m: Machine, s: Slot): (r: Machine)
    requires Good(m) && !m.halted && s in m.frames
    ensures Good(r) && (Cow(m) ==> Cow(r))
    ensures r.spaces == m.spaces && r.tables == m.tables
    ensures AllBut(m, r, s) && PageOf(r, s) == PageOf(m, s)
    ensures !r.halted ==> Writable(r, s)
    ensures r.halted ==> r == Halt(m)
    ensures r.halted <==> WritePanics(m, s)
  {
    hide Base; hide Cow; hide Tabled; hide AllBut; hide PageOf;
    MappedFacts(m, s);
    SamePages(m, Halt(m), s);
    var e := m.flags[s];
    if e.shared || e.readonly then
      Halt0(m);
      Halt(m)
    else if m.counts[m.frames[s]] == 1 then
      WithFlags(m, s, e.(write := true))
    else
      NoFrame(m);
      var f := FirstZero(m.counts, KERNEL_FRAMES);
      if f == |m.counts| then
        Halt0(m);
        Halt(m)
      else
        CopyGood(m, s, f);
        CopyKeeps(m, s, f);
        CopyAt(m, s, f)
  }

  lemma Halt0(m: Machine)
    requires Base(m)
    ensures Good(Halt(m)) && (Cow(m) ==> Cow(Halt(m)))
  {
  }

  function Stop(m: Machine): (r: Machine)
    requires Good(m)
    ensures Good(r) && (Cow(m) ==> Cow(r)) && r == Halt(m)
  {
    Halt0(m);
    Halt(m)
  }

  lemma ExitOthers(m: Machine, p: Pid)
    requires Good(m) && p in m.spaces
    ensures Others(m, Exit(m, p), p)
    ensures !m.halted ==> p !in Exit(m, p).spaces
  {
    hide Base; hide Cow; hide Tabled; hide Exit;
    assert forall s: Slot | s.pid != p :: KeptSlot(m, Exit(m, p), s);
  }

  /** What makes a page fault panic: a refused write, a demand mapping without frames, or an address in the hole
      between the break and the stack. */
  predicate FaultPanics(m: Machine, p: Pid, addr: nat)
    requires p in m.spaces
  {
    && EXEC_ADDR <= addr < STACK_TOP
    && if SlotOf(p, addr) in m.frames then WritePanics(m, SlotOf(p, addr))
       else addr < m.spaces[p].brk || addr >= STACK_BOTTOM ==> m.free < LinkNeeds(m, SlotOf(p, addr))
  }

  /** page_fault for a user address: kill, copy on write, demand-map, or panic.
      When the process survives, only the faulting page can have changed, its old bytes are kept,
      and the access that faulted now goes through. */
  function Fault(m: Machine, p: Pid, addr: nat, present: bool): (r: Machine)
    requires Good(m) && !m.halted && p in m.spaces && (present <==> SlotOf(p, addr) in m.frames)
    ensures Good(r) && (Cow(m) ==> Cow(r))
    ensures Others(m, r, p)
    ensures p in r.spaces ==> AllBut(m, r, SlotOf(p, addr))
    ensures p in r.spaces && present ==> PageOf(r, SlotOf(p, addr)) == PageOf(m, SlotOf(p, addr))
    ensures p in r.spaces && !r.halted ==> Writable(r, SlotOf(p, addr))
    ensures p in r.spaces <==> EXEC_ADDR <= addr < STACK_TOP
    ensures r.halted <==> FaultPanics(m, p, addr)
  {
    hide Base; hide Cow; hide Tabled; hide AllBut; hide Others; hide PageOf; hide Exit; hide WritePanics;
    hide LinkNeeds;
    hide CountsKept;
    var s := SlotOf(p, addr);
    SamePages(m, Halt(m), s);
    if addr < EXEC_ADDR || addr >= STACK_TOP then
      ExitOthers(m, p);
      Exit(m, p)
    else if present then
      var r := WriteFault(m, s);
      AllButOthers(m, r, s);
      r
    else if addr < m.spaces[p].brk || addr >= STACK_BOTTOM then
      UserSlot(m, p, addr);
      var r := Link(m, s);
      AllButOthers(m, r, s);
      r
    else
      Stop(m)
  }

  // ---- user accesses ----

  /** The bytes of a page after one store. */
  function Stored(c: Contents, off: nat, b: Byte): Contents
    requires off < PAGE_SIZE
  {
    match c
    case Unmapped => Unmapped
    case Mapped(bytes) => Mapped(bytes[off := b])
  }

  lemma StoreKeeps(m: Machine, s: Slot, r: Machine, page: Page)
    requires Base(m) && Cow(m) && s in m.frames && Writable(m, s) && m.frames[s] < |m.mem|
    requires r == m.(mem := m.mem[m.frames[s] := page])
    ensures AllBut(m, r, s)
  {
    forall u | u != s
      ensures KeptPage(m, r, u)
    {
      if Private(m, u) && u in m.frames && m.frames[u] == m.frames[s] {
        OnlyReference(m, s);
      }
    }
  }

  lemma StoreGood(m: Machine, f: nat, page: Page)
    requires Good(m) && f < |m.mem|
    ensures Good(m.(mem := m.mem[f := page]))
    ensures Cow(m) ==> Cow(m.(mem := m.mem[f := page]))
  {
    hide Counted; hide Zeros; hide Unaliased; hide TablesAlone; hide Exclusive; hide Agreed;
  }

  function Store(m: Machine, s: Slot, off: nat, b: Byte): (r: Machine)
    requires Good(m) && Writable(m, s) && off < PAGE_SIZE
    ensures Good(r) && (Cow(m) ==> Cow(r)) && r.spaces == m.spaces && r.halted == m.halted
    ensures Cow(m) ==> AllBut(m, r, s)
    ensures PageOf(r, s) == Stored(PageOf(m, s), off, b)
  {
    hide Base; hide Cow; hide Good; hide AllBut;
    GoodParts(m);
    MappedFacts(m, s);
    var page: Page := m.mem[m.frames[s]][off := b];
    StoreGood(m, m.frames[s], page);
    var r := m.(mem := m.mem[m.frames[s] := page]);
    assert Cow(m) ==> AllBut(m, r, s) by { if Cow(m) { StoreKeeps(m, s, r, page); } }
    r
  }

  lemma MappedBytes(m: Machine, s: Slot)
    requires Good(m) && s in m.frames
    ensures PageOf(m, s).Mapped?
  {
    MappedFacts(m, s);
  }

  lemma SlotPid(p: Pid, addr: nat)
    ensures SlotOf(p, addr).pid == p
  {
  }

  predicate Holds(c: Contents, off: nat, b: Byte)
    requires off < PAGE_SIZE
  {
    c.Mapped? && c.bytes[off] == b
  }

  lemma StoredHolds(c: Contents, off: nat, b: Byte)
    requires off < PAGE_SIZE && c.Mapped?
    ensures Holds(Stored(c, off, b), off, b)
  {
  }

  /** The store itself, on a page that may be written. */
  function Poke(m: Machine, p: Pid, addr: nat, b: Byte): (r: Machine)
    requires Good(m) && Writable(m, SlotOf(p, addr))
    ensures Good(r) && (Cow(m) ==> Cow(r)) && r.spaces == m.spaces && r.halted == m.halted
    ensures Cow(m) ==> AllBut(m, r, SlotOf(p, addr)) && Others(m, r, p)
    ensures PageOf(r, SlotOf(p, addr)) == Stored(PageOf(m, SlotOf(p, addr)), addr % PAGE_SIZE, b)
    ensures Holds(PageOf(r, SlotOf(p, addr)), addr % PAGE_SIZE, b)
  {
    hide Base; hide Cow; hide Tabled; hide AllBut; hide Others; hide PageOf; hide Good; hide Store; hide Stored;
    hide Holds;
    hide SlotOf;
    var s := SlotOf(p, addr);
    SlotPid(p, addr);
    var r := Store(m, s, addr % PAGE_SIZE, b);
    assert Cow(m) ==> Others(m, r, p) by { if Cow(m) { AllButOthers(m, r, s); } }
    MappedBytes(m, s);
    StoredHolds(PageOf(m, s), addr % PAGE_SIZE, b);
    r
  }

  /** A user-mode store: it goes through when the entry is writable, else it faults and is retried once.
      If the process survives, its page has exactly that byte changed and every other private page of
      every process is as it was. */
  function UserWrite(m: Machine, p: Pid, addr: nat, b: Byte): (r: Machine)
    requires Good(m) && p in m.spaces
    ensures Good(r) && (Cow(m) ==> Cow(r))
    ensures Cow(m) ==> Others(m, r, p)
    ensures Cow(m) && p in r.spaces ==> AllBut(m, r, SlotOf(p, addr))
    ensures !r.halted && p in r.spaces && SlotOf(p, addr) in m.frames ==>
              PageOf(r, SlotOf(p, addr)) == Stored(PageOf(m, SlotOf(p, addr)), addr % PAGE_SIZE, b)
    ensures !r.halted && p in r.spaces ==> Holds(PageOf(r, SlotOf(p, addr)), addr % PAGE_SIZE, b)
    ensures !m.halted ==> (r.halted <==> !Writable(m, SlotOf(p, addr)) && FaultPanics(m, p, addr))
    ensures !m.halted ==> (p in r.spaces <==> Writable(m, SlotOf(p, addr)) || EXEC_ADDR <= addr < STACK_TOP)
  {
    hide Base; hide Cow; hide Tabled; hide AllBut; hide Others; hide Fault; hide PageOf; hide Poke; hide Good;
    hide FaultPanics; hide Holds; hide Stored; hide SlotOf;
    var s := SlotOf(p, addr);
    SamePages(m, m, s);
    SlotPid(p, addr);
    if m.halted then
      m
    else if Writable(m, s) then
      Poke(m, p, addr, b)
    else
      var n := Fault(m, p, addr, s in m.frames);
      if n.halted || p !in n.spaces then
        n
      else
        var r := Poke(n, p, addr, b);
        assert Cow(m) ==> AllBut(m, r, s) && Others(m, r, p) by { if Cow(m) { StoredAfter(m, n, r, s); } }
        r
  }

  lemma StoredAfter(m: Machine, n: Machine, r: Machine, s: Slot)
    requires AllBut(m, n, s) && AllBut(n, r, s)
    ensures AllBut(m, r, s) && Others(m, r, s.pid)
  {
    hide AllBut; hide Others;
    AllButTrans(m, n, r, s);
    AllButOthers(m, r, s);
  }

  /** A user-mode load's effect on the machine: at most a demand mapping. If the process survives, the page is
      mapped and every other page is as it was. */
  function UserRead(m: Machine, p: Pid, addr: nat): (r: Machine)
    requires Good(m) && p in m.spaces
    ensures Good(r) && (Cow(m) ==> Cow(r))
    ensures Others(m, r, p)
    ensures p in r.spaces ==> AllBut(m, r, SlotOf(p, addr))
    ensures SlotOf(p, addr) in m.frames ==> r == m
    ensures !r.halted && p in r.spaces ==> SlotOf(p, addr) in r.frames
    ensures !m.halted ==> (r.halted <==> SlotOf(p, addr) !in m.frames && FaultPanics(m, p, addr))
    ensures !m.halted ==> (p in r.spaces <==> SlotOf(p, addr) in m.frames || EXEC_ADDR <= addr < STACK_TOP)
  {
    hide Base; hide Cow; hide Tabled; hide AllBut; hide Others; hide Fault; hide PageOf; hide Good;
    hide FaultPanics; hide SlotOf;
    var s := SlotOf(p, addr);
    SamePages(m, m, s);
    SlotPid(p, addr);
    if m.halted || s in m.frames then m else Fault(m, p, addr, false)
  }

  // ---- system calls ----

  function Relayout(m: Machine, p: Pid, l: Layout): (r: Machine)
    requires Good(m) && p in m.spaces && |l.vmap| == VMAP_PAGES
    ensures Good(r) && (Cow(m) ==> Cow(r)) && r == m.(spaces := m.spaces[p := l])
    ensures Others(m, r, p)
  {
    hide Base; hide Cow; hide Others;
    SamePages(m, m.(spaces := m.spaces[p := l]), Slot(p, 0));
    WithLayout(m, p, l)
  }

  /** Nothing but the pages `lo` to `hi` of `p` changes. */
  ghost predicate AllButRange(m: Machine, r: Machine, p: Pid, lo: nat, hi: nat) {
    forall s: Slot | !(s.pid == p && lo <= s.vpn < hi) :: KeptPage(m, r, s)
  }

  lemma SameRange(m: Machine, r: Machine, p: Pid, lo: nat, hi: nat)
    requires r.frames == m.frames && r.flags == m.flags && r.mem == m.mem
    ensures AllButRange(m, r, p, lo, hi)
  {
  }

  lemma RangeTrans(m: Machine, n: Machine, r: Machine, p: Pid, lo: nat, hi: nat)
    requires AllButRange(m, n, p, lo, hi) && AllButRange(n, r, p, lo, hi)
    ensures AllButRange(m, r, p, lo, hi)
  {
    forall s: Slot | !(s.pid == p && lo <= s.vpn < hi)
      ensures KeptPage(m, r, s)
    {
      assert KeptPage(m, n, s) && KeptPage(n, r, s);
    }
  }

  lemma UnlinkTabled(m: Machine, r: Machine, p: Pid, lo: nat, k: nat)
    requires Tabled(m) && r.frames == Outside(m.frames, p, lo, k) && r.tables == m.tables
    ensures Tabled(r)
  {
  }

  lemma OutsideOthers(m: Machine, r: Machine, p: Pid, lo: nat, k: nat)
    requires r.frames == Outside(m.frames, p, lo, k) && r.flags == Outside(m.flags, p, lo, k) && r.mem == m.mem
    ensures Others(m, r, p) && AllButRange(m, r, p, lo, lo + k)
  {
  }

  function Unlink(m: Machine, p: Pid, lo: nat, k: nat): (r: Machine)
    requires Good(m)
    ensures Good(r) && (Cow(m) ==> Cow(r)) && r.spaces == m.spaces && r.halted == m.halted
    ensures !m.halted ==> r.frames == Outside(m.frames, p, lo, k)
    ensures Others(m, r, p) && AllButRange(m, r, p, lo, lo + k)
  {
    hide Base; hide Cow; hide Tabled; hide UnlinkRange; hide Others; hide AllButRange; hide Outside;
    var r := UnlinkRange(m, p, lo, k);
    assert !r.halted ==> Tabled(r) by { if !r.halted { UnlinkTabled(m, r, p, lo, k); } }
    SamePages(m, m, Slot(p, lo));
    SameRange(m, m, p, lo, lo + k);
    assert Others(m, r, p) && AllButRange(m, r, p, lo, lo + k) by { if !m.halted { OutsideOthers(m, r, p, lo, k); } }
    r
  }

  lemma HaltOthers(m: Machine, p: Pid)
    ensures Others(m, m, p) && Others(m, Halt(m), p)
  {
  }

  /** The pages that lowering the break to `addr` gives back: from `addr` up to the page that holds the last byte
      below the old break. */
  function BrkPages(brk: nat, addr: nat): nat
    requires addr <= brk
  {
    (brk - addr + PAGE_SIZE - 1) / PAGE_SIZE
  }

  lemma BrkCovers(brk: nat, addr: nat)
    requires addr <= brk && addr % PAGE_SIZE == 0
    ensures forall v: nat :: v < addr / PAGE_SIZE + BrkPages(brk, addr) <==> v * PAGE_SIZE < brk
  {
  }

  /** A break the kernel accepts: page-aligned, above the program and below the mmap area. */
  predicate BrkArgs(l: Layout, addr: nat) {
    addr % PAGE_SIZE == 0 && l.end <= addr < MMAP_ADDR
  }

  /** sys_brk; the flag is false for the out-of-memory answer -1. */
  function Brk(m: Machine, p: Pid, addr: nat): (r: (Machine, bool))
    requires Good(m) && p in m.spaces
    ensures Good(r.0) && (Cow(m) ==> Cow(r.0))
    ensures Others(m, r.0, p)
    ensures !m.halted ==> (r.0.halted <==> !BrkArgs(m.spaces[p], addr))
    ensures !r.0.halted ==> (r.1 <==> addr < m.spaces[p].brk || (addr - m.spaces[p].brk) / PAGE_SIZE <= m.free)
    ensures !r.0.halted && !r.1 ==> r.0 == m
    ensures r.1 ==> p in r.0.spaces && r.0.spaces[p] == m.spaces[p].(brk := addr)
    ensures r.1 && addr >= m.spaces[p].brk ==> r.0.frames == m.frames && r.0.flags == m.flags && r.0.mem == m.mem
    ensures r.1 && addr < m.spaces[p].brk ==>
              var lo, k := addr / PAGE_SIZE, BrkPages(m.spaces[p].brk, addr);
              r.0.frames == Outside(m.frames, p, lo, k) && AllButRange(m, r.0, p, lo, lo + k)
  {
    hide Base; hide Cow; hide Tabled; hide Others; hide Good; hide Unlink; hide Relayout; hide Outside;
    hide AllButRange;
    hide BrkPages;
    var l := m.spaces[p];
    HaltOthers(m, p);
    if m.halted then (m, false)
    else if !BrkArgs(l, addr) then (Stop(m), false)
    else if l.brk > addr then
      VmapOf(m, p);
      var lo, k := addr / PAGE_SIZE, BrkPages(l.brk, addr);
      var n := Unlink(m, p, lo, k);
      var r := Relayout(n, p, l.(brk := addr));
      OthersTrans(m, n, r, p);
      SameRange(n, r, p, lo, lo + k);
      RangeTrans(m, n, r, p, lo, lo + k);
      (r, true)
    else if (addr - l.brk) / PAGE_SIZE > m.free then (m, false)
    else
      VmapOf(m, p);
      (Relayout(m, p, l.(brk := addr)), true)
  }

  lemma VmapOf(m: Machine, p: Pid)
    requires Good(m) && p in m.spaces
    ensures |m.spaces[p].vmap| == VMAP_PAGES
  {
  }

  /** div_round_up on uint32. */
  function PageCount(length: nat): nat {
    ((length + PAGE_SIZE - 1) % TWO32) / PAGE_SIZE
  }

  function InWindow(v: nat): bool {
    MMAP_PAGE <= v < MMAP_PAGE + VMAP_PAGES
  }

  function MapFlags(e: Flags, write: bool, shared: bool, priv: bool): Flags {
    Flags(write, e.shared || shared, e.priv || priv, !write)
  }

  /** The page is mapped with what was asked for; sharing flags once given stay. */
  predicate GrantedAt(m: Machine, s: Slot, write: bool, shared: bool, priv: bool) {
    && s in m.frames && s in m.flags && m.flags[s].write == write && m.flags[s].readonly == !write
    && (shared ==> m.flags[s].shared) && (priv ==> m.flags[s].priv)
  }

  predicate Granted(m: Machine, p: Pid, v: nat, k: nat, write: bool, shared: bool, priv: bool) {
    forall u: nat | v <= u < v + k :: GrantedAt(m, Slot(p, u), write, shared, priv)
  }

  lemma GrantedKept(m: Machine, r: Machine, p: Pid, v: nat, k: nat, write: bool, shared: bool, priv: bool)
    requires Granted(m, p, v, k, write, shared, priv) && AllBut(m, r, Slot(p, v + k))
    requires GrantedAt(r, Slot(p, v + k), write, shared, priv)
    ensures Granted(r, p, v, k + 1, write, shared, priv)
  {
    forall u: nat | v <= u < v + k + 1
      ensures GrantedAt(r, Slot(p, u), write, shared, priv)
    {
      if u < v + k {
        assert KeptPage(m, r, Slot(p, u));
      }
    }
  }

  lemma HaltAllBut(m: Machine, s: Slot)
    ensures AllBut(m, m, s) && AllBut(m, Halt(m), s) && CountsKept(m, m)
  {
  }

  /** One round of the loop of sys_mmap. */
  function MmapPage(m: Machine, p: Pid, v: nat, write: bool, shared: bool, priv: bool): (r: Machine)
    requires Good(m) && p in m.spaces && MMAP_PAGE <= v <= STACK_TOP_PAGE
    ensures Good(r) && p in r.spaces && (m.halted ==> r == m)
    ensures !r.halted ==> v < STACK_TOP_PAGE
    ensures AllBut(m, r, Slot(p, v)) && CountsKept(m, r)
    ensures !r.halted ==> GrantedAt(r, Slot(p, v), write, shared, priv)
  {
    hide Base; hide Cow; hide Tabled; hide Others; hide Good; hide Relayout; hide FlagsSafe; hide AllBut;
    hide LinkNeeds;
    var s := Slot(p, v);
    var n := Link(m, s);
    if n.halted then n
    else if !InWindow(v) then
      HaltAllBut(n, s);
      AllButTrans(m, n, Halt(n), s);
      Stop(n)
    else
      VmapOf(n, p);
      var l := n.spaces[p];
      var k := Relayout(n, p, l.(vmap := l.vmap[v - MMAP_PAGE := true]));
      SamePages(n, k, s);
      FlagsMapped(k, s);
      var r := WithFlags(k, s, MapFlags(k.flags[s], write, shared, priv));
      AllButTrans(m, n, k, s);
      AllButTrans(m, k, r, s);
      r
  }

  /** When remapping a page leaves copy-on-write intact: not when the page is private and its frame is
      still shared with another process, unless the remapping grants nothing. */
  predicate RemapSafe(m: Machine, s: Slot, write: bool, shared: bool) {
    s in m.frames && s in m.flags && m.frames[s] < |m.counts| && m.counts[m.frames[s]] > 1 && !m.flags[s].shared ==>
      !write && !shared
  }

  lemma MmapPageCow(m: Machine, p: Pid, v: nat, write: bool, shared: bool, priv: bool)
    requires Good(m) && Cow(m) && p in m.spaces && MMAP_PAGE <= v <= STACK_TOP_PAGE
    ensures var r := MmapPage(m, p, v, write, shared, priv);
            if r.halted then Cow(r) else Cow(r) <==> RemapSafe(m, Slot(p, v), write, shared)
  {
    hide Base; hide Cow; hide Tabled; hide Others; hide Good; hide AllBut;
    var s := Slot(p, v);
    var n := Link(m, s);
    if s in m.frames {
      GoodParts(m);
      MappedFacts(m, s);
    }
  }

  lemma FlagsMapped(m: Machine, s: Slot)
    requires Good(m) && s in m.frames
    ensures s in m.flags
  {
  }

  function MmapUpTo(m: Machine, p: Pid, v: nat, k: nat, write: bool, shared: bool, priv: bool): (r: Machine)
    requires Good(m) && p in m.spaces && MMAP_PAGE <= v < STACK_TOP_PAGE
    ensures Good(r) && p in r.spaces && (m.halted ==> r == m)
    ensures !r.halted ==> v + k <= STACK_TOP_PAGE && Granted(r, p, v, k, write, shared, priv)
    ensures Others(m, r, p)
    decreases k
  {
    hide Base; hide Cow; hide Tabled; hide Others; hide Good; hide AllBut; hide MmapPage; hide GrantedAt;
    hide CountsKept;
    if k == 0 then
      HaltOthers(m, p);
      m
    else
      var n := MmapUpTo(m, p, v, k - 1, write, shared, priv);
      if n.halted then n
      else
        var r := MmapPage(n, p, v + k - 1, write, shared, priv);
        AllButOthers(n, r, Slot(p, v + k - 1));
        OthersTrans(m, n, r, p);
        assert !r.halted ==> Granted(r, p, v, k, write, shared, priv) by {
          if !r.halted { GrantedKept(n, r, p, v, k - 1, write, shared, priv); }
        }
        r
  }

  // ---- when sys_mmap runs out of frames ----

  const END_PAGE: nat := MMAP_PAGE + VMAP_PAGES

  /** The frames the first `k` pages take: every page that is missing, and every page table that is missing
      when the loop reaches its first page. */
  function MapNeeds(m: Machine, p: Pid, v: nat, k: nat): nat
    decreases k
  {
    if k == 0 then 0
    else
      var u := v + k - 1;
      var tabled := Dir(p, u / TABLE) in m.tables || (k > 1 && (u - 1) / TABLE == u / TABLE);
      MapNeeds(m, p, v, k - 1) + (if Slot(p, u) in m.frames then 0 else 1) + if tabled then 0 else 1
  }

  /** Above the first `k` pages mappings are as they were, and only the table under the last of them may be new. */
  ghost predicate AheadOf(m: Machine, r: Machine, p: Pid, v: nat, k: nat) {
    && (forall u: nat | v + k <= u :: Slot(p, u) in r.frames <==> Slot(p, u) in m.frames)
    && (forall u: nat | v + k <= u :: Dir(p, u / TABLE) in r.tables <==>
                                      Dir(p, u / TABLE) in m.tables || (k > 0 && u / TABLE == (v + k - 1) / TABLE))
  }

  lemma MmapPageHalts(m: Machine, p: Pid, v: nat, write: bool, shared: bool, priv: bool)
    requires Good(m) && !m.halted && p in m.spaces && MMAP_PAGE <= v <= STACK_TOP_PAGE
    ensures var r := MmapPage(m, p, v, write, shared, priv);
            && (r.halted <==> v >= END_PAGE || m.free < LinkNeeds(m, Slot(p, v)))
            && (!r.halted ==> r.free == m.free - LinkNeeds(m, Slot(p, v)) && Dir(p, v / TABLE) in r.tables
                              && forall e: Dir | e != Dir(p, v / TABLE) :: e in r.tables <==> e in m.tables)
  {
    hide Base; hide Cow; hide Tabled; hide Others; hide Good; hide FlagsSafe; hide AllBut; hide LinkNeeds;
    hide CountsKept; hide LinkPage;
    GoodParts(m);
    var n := Link(m, Slot(p, v));
    assert DirOf(Slot(p, v)) == Dir(p, v / TABLE);
  }

  lemma AheadNext(m: Machine, n: Machine, r: Machine, p: Pid, v: nat, k: nat)
    requires AheadOf(m, n, p, v, k) && AllBut(n, r, Slot(p, v + k)) && Dir(p, (v + k) / TABLE) in r.tables
    requires forall e: Dir | e != Dir(p, (v + k) / TABLE) :: e in r.tables <==> e in n.tables
    ensures AheadOf(m, r, p, v, k + 1)
  {
    forall u: nat | v + k + 1 <= u
      ensures Slot(p, u) in r.frames <==> Slot(p, u) in m.frames
      ensures Dir(p, u / TABLE) in r.tables <==> Dir(p, u / TABLE) in m.tables || u / TABLE == (v + k) / TABLE
    {
      assert KeptPage(n, r, Slot(p, u));
    }
  }

  lemma NeedsNext(m: Machine, n: Machine, p: Pid, v: nat, k: nat)
    requires AheadOf(m, n, p, v, k)
    ensures MapNeeds(m, p, v, k + 1) == MapNeeds(m, p, v, k) + LinkNeeds(n, Slot(p, v + k))
  {
  }

  lemma {:induction false} MmapUpToHalts(m: Machine, p: Pid, v: nat, k: nat, write: bool, shared: bool, priv: bool)
    requires Good(m) && !m.halted && p in m.spaces && MMAP_PAGE <= v < STACK_TOP_PAGE
    ensures var r := MmapUpTo(m, p, v, k, write, shared, priv);
            && (r.halted <==> v + k > END_PAGE || m.free < MapNeeds(m, p, v, k))
            && (!r.halted ==> r.free == m.free - MapNeeds(m, p, v, k) && AheadOf(m, r, p, v, k))
    decreases k
  {
    hide Base; hide Cow; hide Tabled; hide Others; hide Good; hide AllBut; hide MmapPage; hide GrantedAt; hide Granted;
    hide CountsKept; hide AheadOf; hide LinkNeeds; hide MapNeeds;
    GoodParts(m);
    FreeFrames(m);
    if k == 0 {
      AheadStart(m, p, v);
    } else {
      MmapUpToHalts(m, p, v, k - 1, write, shared, priv);
      var n := MmapUpTo(m, p, v, k - 1, write, shared, priv);
      NeedsGrow(m, p, v, k - 1);
      if !n.halted {
        NeedsNext(m, n, p, v, k - 1);
        MmapPageHalts(n, p, v + k - 1, write, shared, priv);
        var r := MmapPage(n, p, v + k - 1, write, shared, priv);
        if !r.halted {
          AheadNext(m, n, r, p, v, k - 1);
        }
      }
    }
  }

  lemma AheadStart(m: Machine, p: Pid, v: nat)
    ensures AheadOf(m, m, p, v, 0) && MapNeeds(m, p, v, 0) == 0
  {
  }

  lemma NeedsGrow(m: Machine, p: Pid, v: nat, k: nat)
    ensures MapNeeds(m, p, v, k) <= MapNeeds(m, p, v, k + 1)
  {
  }

  /** Where sys_mmap puts `count` pages: the given address, or the first free run of the map, which is then claimed.
      None when an assert fails or no run is free. */
  datatype Placed = Nowhere | There(vaddr: nat, vmap: seq<bool>)

  function Place(vmap: seq<bool>, addr: nat, count: nat): (r: Placed)
    ensures r.There? ==> |r.vmap| == |vmap| && MMAP_ADDR <= r.vaddr < STACK_BOTTOM && r.vaddr % PAGE_SIZE == 0
  {
    if addr % PAGE_SIZE != 0 then Nowhere
    else if addr != 0 then
      if MMAP_ADDR <= addr < STACK_BOTTOM then There(addr, vmap) else Nowhere
    else if count == 0 then Nowhere
    else
      match FirstRun(vmap, count, 0)
      case NotFound => Nowhere
      case At(i) =>
        var vaddr := (MMAP_PAGE + i) * PAGE_SIZE;
        if vaddr < STACK_BOTTOM then There(vaddr, SetRange(vmap, i, count, true)) else Nowhere
  }

  function Mmap(m: Machine, p: Pid, addr: nat, length: nat, write: bool, shared: bool, priv: bool): (r: Machine)
    requires Good(m) && p in m.spaces
    ensures Good(r)
    ensures Others(m, r, p)
    ensures !r.halted ==>
              var at := Place(m.spaces[p].vmap, addr, PageCount(length));
              at.There? && Granted(r, p, at.vaddr / PAGE_SIZE, PageCount(length), write, shared, priv)
  {
    hide Base; hide Cow; hide Tabled; hide Others; hide Good; hide Relayout; hide MmapUpTo; hide Granted; hide Place;
    hide PageCount;
    HaltOthers(m, p);
    if m.halted then m
    else
      VmapOf(m, p);
      var l := m.spaces[p];
      match Place(l.vmap, addr, PageCount(length))
      case Nowhere => Stop(m)
      case There(vaddr, vmap) =>
        var n := Relayout(m, p, l.(vmap := vmap));
        var r := MmapUpTo(n, p, vaddr / PAGE_SIZE, PageCount(length), write, shared, priv);
        OthersTrans(m, n, r, p);
        r
  }

  /** sys_mmap panics exactly when there is no place for the pages, they run past the end of the window, or the
      frames do not suffice for the missing pages and page tables. */
  lemma MmapHalts(m: Machine, p: Pid, addr: nat, length: nat, write: bool, shared: bool, priv: bool)
    requires Good(m) && !m.halted && p in m.spaces
    ensures var at, k := Place(m.spaces[p].vmap, addr, PageCount(length)), PageCount(length);
            Mmap(m, p, addr, length, write, shared, priv).halted <==>
              at.There? ==> at.vaddr / PAGE_SIZE + k > END_PAGE || m.free < MapNeeds(m, p, at.vaddr / PAGE_SIZE, k)
  {
    hide Base; hide Cow; hide Tabled; hide Others; hide Good; hide MmapUpTo; hide Granted; hide Place; hide PageCount;
    hide AheadOf; hide MapNeeds;
    VmapOf(m, p);
    var at, k := Place(m.spaces[p].vmap, addr, PageCount(length)), PageCount(length);
    if at.There? {
      var n := Relayout(m, p, m.spaces[p].(vmap := at.vmap));
      MmapUpToHalts(n, p, at.vaddr / PAGE_SIZE, k, write, shared, priv);
      NeedsSame(m, n, p, at.vaddr / PAGE_SIZE, k);
    }
  }

  lemma {:induction false} NeedsSame(m: Machine, n: Machine, p: Pid, v: nat, k: nat)
    requires n.frames == m.frames && n.tables == m.tables
    ensures MapNeeds(n, p, v, k) == MapNeeds(m, p, v, k)
    decreases k
  {
    if k > 0 {
      NeedsSame(m, n, p, v, k - 1);
    }
  }

  /** One round of the loop of sys_munmap: the page goes first, then its bit is checked and cleared. */
  function MunmapPage(m: Machine, p: Pid, v: nat): (r: Machine)
    requires Good(m) && p in m.spaces
    ensures Good(r) && (Cow(m) ==> Cow(r)) && p in r.spaces && (m.halted ==> r == m)
    ensures Others(m, r, p)
    ensures !r.halted ==> r.frames == Outside(m.frames, p, v, 1)
  {
    hide Base; hide Cow; hide Tabled; hide Others; hide Good; hide Relayout; hide Unlink;
    HaltOthers(m, p);
    if m.halted then m
    else
      var n := Unlink(m, p, v, 1);
      VmapOf(n, p);
      var l := n.spaces[p];
      if !InWindow(v) || !l.vmap[v - MMAP_PAGE] then
        HaltOthers(n, p);
        OthersTrans(m, n, Halt(n), p);
        Stop(n)
      else
        var r := Relayout(n, p, l.(vmap := l.vmap[v - MMAP_PAGE := false]));
        OthersTrans(m, n, r, p);
        r
  }

  function MunmapUpTo(m: Machine, p: Pid, v: nat, k: nat): (r: Machine)
    requires Good(m) && p in m.spaces
    ensures Good(r) && (Cow(m) ==> Cow(r)) && p in r.spaces && (m.halted ==> r == m)
    ensures Others(m, r, p)
    ensures !r.halted ==> r.frames == Outside(m.frames, p, v, k)
    decreases k
  {
    hide Base; hide Cow; hide Tabled; hide Others; hide Good; hide MunmapPage; hide Outside;
    if k == 0 then
      HaltOthers(m, p);
      OutsideStep(m.frames, p, v, 0);
      m
    else
      var n := MunmapUpTo(m, p, v, k - 1);
      var r := MunmapPage(n, p, v + k - 1);
      OthersTrans(m, n, r, p);
      OutsideJoin(m.frames, p, v, k - 1, 1);
      r
  }

  function Munmap(m: Machine, p: Pid, addr: nat, length: nat): (r: Machine)
    requires Good(m) && p in m.spaces
    ensures Good(r) && (Cow(m) ==> Cow(r))
    ensures Others(m, r, p)
    ensures !r.halted ==> r.frames == Outside(m.frames, p, addr / PAGE_SIZE, PageCount(length))
  {
    hide Base; hide Cow; hide Tabled; hide Others; hide Good; hide MunmapUpTo;
    HaltOthers(m, p);
    if m.halted then m
    else if !(MMAP_ADDR <= addr < STACK_BOTTOM) || addr % PAGE_SIZE != 0 then Stop(m)
    else MunmapUpTo(m, p, addr / PAGE_SIZE, PageCount(length))
  }

  /** One page of load_segment: mapped, and marked read-only for a segment without write permission. */
  function LoadPage(m: Machine, p: Pid, v: nat, readonly: bool): (r: Machine)
    requires Good(m) && p in m.spaces
    ensures Good(r) && (Cow(m) ==> Cow(r))
    ensures Others(m, r, p) && AllBut(m, r, Slot(p, v))
    ensures !r.halted ==> Slot(p, v) in r.frames && Slot(p, v) in r.flags
    ensures !r.halted && readonly ==> !r.flags[Slot(p, v)].write && r.flags[Slot(p, v)].readonly
    ensures !r.halted && !readonly && Slot(p, v) in m.flags ==> r.flags[Slot(p, v)] == m.flags[Slot(p, v)]
    ensures !r.halted && !readonly && Slot(p, v) !in m.flags ==> r.flags[Slot(p, v)] == FRESH
    ensures !m.halted ==> (r.halted <==> !(EXEC_PAGE <= v < MMAP_PAGE) || m.free < LinkNeeds(m, Slot(p, v)))
  {
    hide Base; hide Cow; hide Tabled; hide Others; hide AllBut; hide LinkNeeds; hide CountsKept;
    HaltOthers(m, p);
    HaltAllBut(m, Slot(p, v));
    if m.halted then m
    else if !(EXEC_PAGE <= v < MMAP_PAGE) then Stop(m)
    else
      var s := Slot(p, v);
      var n := Link(m, s);
      AllButOthers(m, n, s);
      LoadFlags(m, s);
      if n.halted || !readonly then n
      else
        MappedFacts(n, s);
        var r := WithFlags(n, s, n.flags[s].(write := false, readonly := true));
        AllButOthers(n, r, s);
        OthersTrans(m, n, r, p);
        AllButTrans(m, n, r, s);
        r
  }

  lemma LoadFlags(m: Machine, s: Slot)
    requires Good(m) && OwnedSlot(s, m.spaces)
    ensures s in m.frames <==> s in m.flags
    ensures var n := Link(m, s);
            !n.halted ==> s in n.flags && n.flags[s] == if s in m.flags then m.flags[s] else FRESH
  {
    hide LinkPage; hide Cow;
  }
}
