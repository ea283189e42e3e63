/** What the steps of Paging do entry by entry: flag bits, frames, and the map of the mmap window, spelled out in
    terms of the state before. */
module PagingEffects {
  import opened Bitmaps
  import opened Frames
  import opened AddressSpaces
  import opened Paging

  // ---- faults ----

  /** A page that link_page maps is writable and neither shared, private-marked nor read-only. */
  lemma LinkedEntry(m: Machine, s: Slot)
    requires Good(m) && OwnedSlot(s, m.spaces) && s !in m.frames && !LinkPage(m, s).halted
    ensures var r := LinkPage(m, s);
            s in r.flags && var f := r.flags[s]; f.write && !f.shared && !f.priv && !f.readonly
  {
    hide Base; hide Cow;
  }

  /** Only the entry `s` changes. */
  ghost predicate OtherEntries(m: Machine, r: Machine, s: Slot) {
    && (forall t | t != s :: (t in r.frames <==> t in m.frames) && (t in r.flags <==> t in m.flags))
    && (forall t | t != s && t in m.frames && t in r.frames :: r.frames[t] == m.frames[t])
    && (forall t | t != s && t in m.flags && t in r.flags :: r.flags[t] == m.flags[t])
  }

  /** The page of `s` has moved from frame `f` to `g`, which was free. */
  ghost predicate Copied(m: Machine, r: Machine, f: nat, g: nat) {
    && f < |m.counts| == |m.mem| && KERNEL_FRAMES <= g < |m.counts| && m.counts[f] >= 1
    && m.counts[g] == 0 && r.free == m.free - 1
    && r.counts == m.counts[f := m.counts[f] - 1][g := 1] && r.mem == m.mem[g := m.mem[f]]
  }

  /** The last owner gets its page writable in place; anybody else gets a copy in a frame that was free, and leaves
      the old frame with one reference less. */
  lemma WriteFaultExact(m: Machine, s: Slot)
    requires Good(m) && !m.halted && s in m.frames && !WriteFault(m, s).halted
    ensures s in m.flags && m.frames[s] < |m.counts| && !m.flags[s].shared && !m.flags[s].readonly
    ensures var r := WriteFault(m, s);
            && s in r.frames && s in r.flags && OtherEntries(m, r, s)
            && r.flags[s].write && !r.flags[s].shared && !r.flags[s].readonly
    ensures var r, f := WriteFault(m, s), m.frames[s];
            if m.counts[f] == 1 then
              r.frames[s] == f && r.flags[s].priv == m.flags[s].priv && r.counts == m.counts && r.free == m.free
              && r.mem == m.mem
            else
              Copied(m, r, f, r.frames[s]) && !r.flags[s].priv
  {
    hide Base; hide Cow; hide Tabled; hide AllBut; hide PageOf;
    GoodParts(m);
    MappedFacts(m, s);
    NoFrame(m);
  }

  /** A process that survives a fault with the kernel running may write the page, which is neither shared nor
      read-only. */
  lemma FaultFlags(m: Machine, p: Pid, addr: nat, present: bool)
    requires Good(m) && !m.halted && p in m.spaces && (present <==> SlotOf(p, addr) in m.frames)
    requires p in Fault(m, p, addr, present).spaces && !Fault(m, p, addr, present).halted
    ensures var r, s := Fault(m, p, addr, present), SlotOf(p, addr);
            s in r.frames && s in r.flags && r.flags[s].write && !r.flags[s].shared && !r.flags[s].readonly
  {
    hide Base; hide Cow; hide Tabled; hide AllBut; hide Others; hide PageOf; hide Exit; hide WriteFault;
    if present {
      WriteFaultExact(m, SlotOf(p, addr));
    } else {
      UserSlot(m, p, addr);
      LinkedEntry(m, SlotOf(p, addr));
    }
  }

  /** Which faults kill the process, and that an absent page between the break and the stack is a panic. */
  lemma FaultRange(m: Machine, p: Pid, addr: nat, present: bool)
    requires Good(m) && !m.halted && p in m.spaces && (present <==> SlotOf(p, addr) in m.frames)
    ensures var r := Fault(m, p, addr, present);
            && (p !in r.spaces <==> addr < 0x100_0000 || addr >= 0x1000_0000)
            && (!present && p in r.spaces && m.spaces[p].brk <= addr < 0xfe0_0000 ==> r.halted)
            && (r.halted && !present ==> m.spaces[p].brk <= addr < 0xfe0_0000 || m.free < 2)
  {
    hide Base; hide Cow; hide Tabled; hide AllBut; hide Others; hide PageOf; hide Exit; hide WriteFault; hide Fault;
  }

  // ---- the break ----

  lemma BrkLayout(m: Machine, p: Pid, addr: nat)
    requires Good(m) && p in m.spaces && Brk(m, p, addr).1
    ensures Brk(m, p, addr).0.spaces == m.spaces[p := m.spaces[p].(brk := addr)] && BrkArgs(m.spaces[p], addr)
  {
    hide Base; hide Cow; hide Tabled; hide Others; hide Good; hide Unlink; hide Relayout; hide Outside;
    hide AllButRange;
    VmapOf(m, p);
  }

  lemma PagesFrom(addr: nat, v: nat)
    requires addr % 4096 == 0
    ensures addr <= v * 4096 <==> addr / 4096 <= v
  {
  }

  lemma SameKept(m: Machine, r: Machine, s: Slot)
    requires r.frames == m.frames && r.flags == m.flags && r.mem == m.mem
    ensures KeptPage(m, r, s)
  {
  }

  /** sys_brk panics exactly for a break that is not page-aligned, below the program's end, or not below the mmap
      window, and answers -1 exactly when the pages to be added are more than are free. Otherwise the break is moved:
      exactly the pages at or above the new break and below the old one are gone, and every other page is as it was. */
  lemma BrkExact(m: Machine, p: Pid, addr: nat)
    requires Good(m) && !m.halted && p in m.spaces
    ensures var (r, ok) := Brk(m, p, addr);
            var l := m.spaces[p];
            && (r.halted <==> addr % 4096 != 0 || addr < l.end || addr >= 0x800_0000)
            && (!r.halted ==> (ok <==> addr < l.brk || (addr - l.brk) / 4096 <= m.free))
            && (!ok && !r.halted ==> r == m)
            && (ok ==> Others(m, r, p) && r.spaces == m.spaces[p := l.(brk := addr)])
            && (ok ==> forall v: nat :: if addr <= v * 4096 < l.brk then Slot(p, v) !in r.frames
                                        else KeptPage(m, r, Slot(p, v)))
  {
    hide Base; hide Cow; hide Tabled; hide Others; hide Good; hide Brk; hide BrkPages; hide KeptPage;
    var (r, ok) := Brk(m, p, addr);
    var l := m.spaces[p];
    if ok {
      BrkLayout(m, p, addr);
      forall v: nat
        ensures if addr <= v * 4096 < l.brk then Slot(p, v) !in r.frames else KeptPage(m, r, Slot(p, v))
      {
        if addr < l.brk {
          BrkCovers(l.brk, addr);
          PagesFrom(addr, v);
        } else {
          SameKept(m, r, Slot(p, v));
        }
      }
    }
  }

  // ---- mmap ----

  /** The number of pages is the least that holds `length` bytes, as long as rounding up stays below 2^32. */
  lemma PageCountExact(length: nat)
    requires length < 0x1_0000_0000
    ensures length <= 0xffff_f000 ==>
              length <= PageCount(length) * 4096 && (length > 0 ==> (PageCount(length) - 1) * 4096 < length)
    ensures length > 0xffff_f000 ==> PageCount(length) == 0
    ensures length == 0 ==> PageCount(length) == 0
  {
  }

  /** One of the `count` pages from `l` on is in use. */
  predicate Taken(vmap: seq<bool>, l: nat, count: nat) {
    exists j :: l <= j < l + count && j < |vmap| && vmap[j]
  }

  /** Without an address the pages go to the lowest place in the window where enough consecutive pages are unused;
      none of them is in use. */
  lemma PlaceFirst(vmap: seq<bool>, count: nat)
    requires Place(vmap, 0, count).There?
    ensures var i := Place(vmap, 0, count).vaddr / 4096 - 0x8000;
            && 0 <= i && i + count <= |vmap| && count > 0
            && (forall j | i <= j < i + count :: !vmap[j])
            && (forall l: nat | l < i :: Taken(vmap, l, count))
            && forall j | 0 <= j < |vmap| :: Place(vmap, 0, count).vmap[j] <==> vmap[j] || i <= j < i + count
  {
    hide SetRange; hide FirstRun;
    var i := FirstRun(vmap, count, 0).start;
    forall l: nat | l < i ensures Taken(vmap, l, count) {
      assert !ClearRun(vmap, l, count);
    }
  }

  /** An address asked for is taken as it is, when it is page-aligned and in the window; the map is not consulted. */
  lemma PlaceFixed(vmap: seq<bool>, addr: nat, count: nat)
    requires addr != 0
    ensures Place(vmap, addr, count).There? <==> addr % 4096 == 0 && 0x800_0000 <= addr < 0xfe0_0000
    ensures Place(vmap, addr, count).There? ==>
              Place(vmap, addr, count).vaddr == addr && Place(vmap, addr, count).vmap == vmap
  {
  }

  /** One round: the page's bit is set, its flags are what was asked for, and marks once given stay. */
  lemma MmapPageExact(m: Machine, p: Pid, v: nat, write: bool, shared: bool, priv: bool)
    requires Good(m) && p in m.spaces && MMAP_PAGE <= v <= STACK_TOP_PAGE
    requires !MmapPage(m, p, v, write, shared, priv).halted
    ensures |m.spaces[p].vmap| == VMAP_PAGES && v < MMAP_PAGE + VMAP_PAGES
    ensures var r, l := MmapPage(m, p, v, write, shared, priv), m.spaces[p];
            && r.spaces == m.spaces[p := l.(vmap := l.vmap[v - MMAP_PAGE := true])]
            && Slot(p, v) in r.flags && Slot(p, v) in r.frames
            && MarkedFrom(m, r, Slot(p, v), write, shared, priv)
  {
    hide Base; hide Cow; hide Tabled; hide Others; hide Good; hide FlagsSafe; hide AllBut; hide LinkNeeds;
    hide CountsKept;
    VmapOf(m, p);
    var n := Link(m, Slot(p, v));
    if Slot(p, v) !in m.frames {
      LinkedEntry(m, Slot(p, v));
    }
    SameKeys(m, Slot(p, v));
  }

  lemma SameKeys(m: Machine, s: Slot)
    requires Good(m)
    ensures s in m.flags <==> s in m.frames
  {
  }

  /** Write and read-only are as asked for; the sharing marks are those asked for and those the page had. */
  predicate MarkedFrom(m: Machine, r: Machine, s: Slot, write: bool, shared: bool, priv: bool) {
    && s in r.flags && r.flags[s].write == write && r.flags[s].readonly == !write
    && (r.flags[s].shared <==> shared || (s in m.flags && m.flags[s].shared))
    && (r.flags[s].priv <==> priv || (s in m.flags && m.flags[s].priv))
  }

  /** The first `k` pages from `v` on are mapped, marked and recorded in the window's map. */
  ghost predicate Mapped(m: Machine, r: Machine, p: Pid, v: nat, k: nat, write: bool, shared: bool, priv: bool)
    requires p in m.spaces && v >= MMAP_PAGE && |m.spaces[p].vmap| == VMAP_PAGES
  {
    && AllButRange(m, r, p, v, v + k)
    && (forall u: nat | v <= u < v + k :: MarkedFrom(m, r, Slot(p, u), write, shared, priv))
    && v + k <= MMAP_PAGE + VMAP_PAGES
    && r.spaces == m.spaces[p := m.spaces[p].(vmap := SetRange(m.spaces[p].vmap, v - MMAP_PAGE, k, true))]
  }

  lemma MappedStart(m: Machine, p: Pid, v: nat, write: bool, shared: bool, priv: bool)
    requires Good(m) && p in m.spaces && MMAP_PAGE <= v < STACK_TOP_PAGE && |m.spaces[p].vmap| == VMAP_PAGES
    ensures Mapped(m, m, p, v, 0, write, shared, priv)
  {
    SameRange(m, m, p, v, v);
    var l := m.spaces[p];
    assert SetRange(l.vmap, v - MMAP_PAGE, 0, true) == l.vmap;
    assert m.spaces[p := l.(vmap := l.vmap)] == m.spaces;
  }

  lemma RangeWiden(m: Machine, n: Machine, r: Machine, p: Pid, v: nat, k: nat)
    requires AllButRange(m, n, p, v, v + k) && AllBut(n, r, Slot(p, v + k))
    ensures AllButRange(m, r, p, v, v + k + 1)
  {
    forall s: Slot | !(s.pid == p && v <= s.vpn < v + k + 1)
      ensures KeptPage(m, r, s)
    {
      assert KeptPage(m, n, s) && KeptPage(n, r, s);
    }
  }

  lemma MarksKept(m: Machine, n: Machine, r: Machine, p: Pid, v: nat, k: nat, write: bool, shared: bool, priv: bool)
    requires AllButRange(m, n, p, v, v + k) && AllBut(n, r, Slot(p, v + k))
    requires forall u: nat | v <= u < v + k :: MarkedFrom(m, n, Slot(p, u), write, shared, priv)
    requires MarkedFrom(n, r, Slot(p, v + k), write, shared, priv)
    ensures forall u: nat | v <= u < v + k + 1 :: MarkedFrom(m, r, Slot(p, u), write, shared, priv)
  {
    forall u: nat | v <= u < v + k + 1
      ensures MarkedFrom(m, r, Slot(p, u), write, shared, priv)
    {
      if u < v + k {
        assert KeptPage(n, r, Slot(p, u));
      } else {
        assert KeptPage(m, n, Slot(p, u));
      }
    }
  }

  lemma MappedNext(m: Machine, n: Machine, r: Machine, p: Pid, v: nat, k: nat, write: bool, shared: bool, priv: bool)
    requires p in m.spaces && MMAP_PAGE <= v && |m.spaces[p].vmap| == VMAP_PAGES && p in n.spaces
    requires Mapped(m, n, p, v, k, write, shared, priv) && v + k < MMAP_PAGE + VMAP_PAGES
    requires AllBut(n, r, Slot(p, v + k)) && MarkedFrom(n, r, Slot(p, v + k), write, shared, priv)
    requires |n.spaces[p].vmap| == VMAP_PAGES
    requires r.spaces == n.spaces[p := n.spaces[p].(vmap := n.spaces[p].vmap[v + k - MMAP_PAGE := true])]
    ensures Mapped(m, r, p, v, k + 1, write, shared, priv)
  {
    hide SetRange; hide AllBut; hide AllButRange; hide MarkedFrom;
    RangeWiden(m, n, r, p, v, k);
    MarksKept(m, n, r, p, v, k, write, shared, priv);
    SetRangeStep(m.spaces[p].vmap, v - MMAP_PAGE, k, true);
  }

  lemma {:induction false} MmapUpToMaps(m: Machine, p: Pid, v: nat, k: nat, write: bool, shared: bool, priv: bool)
    requires Good(m) && p in m.spaces && MMAP_PAGE <= v < STACK_TOP_PAGE && |m.spaces[p].vmap| == VMAP_PAGES
    requires !MmapUpTo(m, p, v, k, write, shared, priv).halted
    ensures Mapped(m, MmapUpTo(m, p, v, k, write, shared, priv), p, v, k, write, shared, priv)
    decreases k
  {
    hide Base; hide Cow; hide Tabled; hide Others; hide Good; hide AllBut; hide MmapPage; hide GrantedAt; hide Granted;
    hide CountsKept; hide Mapped; hide MarkedFrom;
    if k == 0 {
      MappedStart(m, p, v, write, shared, priv);
    } else {
      var n := MmapUpTo(m, p, v, k - 1, write, shared, priv);
      MmapUpToMaps(m, p, v, k - 1, write, shared, priv);
      MmapPageExact(n, p, v + k - 1, write, shared, priv);
      MappedNext(m, n, MmapPage(n, p, v + k - 1, write, shared, priv), p, v, k - 1, write, shared, priv);
    }
  }

  /** sys_mmap that does not panic: exactly the pages of the range are mapped anew or marked anew, with the flags asked
      for; every other page is as it was; exactly their bits are added to the window's map; nothing else of any address
      space's layout changes. */
  lemma MmapEffect(m: Machine, p: Pid, addr: nat, length: nat, write: bool, shared: bool, priv: bool)
    requires Good(m) && !m.halted && p in m.spaces && !Mmap(m, p, addr, length, write, shared, priv).halted
    ensures var at, k := Place(m.spaces[p].vmap, addr, PageCount(length)), PageCount(length);
            var r := Mmap(m, p, addr, length, write, shared, priv);
            && at.There? && |m.spaces[p].vmap| == VMAP_PAGES
            && var v := at.vaddr / PAGE_SIZE;
               && MMAP_PAGE <= v && v + k <= MMAP_PAGE + VMAP_PAGES
               && AllButRange(m, r, p, v, v + k)
               && (forall u: nat | v <= u < v + k :: MarkedFrom(m, r, Slot(p, u), write, shared, priv))
               && r.spaces == m.spaces[p := m.spaces[p].(vmap := SetRange(m.spaces[p].vmap, v - MMAP_PAGE, k, true))]
  {
    hide Base; hide Cow; hide Tabled; hide Others; hide Good; hide MmapUpTo; hide Granted; hide Place; hide PageCount;
    hide MarkedFrom; hide AllButRange; hide SetRange;
    VmapOf(m, p);
    var at, k := Place(m.spaces[p].vmap, addr, PageCount(length)), PageCount(length);
    var v := at.vaddr / PAGE_SIZE;
    var n := Relayout(m, p, m.spaces[p].(vmap := at.vmap));
    MmapUpToMaps(n, p, v, k, write, shared, priv);
    var r := Mmap(m, p, addr, length, write, shared, priv);
    RelaidRange(m, n, r, p, v, k, write, shared, priv);
    Claimed(m.spaces[p].vmap, addr, k);
  }

  /** The bits that the search has claimed already are among those the loop sets. */
  lemma Claimed(vmap: seq<bool>, addr: nat, k: nat)
    requires |vmap| == VMAP_PAGES && Place(vmap, addr, k).There?
    requires Place(vmap, addr, k).vaddr / PAGE_SIZE + k <= MMAP_PAGE + VMAP_PAGES
    ensures var at := Place(vmap, addr, k); var i := at.vaddr / PAGE_SIZE - MMAP_PAGE;
            i >= 0 && |at.vmap| == |vmap| && SetRange(at.vmap, i, k, true) == SetRange(vmap, i, k, true)
  {
    if addr == 0 {
      PlaceFirst(vmap, k);
    } else {
      PlaceFixed(vmap, addr, k);
    }
  }

  lemma RelaidRange(m: Machine, n: Machine, r: Machine, p: Pid, v: nat, k: nat, write: bool, shared: bool, priv: bool)
    requires n.frames == m.frames && n.flags == m.flags && n.mem == m.mem && AllButRange(n, r, p, v, v + k)
    requires forall u: nat | v <= u < v + k :: MarkedFrom(n, r, Slot(p, u), write, shared, priv)
    ensures AllButRange(m, r, p, v, v + k)
    ensures forall u: nat | v <= u < v + k :: MarkedFrom(m, r, Slot(p, u), write, shared, priv)
  {
    SameRange(m, n, p, v, v + k);
    RangeTrans(m, n, r, p, v, v + k);
    forall u: nat | v <= u < v + k ensures MarkedFrom(m, r, Slot(p, u), write, shared, priv) {
      assert MarkedFrom(n, r, Slot(p, u), write, shared, priv);
    }
  }

  // ---- munmap ----

  /** Page `v` is in the window and marked in its map. */
  predicate Marked(vmap: seq<bool>, v: nat) {
    MMAP_PAGE <= v < MMAP_PAGE + |vmap| && vmap[v - MMAP_PAGE]
  }

  /** What `k` rounds of munmap leave: exactly the pages of the range are gone and their bits cleared. */
  ghost predicate Unmapped(m: Machine, r: Machine, p: Pid, v: nat, k: nat)
    requires p in m.spaces && v >= MMAP_PAGE && |m.spaces[p].vmap| == VMAP_PAGES
  {
    && AllButRange(m, r, p, v, v + k)
    && (forall u: nat | v <= u < v + k :: Slot(p, u) !in r.frames)
    && v + k <= MMAP_PAGE + VMAP_PAGES
    && r.spaces == m.spaces[p := m.spaces[p].(vmap := SetRange(m.spaces[p].vmap, v - MMAP_PAGE, k, false))]
  }

  lemma MunmapPageExact(m: Machine, p: Pid, v: nat)
    requires Good(m) && !m.halted && p in m.spaces
    ensures |m.spaces[p].vmap| == VMAP_PAGES
    ensures var r := MunmapPage(m, p, v);
            && (r.halted <==> !Marked(m.spaces[p].vmap, v))
            && (!r.halted ==> AllBut(m, r, Slot(p, v)) && Slot(p, v) !in r.frames
                              && r.spaces == m.spaces[p :=
                                   m.spaces[p].(vmap := m.spaces[p].vmap[v - MMAP_PAGE := false])])
  {
    hide Base; hide Cow; hide Tabled; hide Others; hide Good; hide Unlink; hide KeptPage;
    VmapOf(m, p);
    var n := Unlink(m, p, v, 1);
    if !MunmapPage(m, p, v).halted {
      OneGone(m, n, MunmapPage(m, p, v), p, v);
    }
  }

  lemma OneGone(m: Machine, n: Machine, r: Machine, p: Pid, v: nat)
    requires AllButRange(m, n, p, v, v + 1) && r.frames == n.frames && r.flags == n.flags && r.mem == n.mem
    ensures AllBut(m, r, Slot(p, v))
  {
    forall u | u != Slot(p, v) ensures KeptPage(m, r, u) {
      assert KeptPage(m, n, u);
    }
  }

  lemma UnmappedStart(m: Machine, p: Pid, v: nat)
    requires p in m.spaces && MMAP_PAGE <= v < STACK_TOP_PAGE && |m.spaces[p].vmap| == VMAP_PAGES
    ensures Unmapped(m, m, p, v, 0)
  {
    SameRange(m, m, p, v, v);
    var l := m.spaces[p];
    assert SetRange(l.vmap, v - MMAP_PAGE, 0, false) == l.vmap;
    assert m.spaces[p := l.(vmap := l.vmap)] == m.spaces;
  }

  lemma UnmappedNext(m: Machine, n: Machine, r: Machine, p: Pid, v: nat, k: nat)
    requires p in m.spaces && MMAP_PAGE <= v && |m.spaces[p].vmap| == VMAP_PAGES && p in n.spaces
    requires Unmapped(m, n, p, v, k) && v + k < MMAP_PAGE + VMAP_PAGES && |n.spaces[p].vmap| == VMAP_PAGES
    requires AllBut(n, r, Slot(p, v + k)) && Slot(p, v + k) !in r.frames
    requires r.spaces == n.spaces[p := n.spaces[p].(vmap := n.spaces[p].vmap[v + k - MMAP_PAGE := false])]
    ensures Unmapped(m, r, p, v, k + 1)
  {
    hide SetRange; hide AllButRange;
    RangeWiden(m, n, r, p, v, k);
    SetRangeStep(m.spaces[p].vmap, v - MMAP_PAGE, k, false);
    forall u: nat | v <= u < v + k + 1 ensures Slot(p, u) !in r.frames {
      assert u < v + k ==> KeptPage(n, r, Slot(p, u));
    }
  }

  lemma {:induction false} MunmapUpToExact(m: Machine, p: Pid, v: nat, k: nat)
    requires Good(m) && !m.halted && p in m.spaces && MMAP_PAGE <= v < STACK_TOP_PAGE
    requires |m.spaces[p].vmap| == VMAP_PAGES
    ensures var r := MunmapUpTo(m, p, v, k);
            && (r.halted <==> exists u: nat :: v <= u < v + k && !Marked(m.spaces[p].vmap, u))
            && (!r.halted ==> Unmapped(m, r, p, v, k))
    decreases k
  {
    hide Base; hide Cow; hide Tabled; hide Others; hide Good; hide AllBut; hide MunmapPage; hide Unmapped; hide Outside;
    if k == 0 {
      UnmappedStart(m, p, v);
    } else {
      MunmapUpToExact(m, p, v, k - 1);
      var n := MunmapUpTo(m, p, v, k - 1);
      if n.halted {
        var u: nat :| v <= u < v + k - 1 && !Marked(m.spaces[p].vmap, u);
        assert v <= u < v + k;
      } else {
        MunmapPageExact(n, p, v + k - 1);
        MarkAhead(m, n, p, v, k - 1);
        var r := MunmapPage(n, p, v + k - 1);
        if !r.halted {
          MarkedBound(n, p, v + k - 1);
          UnmappedNext(m, n, r, p, v, k - 1);
        }
      }
    }
  }

  lemma MarkAhead(m: Machine, n: Machine, p: Pid, v: nat, k: nat)
    requires p in m.spaces && MMAP_PAGE <= v && |m.spaces[p].vmap| == VMAP_PAGES && p in n.spaces
    requires Unmapped(m, n, p, v, k)
    ensures Marked(n.spaces[p].vmap, v + k) <==> Marked(m.spaces[p].vmap, v + k)
  {
  }

  lemma MarkedBound(n: Machine, p: Pid, v: nat)
    requires p in n.spaces && |n.spaces[p].vmap| == VMAP_PAGES && Marked(n.spaces[p].vmap, v)
    ensures v < MMAP_PAGE + VMAP_PAGES
  {
  }

  /** sys_munmap panics exactly for an address that is not page-aligned or outside the window, or when some page of the
      range is not marked in the window's map; otherwise exactly the pages of the range go, with their bits. */
  lemma MunmapEffect(m: Machine, p: Pid, addr: nat, length: nat)
    requires Good(m) && !m.halted && p in m.spaces
    ensures |m.spaces[p].vmap| == VMAP_PAGES
    ensures var r, v, k := Munmap(m, p, addr, length), addr / PAGE_SIZE, PageCount(length);
            && (r.halted <==> addr % 4096 != 0 || !(0x800_0000 <= addr < 0xfe0_0000)
                              || exists u: nat :: v <= u < v + k && !Marked(m.spaces[p].vmap, u))
            && (!r.halted ==>
                  && AllButRange(m, r, p, v, v + k) && (forall u: nat | v <= u < v + k :: Slot(p, u) !in r.frames)
                  && MMAP_PAGE <= v && v + k <= MMAP_PAGE + VMAP_PAGES
                  && r.spaces == m.spaces[p :=
                       m.spaces[p].(vmap := SetRange(m.spaces[p].vmap, v - MMAP_PAGE, k, false))])
  {
    hide Base; hide Cow; hide Tabled; hide Others; hide Good; hide MunmapUpTo; hide Outside; hide PageCount;
    hide Marked; hide AllButRange; hide SetRange;
    VmapOf(m, p);
    if addr % PAGE_SIZE == 0 && MMAP_ADDR <= addr < STACK_BOTTOM {
      MunmapUpToExact(m, p, addr / PAGE_SIZE, PageCount(length));
    }
  }
}
