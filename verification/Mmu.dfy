/** The imperative memory manager: memory_map is a byte array updated in place and the page tables are
    changed by the nested loops of src/kernel/memory.c. Every method refines a step of Frames, AddressSpaces
    or Paging. */
module Mmu {
  import opened Frames
  import opened AddressSpaces
  import opened Paging
  import opened CopyOnWrite

  type uint8 = x: nat | x < 256

  class MemoryManager {
    const totalPages: nat
    const startPage: nat
    const memoryMap: array<uint8>
    var freePages: int
    var mem: seq<Page>
    var spaces: map<Pid, Layout>
    var tables: map<Dir, nat>
    var frames: map<Slot, nat>
    var flags: map<Slot, Flags>
    var halted: bool

    ghost function Abs(): Machine
      reads this, memoryMap
    {
      Machine(memoryMap[..], freePages, mem, spaces, tables, frames, flags, halted)
    }

    /** Holds between any two updates, also half way through a fork. */
    ghost predicate Sane()
      reads this, memoryMap
    {
      Base(Abs()) && memoryMap.Length == totalPages && startPage <= KERNEL_FRAMES <= totalPages
    }

    ghost predicate Valid()
      reads this, memoryMap
    {
      Sane() && Good(Abs())
    }

    /** memory_map_init and mapping_init on a machine of `total` frames. */
    constructor (total: nat)
      requires KERNEL_FRAMES <= total <= 0x100000
      ensures Valid() && fresh(memoryMap)
      ensures Abs() == Boot(total)
    {
      totalPages := total;
      var mapPages := (total + PAGE_SIZE - 1) / PAGE_SIZE;
      startPage := 256 + mapPages;
      var start := 256 + mapPages;
      var map_ := new uint8[total](_ => 0);
      var i := 0;
      while i < start
        invariant 0 <= i <= start <= KERNEL_FRAMES <= total == map_.Length
        invariant forall f | 0 <= f < total :: map_[f] == if f < i then 1 else 0
      {
        map_[i] := 1;
        i := i + 1;
      }
      var index := 1;
      while index < KERNEL_FRAMES
        invariant 1 <= index <= KERNEL_FRAMES <= total == map_.Length
        invariant forall f | 0 <= f < total :: map_[f] == if f < start || f < index then 1 else 0
      {
        map_[index] := 1;
        index := index + 1;
      }
      memoryMap := map_;
      freePages := (total - 256) - mapPages - (KERNEL_FRAMES - start);
      mem := seq(total, i => seq(PAGE_SIZE, j => 0));
      spaces, tables, frames, flags, halted := map[], map[], map[], map[], false;
      new;
      BootGood(total);
      assert Abs() == Boot(total);
    }

    /** get_page: the first frame with count zero, now counted once; out of memory is a panic. */
    method GetPage() returns (page: nat)
      requires Sane() && !halted
      modifies this`freePages, this`halted, memoryMap
      ensures page == FirstZero(old(Abs()).counts, KERNEL_FRAMES)
      ensures page == totalPages ==> Abs() == Halt(old(Abs()))
      ensures page < totalPages ==>
              Abs() == old(Abs()).(counts := old(Abs()).counts[page := 1], free := old(Abs()).free - 1)
    {
      hide Base; hide Good;
      NoFrame(Abs());
      KernelCounts(Abs());
      ghost var counts := Abs().counts;
      var i := startPage;
      while i < totalPages
        invariant startPage <= i <= totalPages
        invariant forall j | startPage <= j < i :: counts[j] != 0
        invariant Abs() == old(Abs()) && counts == memoryMap[..]
      {
        if memoryMap[i] == 0 {
          FirstZeroIs(counts, KERNEL_FRAMES, i);
          memoryMap[i] := 1;
          freePages := freePages - 1;
          assert memoryMap[..] == counts[i := 1];
          return i;
        }
        i := i + 1;
      }
      FirstZeroIs(counts, KERNEL_FRAMES, i);
      halted := true;
      return i;
    }

    /** put_page. */
    method PutPage(idx: nat)
      requires Sane() && idx < totalPages && memoryMap[idx] >= 1
      modifies this`freePages, memoryMap
      ensures Abs() == old(Abs()).(counts := Release(old(Abs()).counts, idx),
                                   free := old(Abs()).free + if old(Abs()).counts[idx] == 1 then 1 else 0)
    {
      ghost var counts := memoryMap[..];
      memoryMap[idx] := memoryMap[idx] - 1;
      if memoryMap[idx] == 0 {
        freePages := freePages + 1;
      }
      assert memoryMap[..] == Release(counts, idx);
    }

    /** get_pte with `create`. */
    method GetTable(d: Dir)
      requires Valid() && OwnedDir(d, spaces)
      modifies this`freePages, this`halted, this`tables, memoryMap
      ensures Valid() && Abs() == EnsureTable(old(Abs()), d)
    {
      hide Base; hide Cow; hide Good; hide Tabled;
      ghost var m := Abs();
      GoodParts(m);
      TableGood(m, d);
      if !halted && d !in tables {
        var page := GetPage();
        if page < totalPages {
          tables := tables[d := page];
        }
      }
    }

    method LinkPage(s: Slot)
      requires Valid() && OwnedSlot(s, spaces)
      modifies this`freePages, this`halted, this`tables, this`frames, this`flags, memoryMap
      ensures Valid() && Abs() == Link(old(Abs()), s)
    {
      hide Base; hide Cow; hide Good; hide Tabled; hide AllBut;
      ghost var m := Abs();
      GetTable(DirOf(s));
      if halted || s in frames {
        return;
      }
      var page := GetPage();
      if page < totalPages {
        frames, flags := frames[s := page], flags[s := FRESH];
      }
      assert Abs() == Link(m, s);
    }

    method UnlinkPage(s: Slot)
      requires Valid() && !halted
      modifies this`freePages, this`frames, this`flags, memoryMap
      ensures Valid() && Abs() == Unlink(old(Abs()), s.pid, s.vpn, 1)
    {
      hide Base; hide Cow; hide Good; hide Tabled; hide Others;
      ghost var m := Abs();
      UnlinkOne(m, s);
      DropEntry(s);
      assert Abs() == Unlink(m, s.pid, s.vpn, 1);
    }

    /** copy_page of a page-table page: the child's table goes into a fresh frame. */
    method AddTable(d: Dir)
      requires Sane() && d !in tables && OwnedDir(d, spaces)
      modifies this`freePages, this`halted, this`tables, memoryMap
      ensures Sane() && Abs() == Frames.AddTable(old(Abs()), d)
    {
      hide Base; hide Cow; hide Good; hide Tabled;
      ghost var m := Abs();
      if !halted {
        var page := GetPage();
        if page < totalPages {
          tables := tables[d := page];
        }
      }
      assert Abs() == Frames.AddTable(m, d);
    }

    /** The inner loop body of copy_pde: freeze the parent's entry, count the frame once more, and enter it for the
        child. */
    method SharePage(p: Pid, c: Pid, v: nat)
      requires Sane() && p in spaces && c in spaces && p != c && Mirrored(Abs(), p, c, v)
      modifies this`frames, this`flags, memoryMap
      ensures Sane() && Abs() == AddressSpaces.SharePage(old(Abs()), p, c, v)
    {
      hide Base; hide Cow; hide Good; hide Tabled; hide Mirrored; hide ParentKept;
      ghost var m := Abs();
      var s := Slot(p, v);
      if s in frames {
        MappedFacts(m, s);
        CountBound(m, frames[s]);
        var f := frames[s];
        assert memoryMap[f] > 0;
        var e := flags[s];
        if !e.shared {
          e := e.(write := false);
        }
        memoryMap[f] := memoryMap[f] + 1;
        assert memoryMap[f] < 255;
        frames, flags := frames[Slot(c, v) := f], flags[s := e][Slot(c, v) := e];
        assert memoryMap[..] == m.counts[f := m.counts[f] + 1];
      }
      assert Abs() == AddressSpaces.SharePage(m, p, c, v);
    }

    /** copy_pde: the loops over the parent's directory and page tables. */
    method CopyPde(p: Pid, c: Pid)
      requires Sane() && p in spaces && c in spaces && p != c && (!halted ==> ForkReady(Abs(), p, c, FIRST_DIR))
      modifies this`freePages, this`halted, this`tables, this`frames, this`flags, memoryMap
      ensures Sane() && Abs() == ForkUpTo(old(Abs()), p, c, LAST_DIR)
    {
      hide Base; hide Cow; hide Good; hide Tabled; hide Mirrored; hide ParentKept; hide ForkReady; hide Sane;
      ghost var m := Abs();
      SaneBase();
      var didx := FIRST_DIR;
      while didx < LAST_DIR
        invariant FIRST_DIR <= didx <= LAST_DIR
        invariant Sane() && Abs() == ForkUpTo(m, p, c, didx)
      {
        CopyDir(p, c, didx);
        didx := didx + 1;
      }
    }

    lemma SaneBase()
      requires Sane()
      ensures Base(Abs())
    {
    }

    method CopyDir(p: Pid, c: Pid, didx: nat)
      requires Sane() && p in spaces && c in spaces && p != c && FIRST_DIR <= didx < LAST_DIR
      requires !halted ==> ForkReady(Abs(), p, c, didx)
      modifies this`freePages, this`halted, this`tables, this`frames, this`flags, memoryMap
      ensures Sane() && Abs() == ForkDir(old(Abs()), p, c, didx)
    {
      hide Base; hide Cow; hide Good; hide Tabled; hide Mirrored; hide ParentKept; hide ForkReady; hide Sane;
      ghost var m := Abs();
      SaneBase();
      if halted || Dir(p, didx) !in tables {
        return;
      }
      ForkReadyParts(m, p, c, didx);
      var tidx := 0;
      while tidx < TABLE
        invariant 0 <= tidx <= TABLE
        invariant Sane() && Abs() == ShareUpTo(m, p, c, didx * TABLE, tidx)
      {
        SharePage(p, c, didx * TABLE + tidx);
        tidx := tidx + 1;
      }
      AddTable(Dir(c, didx));
    }

    /** task_fork's part of the memory state. */
    method Fork(p: Pid, c: Pid)
      requires Valid() && p in spaces && c !in spaces && c < NR_TASKS
      modifies this`freePages, this`halted, this`spaces, this`tables, this`frames, this`flags, memoryMap
      ensures Valid() && Abs() == AddressSpaces.Fork(old(Abs()), p, c)
    {
      hide Base; hide Cow; hide Good; hide Tabled; hide Mirrored; hide ParentKept; hide ForkReady;
      ghost var m := Abs();
      GoodParts(m);
      if halted {
        return;
      }
      VmapSize(m, p);
      ForkStart(m, p, c);
      spaces := spaces[c := spaces[p]];
      assert Abs() == SetLayout(m, c, m.spaces[p]);
      CopyPde(p, c);
      assert Abs() == AddressSpaces.Fork(m, p, c);
    }

    /** free_pde: every mapped page and every page table of the process is put back. */
    method FreePde(p: Pid)
      requires Valid() && p in spaces
      modifies this`freePages, this`spaces, this`tables, this`frames, this`flags, memoryMap
      ensures Valid() && Abs() == Exit(old(Abs()), p)
    {
      hide Base; hide Cow; hide Good; hide Tabled; hide SlotsTabled; hide Exited;
      ghost var m := Abs();
      GoodParts(m);
      if halted {
        return;
      }
      var didx := FIRST_DIR;
      while didx < LAST_DIR
        invariant FIRST_DIR <= didx <= LAST_DIR
        invariant Sane() && spaces == m.spaces && Abs() == ExitUpTo(m, p, didx)
      {
        FreeDir(p, didx);
        didx := didx + 1;
      }
      spaces := spaces - {p};
      assert Abs() == Exit(m, p);
      GoodParts(Exit(m, p));
    }

    method FreeDir(p: Pid, didx: nat)
      requires Sane()
      modifies this`freePages, this`tables, this`frames, this`flags, memoryMap
      ensures Sane() && Abs() == ExitDir(old(Abs()), p, didx)
    {
      hide Base; hide Cow; hide Good; hide Tabled; hide DirCut; hide Sane; hide Outside;
      ghost var m := Abs();
      SaneBase();
      if halted || Dir(p, didx) !in tables {
        return;
      }
      var tidx := 0;
      while tidx < TABLE
        invariant 0 <= tidx <= TABLE
        invariant Sane() && !halted && Abs() == UnlinkRange(m, p, didx * TABLE, tidx)
      {
        DropEntry(Slot(p, didx * TABLE + tidx));
        tidx := tidx + 1;
      }
      PutTable(Dir(p, didx));
    }

    method PutTable(d: Dir)
      requires Sane() && !halted && d in tables
      modifies this`freePages, this`tables, memoryMap
      ensures Sane() && Abs() == DropTable(old(Abs()), d)
    {
      hide Base; hide Cow;
      ghost var m := Abs();
      TableFacts(m, d);
      PutPage(tables[d]);
      tables := tables - {d};
      assert Abs() == DropTable(m, d);
    }

    method DropEntry(s: Slot)
      requires Sane() && !halted
      modifies this`freePages, this`frames, this`flags, memoryMap
      ensures Sane() && Abs() == Frames.UnlinkPage(old(Abs()), s)
    {
      hide Base; hide Cow;
      ghost var m := Abs();
      if s in frames {
        MappedFacts(m, s);
        PutPage(frames[s]);
        frames, flags := frames - {s}, flags - {s};
      }
      assert Abs() == Frames.UnlinkPage(m, s);
    }

    /** The copy-on-write branch of page_fault. */
    method WriteFault(s: Slot)
      requires Valid() && !halted && s in frames
      modifies this`freePages, this`halted, this`mem, this`frames, this`flags, memoryMap
      ensures Valid() && Abs() == Paging.WriteFault(old(Abs()), s)
    {
      hide Base; hide Cow; hide Good; hide Tabled; hide AllBut; hide PageOf; hide FlagsSafe;
      ghost var m := Abs();
      GoodParts(m);
      MappedFacts(m, s);
      NoFrame(m);
      var e, f := flags[s], frames[s];
      if e.shared || e.readonly {
        halted := true;
      } else if memoryMap[f] == 1 {
        flags := flags[s := e.(write := true)];
      } else {
        var page := GetPage();
        if page < totalPages {
          mem := mem[page := mem[f]];
          memoryMap[f] := memoryMap[f] - 1;
          frames, flags := frames[s := page], flags[s := FRESH];
          assert memoryMap[..] == Release(m.counts, f)[page := 1];
        }
      }
      assert Abs() == Paging.WriteFault(m, s);
      GoodParts(Abs());
    }

    /** page_fault. */
    method PageFault(p: Pid, addr: nat, present: bool)
      requires Valid() && !halted && p in spaces && (present <==> SlotOf(p, addr) in frames)
      modifies this, memoryMap
      ensures Valid() && Abs() == Fault(old(Abs()), p, addr, present)
    {
      hide Base; hide Cow; hide Good; hide Tabled; hide AllBut; hide Others; hide PageOf;
      hide Exit; hide Paging.WriteFault; hide Link;
      ghost var m := Abs();
      if addr < EXEC_ADDR || addr >= STACK_TOP {
        FreePde(p);
      } else if present {
        WriteFault(SlotOf(p, addr));
      } else if addr < spaces[p].brk || addr >= STACK_BOTTOM {
        UserSlot(m, p, addr);
        LinkPage(SlotOf(p, addr));
      } else {
        halted := true;
        StopSane();
      }
    }

    twostate lemma StopSane()
      requires old(Valid()) && Abs() == Halt(old(Abs()))
      ensures Valid() && Abs() == Stop(old(Abs()))
    {
      Halt0(old(Abs()));
    }

    /** A user-mode store as the hardware retries it. */
    method StoreByte(p: Pid, addr: nat, b: Byte)
      requires Valid() && p in spaces
      modifies this, memoryMap
      ensures Valid() && Abs() == UserWrite(old(Abs()), p, addr, b)
    {
      hide Base; hide Cow; hide Good; hide Tabled; hide AllBut; hide Others; hide PageOf; hide Fault;
      ghost var m := Abs();
      var s := SlotOf(p, addr);
      if halted {
        return;
      }
      GoodParts(m);
      if s in frames {
        MappedFacts(m, s);
      }
      if s !in frames || !flags[s].write {
        PageFault(p, addr, s in frames);
        if halted || p !in spaces {
          return;
        }
      }
      WriteThrough(s, addr % PAGE_SIZE, b);
    }

    method WriteThrough(s: Slot, off: nat, b: Byte)
      requires Valid() && Writable(Abs(), s) && off < PAGE_SIZE
      modifies this`mem
      ensures Valid() && Abs() == Store(old(Abs()), s, off, b)
    {
      hide Base; hide Cow; hide Good; hide Tabled; hide AllBut; hide PageOf;
      ghost var m := Abs();
      GoodParts(m);
      MappedFacts(m, s);
      mem := mem[frames[s] := mem[frames[s]][off := b]];
      assert Abs() == Store(m, s, off, b);
      GoodParts(Abs());
    }

    method SetSpace(p: Pid, l: Layout)
      requires Valid() && p in spaces && |l.vmap| == VMAP_PAGES
      modifies this`spaces
      ensures Valid() && Abs() == Relayout(old(Abs()), p, l)
    {
      hide Base; hide Cow; hide Good; hide Tabled; hide Others;
      ghost var m := Abs();
      spaces := spaces[p := l];
      assert Abs() == Relayout(m, p, l);
      GoodParts(Abs());
    }

    /** sys_brk: shrinking unmaps page by page, growing only checks that enough frames are free. */
    method SysBrk(p: Pid, addr: nat) returns (ok: bool)
      requires Valid() && p in spaces && !halted
      modifies this, memoryMap
      ensures Valid() && (Abs(), ok) == Brk(old(Abs()), p, addr)
    {
      hide Base; hide Cow; hide Good; hide Tabled; hide Others; hide Unlink; hide Relayout;
      ghost var m := Abs();
      var l := spaces[p];
      VmapOf(m, p);
      if addr % PAGE_SIZE != 0 || !(l.end <= addr < MMAP_ADDR) {
        halted := true;
        StopSane();
        return false;
      }
      if l.brk > addr {
        UnlinkPages(p, addr / PAGE_SIZE, (l.brk - addr + PAGE_SIZE - 1) / PAGE_SIZE);
      } else if (addr - l.brk) / PAGE_SIZE > freePages {
        return false;
      }
      SetSpace(p, l.(brk := addr));
      return true;
    }

    method UnlinkPages(p: Pid, lo: nat, k: nat)
      requires Valid() && !halted
      modifies this`freePages, this`frames, this`flags, memoryMap
      ensures Valid() && Abs() == Unlink(old(Abs()), p, lo, k)
    {
      hide Base; hide Cow; hide Good; hide Tabled; hide Others; hide Outside;
      ghost var m := Abs();
      GoodParts(m);
      var i := 0;
      while i < k
        invariant 0 <= i <= k
        invariant Sane() && !halted && Abs() == UnlinkRange(m, p, lo, i)
      {
        DropEntry(Slot(p, lo + i));
        i := i + 1;
      }
      assert Abs() == Unlink(m, p, lo, k);
    }

    /** One round of the loop of sys_mmap. */
    method MapOne(p: Pid, v: nat, write: bool, shared: bool, priv: bool)
      requires Valid() && p in spaces && MMAP_PAGE <= v <= STACK_TOP_PAGE
      modifies this, memoryMap
      ensures Valid() && Abs() == MmapPage(old(Abs()), p, v, write, shared, priv)
    {
      hide Base; hide Cow; hide Good; hide Tabled; hide Others; hide AllBut; hide FlagsSafe; hide Link; hide CountsKept;
      ghost var m := Abs();
      var s := Slot(p, v);
      LinkPage(s);
      if halted {
        return;
      }
      ghost var n := Abs();
      if !(MMAP_PAGE <= v < MMAP_PAGE + VMAP_PAGES) {
        halted := true;
        assert Abs() == Stop(n);
        GoodParts(Abs());
        return;
      }
      VmapOf(n, p);
      SetSpace(p, spaces[p].(vmap := spaces[p].vmap[v - MMAP_PAGE := true]));
      ghost var k := Abs();
      FlagsMapped(k, s);
      var e := flags[s].(write := false, readonly := true);
      if write {
        e := e.(write := true, readonly := false);
      }
      if shared {
        e := e.(shared := true);
      }
      if priv {
        e := e.(priv := true);
      }
      flags := flags[s := e];
      assert Abs() == WithFlags(k, s, e);
      GoodParts(Abs());
    }

    /** sys_mmap: the address of the mapping is returned. */
    method SysMmap(p: Pid, addr: nat, length: nat, write: bool, shared: bool, priv: bool) returns (vaddr: nat)
      requires Valid() && p in spaces && !halted
      modifies this, memoryMap
      ensures Valid() && Abs() == Mmap(old(Abs()), p, addr, length, write, shared, priv)
      ensures !halted ==> Place(old(Abs()).spaces[p].vmap, addr, PageCount(length)).There?
                          && vaddr == Place(old(Abs()).spaces[p].vmap, addr, PageCount(length)).vaddr
    {
      hide Base; hide Cow; hide Good; hide Tabled; hide Others; hide MmapPage; hide Relayout; hide Granted; hide Place;
      ghost var m := Abs();
      VmapOf(m, p);
      var l := spaces[p];
      var count := PageCount(length);
      var at := Place(l.vmap, addr, count);
      if at.Nowhere? {
        halted := true;
        StopSane();
        return 0;
      }
      SetSpace(p, l.(vmap := at.vmap));
      ghost var n := Abs();
      var i := 0;
      while i < count && !halted
        invariant 0 <= i <= count
        invariant Valid() && p in spaces
        invariant Abs() == MmapUpTo(n, p, at.vaddr / PAGE_SIZE, i, write, shared, priv)
      {
        MapOne(p, at.vaddr / PAGE_SIZE + i, write, shared, priv);
        i := i + 1;
      }
      if halted {
        MmapHalted(n, p, at.vaddr / PAGE_SIZE, i, count, write, shared, priv);
      }
      return at.vaddr;
    }

    /** sys_munmap. */
    method SysMunmap(p: Pid, addr: nat, length: nat)
      requires Valid() && p in spaces && !halted
      modifies this, memoryMap
      ensures Valid() && Abs() == Munmap(old(Abs()), p, addr, length)
    {
      hide Base; hide Cow; hide Good; hide Tabled; hide Others; hide MunmapPage; hide Outside;
      ghost var m := Abs();
      if !(MMAP_ADDR <= addr < STACK_BOTTOM) || addr % PAGE_SIZE != 0 {
        halted := true;
        StopSane();
        return;
      }
      var count := PageCount(length);
      var i := 0;
      while i < count && !halted
        invariant 0 <= i <= count
        invariant Valid() && p in spaces
        invariant Abs() == MunmapUpTo(m, p, addr / PAGE_SIZE, i)
      {
        UnmapOne(p, addr / PAGE_SIZE + i);
        i := i + 1;
      }
      if halted {
        MunmapHalted(m, p, addr / PAGE_SIZE, i, count);
      }
    }

    method UnmapOne(p: Pid, v: nat)
      requires Valid() && p in spaces && !halted
      modifies this, memoryMap
      ensures Valid() && Abs() == MunmapPage(old(Abs()), p, v)
    {
      hide Base; hide Cow; hide Good; hide Tabled; hide Others; hide Outside; hide Unlink; hide Relayout;
      ghost var m := Abs();
      UnlinkPage(Slot(p, v));
      ghost var n := Abs();
      VmapOf(n, p);
      if !(MMAP_PAGE <= v < MMAP_PAGE + VMAP_PAGES) || !spaces[p].vmap[v - MMAP_PAGE] {
        halted := true;
        assert Abs() == Stop(n);
        GoodParts(Abs());
        return;
      }
      SetSpace(p, spaces[p].(vmap := spaces[p].vmap[v - MMAP_PAGE := false]));
    }
  }

  lemma {:induction false} MmapHalted(m: Machine, p: Pid, v: nat, i: nat, k: nat, write: bool, shared: bool, priv: bool)
    requires Good(m) && p in m.spaces && MMAP_PAGE <= v < STACK_TOP_PAGE && i <= k
    requires MmapUpTo(m, p, v, i, write, shared, priv).halted
    ensures MmapUpTo(m, p, v, k, write, shared, priv) == MmapUpTo(m, p, v, i, write, shared, priv)
    decreases k
  {
    hide Good; hide MmapPage; hide Others;
    if i < k {
      MmapHalted(m, p, v, i, k - 1, write, shared, priv);
    }
  }

  lemma {:induction false} MunmapHalted(m: Machine, p: Pid, v: nat, i: nat, k: nat)
    requires Good(m) && p in m.spaces && i <= k && MunmapUpTo(m, p, v, i).halted
    ensures MunmapUpTo(m, p, v, k) == MunmapUpTo(m, p, v, i)
    decreases k
  {
    hide Good; hide MunmapPage; hide Others; hide Outside;
    if i < k {
      MunmapHalted(m, p, v, i, k - 1);
    }
  }

  lemma TableFacts(m: Machine, d: Dir)
    requires Base(m) && d in m.tables
    ensures m.tables[d] < |m.counts| && m.counts[m.tables[d]] == 1
  {
  }

  lemma TableGood(m: Machine, d: Dir)
    requires Good(m) && OwnedDir(d, m.spaces)
    ensures Good(EnsureTable(m, d))
  {
    hide Base; hide Cow;
  }

  lemma UnlinkOne(m: Machine, s: Slot)
    requires Good(m) && !m.halted
    ensures Unlink(m, s.pid, s.vpn, 1) == Frames.UnlinkPage(m, s)
  {
    hide Base; hide Cow; hide Tabled; hide Others;
    GoodParts(m);
    assert UnlinkRange(m, s.pid, s.vpn, 0) == m;
  }

  lemma KernelCounts(m: Machine)
    requires Base(m)
    ensures KERNEL_FRAMES <= |m.counts| && forall f | 0 <= f < KERNEL_FRAMES :: m.counts[f] != 0
  {
  }

  lemma FirstZeroIs(counts: seq<nat>, from: nat, i: nat)
    requires from <= i <= |counts| && (forall j | from <= j < i :: counts[j] != 0) && (i < |counts| ==> counts[i] == 0)
    ensures FirstZero(counts, from) == i
  {
  }
}
