/** Physical frames and page tables (src/kernel/memory.c) as a value: the reference count of every frame,
    the page tables of every address space, and the steps that change them. A kernel panic or a failed
    assert is recorded in `halted`; no step changes a halted machine. */
module Frames {
  import opened Counting

  const PAGE_SIZE: nat := 4096
  const KERNEL_FRAMES: nat := 4096      // 16 MiB identity-mapped for the kernel
  const NR_TASKS: nat := 64
  const TABLE: nat := 1024              // entries of a page table
  const FIRST_DIR: nat := 4
  const LAST_DIR: nat := 1023           // the self-map slot, exclusive bound of the user part
  const EXEC_PAGE: nat := 4096
  const MMAP_PAGE: nat := 32768
  const VMAP_PAGES: nat := 32768
  const STACK_TOP_PAGE: nat := 65536

  type Pid = nat
  type Byte = x: int | 0 <= x < 256
  type Page = p: seq<Byte> | |p| == PAGE_SIZE witness seq(PAGE_SIZE, _ => 0)

  /** The software-visible bits of a present page-table entry. */
  datatype Flags = Flags(write: bool, shared: bool, priv: bool, readonly: bool)
  datatype Slot = Slot(pid: Pid, vpn: nat)
  datatype Dir = Dir(pid: Pid, didx: nat)
  datatype Layout = Layout(end: nat, brk: nat, vmap: seq<bool>)

  datatype Machine = Machine(
    counts: seq<nat>,             // memory_map
    free: int,                    // free_pages
    mem: seq<Page>,               // bytes of the data frames
    spaces: map<Pid, Layout>,     // live address spaces
    tables: map<Dir, nat>,        // present user directory entries: the frames of their tables
    frames: map<Slot, nat>,       // present user page-table entries: the frames they point to
    flags: map<Slot, Flags>,      // and their flag bits
    halted: bool)

  // ---- what every step keeps ----

  ghost predicate Shape(m: Machine) {
    && KERNEL_FRAMES <= |m.counts| == |m.mem|
    && (forall f | 0 <= f < KERNEL_FRAMES :: m.counts[f] == 1)
    && (forall p | p in m.spaces :: p < NR_TASKS && |m.spaces[p].vmap| == VMAP_PAGES)
    && m.flags.Keys == m.frames.Keys
  }

  ghost predicate OwnedSlot(s: Slot, spaces: map<Pid, Layout>) {
    s.pid in spaces && EXEC_PAGE <= s.vpn < LAST_DIR * TABLE
  }

  ghost predicate OwnedDir(d: Dir, spaces: map<Pid, Layout>) {
    d.pid in spaces && FIRST_DIR <= d.didx < LAST_DIR
  }

  ghost predicate Owned(m: Machine) {
    && (forall s | s in m.frames :: OwnedSlot(s, m.spaces) && KERNEL_FRAMES <= m.frames[s] < |m.counts|)
    && (forall d | d in m.tables :: OwnedDir(d, m.spaces) && KERNEL_FRAMES <= m.tables[d] < |m.counts|)
  }

  /** memory_map counts exactly the page-table and directory entries that refer to a frame. */
  ghost predicate Counted(counts: seq<nat>, frames: map<Slot, nat>, tables: map<Dir, nat>) {
    forall f | KERNEL_FRAMES <= f < |counts| :: counts[f] == Uses(frames, f) + Uses(tables, f)
  }

  /** Inside one address space no frame is mapped twice. */
  ghost predicate Unaliased(frames: map<Slot, nat>) {
    forall s, t | s in frames && t in frames && s.pid == t.pid && frames[s] == frames[t] :: s == t
  }

  /** A page-table frame is nothing else. */
  ghost predicate TablesAlone(counts: seq<nat>, tables: map<Dir, nat>) {
    forall d | d in tables && tables[d] < |counts| :: counts[tables[d]] == 1
  }

  ghost predicate Base(m: Machine) {
    && Shape(m) && Owned(m)
    && Counted(m.counts, m.frames, m.tables)
    && m.free == |Zeros(m.counts)|
    && Unaliased(m.frames)
    && TablesAlone(m.counts, m.tables)
  }

  /** A writable private entry is the only reference to its frame. */
  ghost predicate Exclusive(counts: seq<nat>, frames: map<Slot, nat>, flags: map<Slot, Flags>) {
    forall s | s in frames && s in flags && flags[s].write && !flags[s].shared && frames[s] < |counts| ::
      counts[frames[s]] == 1
  }

  /** The entries of one frame agree on whether it is shared. */
  ghost predicate Agreed(frames: map<Slot, nat>, flags: map<Slot, Flags>) {
    forall s, t | s in frames && t in frames && s in flags && t in flags && frames[s] == frames[t] ::
      flags[s].shared == flags[t].shared
  }

  ghost predicate Cow(m: Machine) {
    Exclusive(m.counts, m.frames, m.flags) && Agreed(m.frames, m.flags)
  }

  // ---- frame allocation ----

  /** Index of the first zero count at or after `i`, or the length when there is none. */
  function FirstZero(counts: seq<nat>, i: nat): (f: nat)
    requires i <= |counts|
    ensures i <= f <= |counts|
    ensures f < |counts| ==> counts[f] == 0
    ensures forall j | i <= j < f :: counts[j] != 0
    decreases |counts| - i
  {
    if i == |counts| || counts[i] == 0 then i else FirstZero(counts, i + 1)
  }

  function Halt(m: Machine): Machine {
    m.(halted := true)
  }

  /** The search for a free frame fails exactly when free_pages is zero. */
  lemma NoFrame(m: Machine)
    requires Base(m)
    ensures KERNEL_FRAMES <= |m.counts| == |m.mem|
    ensures FirstZero(m.counts, KERNEL_FRAMES) == |m.counts| <==> m.free == 0
  {
    var f := FirstZero(m.counts, KERNEL_FRAMES);
    if f < |m.counts| {
      assert f in Zeros(m.counts);
    } else if g :| g in Zeros(m.counts) {
      assert false;
    }
  }

  /** A frame nobody counts is referred to by no entry. */
  lemma Unreferenced(m: Machine, f: nat)
    requires Base(m) && KERNEL_FRAMES <= f < |m.counts| && m.counts[f] == 0
    ensures Uses(m.frames, f) == 0 && Uses(m.tables, f) == 0
    ensures forall s | s in m.frames :: m.frames[s] != f
    ensures forall d | d in m.tables :: m.tables[d] != f
  {
    UsesNone(m.frames, f);
    UsesNone(m.tables, f);
  }

  /** A frame of count one has one reference only. */
  lemma OnlyReference(m: Machine, s: Slot)
    requires Base(m) && s in m.frames && m.counts[m.frames[s]] == 1
    ensures forall t | t in m.frames && m.frames[t] == m.frames[s] :: t == s
    ensures forall d | d in m.tables :: m.tables[d] != m.frames[s]
  {
    UsesSome(m.frames, s);
    UsesNone(m.tables, m.frames[s]);
  }

  lemma MappedCount(m: Machine, s: Slot)
    requires Base(m) && s in m.frames
    ensures m.counts[m.frames[s]] >= 1
    ensures forall d | d in m.tables :: m.tables[d] != m.frames[s]
  {
    UsesSome(m.frames, s);
    forall d | d in m.tables
      ensures m.tables[d] != m.frames[s]
    {
      if m.tables[d] == m.frames[s] {
        UsesSome(m.tables, d);
      }
    }
  }

  // ---- how the counts follow one reference being added or dropped ----

  lemma CountPage(counts: seq<nat>, frames: map<Slot, nat>, tables: map<Dir, nat>, s: Slot, f: nat)
    requires Counted(counts, frames, tables) && s !in frames && f < |counts|
    ensures Counted(counts[f := counts[f] + 1], frames[s := f], tables)
  {
    forall g | KERNEL_FRAMES <= g < |counts|
      ensures counts[f := counts[f] + 1][g] == Uses(frames[s := f], g) + Uses(tables, g)
    {
      UsesAdd(frames, s, f, g);
    }
  }

  lemma UncountPage(counts: seq<nat>, frames: map<Slot, nat>, tables: map<Dir, nat>, s: Slot)
    requires Counted(counts, frames, tables) && s in frames && frames[s] < |counts| && counts[frames[s]] >= 1
    ensures Counted(Release(counts, frames[s]), frames - {s}, tables)
  {
    forall g | KERNEL_FRAMES <= g < |counts|
      ensures Release(counts, frames[s])[g] == Uses(frames - {s}, g) + Uses(tables, g)
    {
      UsesDrop(frames, s, g);
    }
  }

  lemma CountTable(counts: seq<nat>, frames: map<Slot, nat>, tables: map<Dir, nat>, d: Dir, f: nat)
    requires Counted(counts, frames, tables) && d !in tables && f < |counts|
    ensures Counted(counts[f := counts[f] + 1], frames, tables[d := f])
  {
    forall g | KERNEL_FRAMES <= g < |counts|
      ensures counts[f := counts[f] + 1][g] == Uses(frames, g) + Uses(tables[d := f], g)
    {
      UsesAdd(tables, d, f, g);
    }
  }

  lemma UncountTable(counts: seq<nat>, frames: map<Slot, nat>, tables: map<Dir, nat>, d: Dir)
    requires Counted(counts, frames, tables) && d in tables && tables[d] < |counts| && counts[tables[d]] >= 1
    ensures Counted(Release(counts, tables[d]), frames, tables - {d})
  {
    forall g | KERNEL_FRAMES <= g < |counts|
      ensures Release(counts, tables[d])[g] == Uses(frames, g) + Uses(tables - {d}, g)
    {
      UsesDrop(tables, d, g);
    }
  }

  /** put_page on the counts. */
  function Release(counts: seq<nat>, f: nat): seq<nat>
    requires f < |counts| && counts[f] >= 1
  {
    counts[f := counts[f] - 1]
  }

  /** Counts in use stay as they are. */
  ghost predicate CountsKept(m: Machine, r: Machine) {
    |r.counts| == |m.counts| && forall f | 0 <= f < |m.counts| && m.counts[f] > 0 :: r.counts[f] == m.counts[f]
  }

  // ---- map a fresh frame (the second half of link_page) ----

  const FRESH := Flags(true, false, false, false)    // entry_init

  function MapAt(m: Machine, s: Slot, f: nat): Machine
    requires f < |m.counts|
  {
    m.(counts := m.counts[f := 1], free := m.free - 1, frames := m.frames[s := f], flags := m.flags[s := FRESH])
  }

  lemma MapAtBase(m: Machine, s: Slot, f: nat)
    requires Base(m) && KERNEL_FRAMES <= f < |m.counts| && m.counts[f] == 0
    requires s !in m.frames && OwnedSlot(s, m.spaces)
    ensures Base(MapAt(m, s, f))
  {
    hide Counted; hide Zeros; hide Uses; hide Holders;
    Unreferenced(m, f);
    ZerosPut(m.counts, f, 1);
    CountPage(m.counts, m.frames, m.tables, s, f);
  }

  lemma MapAtCow(m: Machine, s: Slot, f: nat)
    requires Base(m) && KERNEL_FRAMES <= f < |m.counts| && m.counts[f] == 0 && s !in m.frames
    ensures Cow(m) ==> Cow(MapAt(m, s, f))
  {
    hide Counted; hide Zeros; hide Unaliased; hide TablesAlone;
    Unreferenced(m, f);
  }

  lemma KeptCounts(m: Machine, f: nat)
    requires f < |m.counts| && m.counts[f] == 0
    ensures forall r: Machine | r.counts == m.counts[f := 1] :: CountsKept(m, r)
  {
  }

  lemma SameCounts(m: Machine)
    ensures CountsKept(m, m) && CountsKept(m, Halt(m)) && Halt(m).halted
  {
  }

  lemma HaltBase(m: Machine)
    requires Base(m)
    ensures Base(Halt(m)) && (Cow(m) ==> Cow(Halt(m)))
  {
  }

  function MapFresh(m: Machine, s: Slot): (r: Machine)
    requires Base(m) && s !in m.frames && OwnedSlot(s, m.spaces)
    ensures Base(r) && (Cow(m) ==> Cow(r))
    ensures !m.halted ==> (r.halted <==> m.free == 0)
    ensures !r.halted ==> r.free == m.free - 1
    ensures r.spaces == m.spaces && r.tables == m.tables && r.mem == m.mem
    ensures m.halted ==> r == m
    ensures CountsKept(m, r)
    ensures r.halted ==> r.frames == m.frames && r.flags == m.flags
    ensures !r.halted ==> s in r.frames && r.frames == m.frames[s := r.frames[s]] && r.flags == m.flags[s := FRESH]
    ensures !r.halted ==> r.frames[s] < |r.counts| && r.counts[r.frames[s]] == 1
  {
    hide Base; hide Cow; hide CountsKept; hide OwnedSlot;
    NoFrame(m);
    SameCounts(m);
    HaltBase(m);
    var f := FirstZero(m.counts, KERNEL_FRAMES);
    if m.halted then m
    else if f == |m.counts| then Halt(m)
    else MapAtBase(m, s, f); MapAtCow(m, s, f); KeptCounts(m, f); MapAt(m, s, f)
  }

  // ---- add a page table (get_pte with create) ----

  function TableAt(m: Machine, d: Dir, f: nat): Machine
    requires f < |m.counts|
  {
    m.(counts := m.counts[f := 1], free := m.free - 1, tables := m.tables[d := f])
  }

  lemma TableAtBase(m: Machine, d: Dir, f: nat)
    requires Base(m) && KERNEL_FRAMES <= f < |m.counts| && m.counts[f] == 0
    requires d !in m.tables && OwnedDir(d, m.spaces)
    ensures Base(TableAt(m, d, f))
  {
    hide Counted; hide Zeros; hide Uses; hide Holders;
    Unreferenced(m, f);
    ZerosPut(m.counts, f, 1);
    CountTable(m.counts, m.frames, m.tables, d, f);
  }

  lemma TableAtCow(m: Machine, d: Dir, f: nat)
    requires Base(m) && KERNEL_FRAMES <= f < |m.counts| && m.counts[f] == 0
    ensures Cow(m) ==> Cow(TableAt(m, d, f))
  {
    Unreferenced(m, f);
  }

  function AddTable(m: Machine, d: Dir): (r: Machine)
    requires Base(m) && d !in m.tables && OwnedDir(d, m.spaces)
    ensures Base(r) && (Cow(m) ==> Cow(r))
    ensures r.frames == m.frames && r.flags == m.flags && r.mem == m.mem && r.spaces == m.spaces
    ensures m.halted ==> r == m
    ensures CountsKept(m, r)
    ensures !r.halted ==> d in r.tables && r.tables == m.tables[d := r.tables[d]]
    ensures !m.halted ==> (r.halted <==> m.free == 0)
    ensures !r.halted ==> r.free == m.free - 1
  {
    hide Base; hide Cow; hide CountsKept; hide OwnedDir;
    NoFrame(m);
    SameCounts(m);
    HaltBase(m);
    var f := FirstZero(m.counts, KERNEL_FRAMES);
    if m.halted then m
    else if f == |m.counts| then Halt(m)
    else TableAtBase(m, d, f); TableAtCow(m, d, f); KeptCounts(m, f); TableAt(m, d, f)
  }

  function DirOf(s: Slot): Dir {
    Dir(s.pid, s.vpn / TABLE)
  }

  /** The frames a new page table under `d` takes. */
  function TableNeeds(m: Machine, d: Dir): nat {
    if d in m.tables then 0 else 1
  }

  /** The frames that linking `s` takes: a page table and a page, where they are missing. */
  function LinkNeeds(m: Machine, s: Slot): nat {
    TableNeeds(m, DirOf(s)) + if s in m.frames then 0 else 1
  }

  /** get_pte: the table of an address, created when absent; a panic exactly for want of a frame. */
  function EnsureTable(m: Machine, d: Dir): (r: Machine)
    requires Base(m) && OwnedDir(d, m.spaces)
    ensures Base(r) && (Cow(m) ==> Cow(r))
    ensures r.frames == m.frames && r.flags == m.flags && r.mem == m.mem && r.spaces == m.spaces
    ensures m.halted ==> r == m
    ensures CountsKept(m, r)
    ensures forall e | e in m.tables :: e in r.tables
    ensures !r.halted ==> d in r.tables && forall e | e in r.tables && e != d :: e in m.tables
    ensures !m.halted ==> (r.halted <==> m.free < TableNeeds(m, d))
    ensures !r.halted ==> r.free == m.free - TableNeeds(m, d)
  {
    hide Base; hide Cow; hide OwnedDir; hide CountsKept;
    FreeFrames(m);
    SameCounts(m);
    if m.halted || d in m.tables then m else AddTable(m, d)
  }

  lemma FreeFrames(m: Machine)
    requires Base(m)
    ensures m.free >= 0
  {
  }

  lemma CountsKeptTrans(m: Machine, n: Machine, r: Machine)
    requires CountsKept(m, n) && CountsKept(n, r)
    ensures CountsKept(m, r)
  {
  }

  lemma OwnedUnder(s: Slot, spaces: map<Pid, Layout>)
    requires OwnedSlot(s, spaces)
    ensures OwnedDir(DirOf(s), spaces)
  {
  }

  /** link_page: an unmapped page gets a fresh private writable frame, a mapped one is left alone; a panic
      exactly when the frames do not suffice. */
  function LinkPage(m: Machine, s: Slot): (r: Machine)
    requires Base(m) && OwnedSlot(s, m.spaces)
    ensures Base(r) && (Cow(m) ==> Cow(r))
    ensures r.spaces == m.spaces && r.mem == m.mem && (m.halted ==> r == m)
    ensures CountsKept(m, r)
    ensures forall e | e in m.tables :: e in r.tables
    ensures r.halted || s in m.frames ==> r.frames == m.frames && r.flags == m.flags
    ensures !r.halted ==> s in r.frames && DirOf(s) in r.tables
    ensures !r.halted ==> forall e | e in r.tables && e != DirOf(s) :: e in m.tables
    ensures !m.halted ==> (r.halted <==> m.free < LinkNeeds(m, s))
    ensures !r.halted ==> r.free == m.free - LinkNeeds(m, s)
    ensures !r.halted && s !in m.frames ==> r.frames == m.frames[s := r.frames[s]] && r.flags == m.flags[s := FRESH]
    ensures !r.halted && s !in m.frames ==> r.frames[s] < |r.counts| && r.counts[r.frames[s]] == 1
  {
    hide Base; hide Cow; hide OwnedSlot; hide OwnedDir; hide CountsKept; hide DirOf;
    OwnedUnder(s, m.spaces);
    FreeFrames(m);
    var t := EnsureTable(m, DirOf(s));
    FreeFrames(t);
    if t.halted || s in t.frames then t
    else
      var r := MapFresh(t, s);
      CountsKeptTrans(m, t, r);
      r
  }

  // ---- drop a reference (unlink_page, free_pde) ----

  function DropPage(m: Machine, s: Slot): Machine
    requires s in m.frames && m.frames[s] < |m.counts| && m.counts[m.frames[s]] >= 1
  {
    var f := m.frames[s];
    m.(counts := Release(m.counts, f), free := m.free + (if m.counts[f] == 1 then 1 else 0),
       frames := m.frames - {s}, flags := m.flags - {s})
  }

  lemma DropPageBase(m: Machine, s: Slot)
    requires Base(m) && s in m.frames
    ensures m.counts[m.frames[s]] >= 1
    ensures Base(DropPage(m, s))
  {
    hide Counted; hide Zeros; hide Uses; hide Holders;
    MappedCount(m, s);
    ZerosPut(m.counts, m.frames[s], m.counts[m.frames[s]] - 1);
    UncountPage(m.counts, m.frames, m.tables, s);
  }

  lemma DropPageCow(m: Machine, s: Slot)
    requires Base(m) && s in m.frames && m.counts[m.frames[s]] >= 1
    ensures Cow(m) ==> Cow(DropPage(m, s))
  {
    hide Counted; hide Zeros; hide Unaliased; hide TablesAlone;
    if Cow(m) {
      var r := DropPage(m, s);
      forall t | t in r.frames && t in r.flags && r.flags[t].write && !r.flags[t].shared
        ensures r.counts[r.frames[t]] == 1
      {
        OnlyReference(m, t);
      }
    }
  }

  function UnlinkPage(m: Machine, s: Slot): (r: Machine)
    requires Base(m)
    ensures Base(r) && (Cow(m) ==> Cow(r))
    ensures r.mem == m.mem && r.spaces == m.spaces && r.tables == m.tables && r.halted == m.halted
    ensures r.frames == (if m.halted then m.frames else m.frames - {s})
    ensures r.flags == (if m.halted then m.flags else m.flags - {s})
  {
    if m.halted || s !in m.frames then m
    else DropPageBase(m, s); DropPageCow(m, s); DropPage(m, s)
  }

  function DropTableEntry(m: Machine, d: Dir): Machine
    requires d in m.tables && m.tables[d] < |m.counts| && m.counts[m.tables[d]] >= 1
  {
    var f := m.tables[d];
    m.(counts := Release(m.counts, f), free := m.free + (if m.counts[f] == 1 then 1 else 0), tables := m.tables - {d})
  }

  /** The frame of a page table is referred to by nothing else. */
  lemma OnlyTable(m: Machine, d: Dir)
    requires Base(m) && d in m.tables
    ensures m.counts[m.tables[d]] == 1
    ensures forall s | s in m.frames :: m.frames[s] != m.tables[d]
    ensures forall e | e in m.tables && m.tables[e] == m.tables[d] :: e == d
  {
    UsesSome(m.tables, d);
    UsesNone(m.frames, m.tables[d]);
  }

  lemma DropTableBase(m: Machine, d: Dir)
    requires Base(m) && d in m.tables
    ensures Base(DropTableEntry(m, d))
    ensures Cow(m) ==> Cow(DropTableEntry(m, d))
  {
    hide Counted; hide Zeros; hide Uses; hide Holders;
    OnlyTable(m, d);
    ZerosPut(m.counts, m.tables[d], 0);
    UncountTable(m.counts, m.frames, m.tables, d);
  }

  function DropTable(m: Machine, d: Dir): (r: Machine)
    requires Base(m)
    ensures Base(r) && (Cow(m) ==> Cow(r))
    ensures r.frames == m.frames && r.flags == m.flags && r.mem == m.mem && r.spaces == m.spaces && r.halted == m.halted
    ensures r.tables == (if m.halted then m.tables else m.tables - {d})
  {
    if m.halted || d !in m.tables then m
    else DropTableBase(m, d); DropTableEntry(m, d)
  }

  // ---- share an entry between parent and child (the inner loop of copy_pde) ----

  /** What fork leaves in both page tables: read-only unless the page is shared. */
  function Frozen(e: Flags): Flags {
    if e.shared then e else e.(write := false)
  }

  function Share(m: Machine, s: Slot, c: Slot): Machine
    requires s in m.frames && s in m.flags && m.frames[s] < |m.counts|
  {
    var f, e := m.frames[s], Frozen(m.flags[s]);
    m.(counts := m.counts[f := m.counts[f] + 1], frames := m.frames[c := f], flags := m.flags[s := e][c := e])
  }

  lemma ShareBase(m: Machine, s: Slot, c: Slot)
    requires Base(m) && s in m.frames && c !in m.frames && OwnedSlot(c, m.spaces)
    requires forall t | t in m.frames && t.pid == c.pid :: m.frames[t] != m.frames[s]
    ensures Base(Share(m, s, c))
  {
    hide Counted; hide Zeros; hide Uses; hide Holders;
    var f := m.frames[s];
    MappedCount(m, s);
    ZerosPut(m.counts, f, m.counts[f] + 1);
    CountPage(m.counts, m.frames, m.tables, c, f);
  }

  lemma ShareExclusive(m: Machine, s: Slot, c: Slot)
    requires Base(m) && s in m.frames && c !in m.frames && Exclusive(m.counts, m.frames, m.flags)
    ensures s in m.flags && m.frames[s] < |m.counts|
    ensures var r := Share(m, s, c); Exclusive(r.counts, r.frames, r.flags)
  {
    hide Counted; hide Zeros; hide Unaliased; hide TablesAlone;
    var r := Share(m, s, c);
    forall t | t in r.frames && t in r.flags && r.flags[t].write && !r.flags[t].shared
      ensures r.counts[r.frames[t]] == 1
    {
      OnlyReference(m, t);
    }
  }

  lemma ShareAgreed(m: Machine, s: Slot, c: Slot)
    requires s in m.frames && s in m.flags && c !in m.frames && m.frames[s] < |m.counts|
    requires Agreed(m.frames, m.flags)
    ensures var r := Share(m, s, c); Agreed(r.frames, r.flags)
  {
  }

  lemma ShareCow(m: Machine, s: Slot, c: Slot)
    requires Base(m) && s in m.frames && c !in m.frames
    ensures Cow(m) ==> Cow(Share(m, s, c))
  {
    hide Counted; hide Zeros; hide Unaliased; hide TablesAlone; hide Exclusive; hide Agreed;
    if Cow(m) {
      ShareExclusive(m, s, c);
      ShareAgreed(m, s, c);
    }
  }

  // ---- copy on write (the second branch of page_fault) ----

  function CopyAt(m: Machine, s: Slot, f: nat): Machine
    requires s in m.frames && m.frames[s] < |m.counts| == |m.mem| && f < |m.counts| && f != m.frames[s]
    requires m.counts[m.frames[s]] >= 1
  {
    var g := m.frames[s];
    m.(counts := Release(m.counts, g)[f := 1], free := m.free - 1, mem := m.mem[f := m.mem[g]],
       frames := m.frames[s := f], flags := m.flags[s := FRESH])
  }

  lemma CopyAtCounted(counts: seq<nat>, frames: map<Slot, nat>, tables: map<Dir, nat>, s: Slot, f: nat)
    requires Counted(counts, frames, tables) && s in frames && frames[s] < |counts| && counts[frames[s]] >= 1
    requires f < |counts| && counts[f] == 0
    ensures Counted(Release(counts, frames[s])[f := 1], frames[s := f], tables)
  {
    UncountPage(counts, frames, tables, s);
    CountPage(Release(counts, frames[s]), frames - {s}, tables, s, f);
    assert (frames - {s})[s := f] == frames[s := f];
  }

  lemma CopyAtAlone(m: Machine, s: Slot, f: nat)
    requires Base(m) && s in m.frames && KERNEL_FRAMES <= f < |m.counts| && m.counts[f] == 0
    ensures m.frames[s] < |m.counts| && m.counts[m.frames[s]] >= 1 && f != m.frames[s]
    ensures Unaliased(m.frames[s := f])
    ensures TablesAlone(Release(m.counts, m.frames[s])[f := 1], m.tables)
  {
    hide Counted; hide Zeros;
    Unreferenced(m, f);
    MappedCount(m, s);
  }

  lemma CopyAtBase(m: Machine, s: Slot, f: nat)
    requires Base(m) && s in m.frames && m.counts[m.frames[s]] > 1
    requires KERNEL_FRAMES <= f < |m.counts| && m.counts[f] == 0
    ensures Base(CopyAt(m, s, f))
  {
    hide Counted; hide Zeros; hide Unaliased; hide TablesAlone;
    var g := m.frames[s];
    CopyAtAlone(m, s, f);
    ZerosPut(m.counts, g, m.counts[g] - 1);
    ZerosPut(Release(m.counts, g), f, 1);
    CopyAtCounted(m.counts, m.frames, m.tables, s, f);
  }

  lemma CopyAtCow(m: Machine, s: Slot, f: nat)
    requires Base(m) && s in m.frames && !m.flags[s].shared && m.counts[m.frames[s]] > 1
    requires KERNEL_FRAMES <= f < |m.counts| && m.counts[f] == 0
    ensures Cow(m) ==> Cow(CopyAt(m, s, f))
  {
    hide Counted; hide Zeros; hide Unaliased; hide TablesAlone;
    if Cow(m) {
      var r := CopyAt(m, s, f);
      Unreferenced(m, f);
      forall t | t in r.frames && t in r.flags && r.flags[t].write && !r.flags[t].shared
        ensures r.counts[r.frames[t]] == 1
      {
        if t != s {
          OnlyReference(m, t);
        }
      }
    }
  }

  // ---- the reference counts fit a byte ----

  /** No count exceeds the number of address spaces, hence 64: the uint8 never wraps
      and the `< 255` assert of copy_pde holds. */
  lemma {:induction false} CountBound(m: Machine, f: nat)
    requires Base(m) && KERNEL_FRAMES <= f < |m.counts|
    ensures m.counts[f] <= |m.spaces| <= NR_TASKS
  {
    SmallSet(m.spaces.Keys, NR_TASKS);
    if d :| d in m.tables && m.tables[d] == f {
      assert m.spaces.Keys - {d.pid} < m.spaces.Keys;
    } else {
      assert Holders(m.tables, f) == {};
      InjectionBound(Holders(m.frames, f), m.spaces.Keys, (s: Slot) => s.pid);
    }
  }
}
