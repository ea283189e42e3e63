/** The kernel heap (src/kernel/arena.c) on the kernel page map (src/kernel/memory.c): blocks of seven sizes carved
    from pages that start with a 16-byte header, and runs of whole pages for larger requests. */
module Arena {
  import opened Bitmaps
  import opened Lists

  const PAGE: nat := 4096
  const HEADER: nat := 16
  const DESCS: nat := 7
  const BASE: nat := 256         // the first page of kernel_map
  const TWO32: nat := 0x1_0000_0000

  /** The descriptors set up by arena_init. */
  function BlockSize(d: nat): (s: nat)
    requires d < DESCS
  {
    if d == 0 then 16 else if d == 1 then 32 else if d == 2 then 64 else if d == 3 then 128
    else if d == 4 then 256 else if d == 5 then 512 else 1024
  }

  function Total(d: nat): (t: nat)
    requires d < DESCS
    ensures 3 <= t <= 255
  {
    (PAGE - HEADER) / BlockSize(d)
  }

  /** get_arena_block: block `i` of the arena in page `p`. */
  function Block(p: nat, d: nat, i: nat): nat
    requires d < DESCS
  {
    p * PAGE + HEADER + i * BlockSize(d)
  }

  /** get_block_arena: the address with its low twelve bits cleared, as a page number. */
  function PageOf(a: nat): nat {
    a / PAGE
  }

  /** A block lies inside its page, behind the header, so masking its address gives back its arena. */
  lemma BlockInPage(p: nat, d: nat, i: nat)
    requires d < DESCS && i < Total(d)
    ensures p * PAGE + HEADER <= Block(p, d, i) && Block(p, d, i) + BlockSize(d) <= (p + 1) * PAGE
    ensures PageOf(Block(p, d, i)) == p
  {
  }

  /** Different blocks of one arena do not overlap. */
  lemma BlocksApart(p: nat, d: nat, i: nat, j: nat)
    requires d < DESCS && i < j
    ensures Block(p, d, i) + BlockSize(d) <= Block(p, d, j)
  {
  }

  datatype Arena = Small(desc: nat, count: nat) | Large(pages: nat)

  /** `live` maps every block handed out to the size asked for. */
  datatype Heap = Heap(bits: seq<bool>, arenas: map<nat, Arena>, free: seq<seq<nat>>, live: map<nat, nat>, halted: bool)

  // ---- the operations ----

  /** The first descriptor whose blocks are large enough. */
  function DescFor(size: nat, d: nat): (r: nat)
    requires size <= 1024 && d < DESCS && (forall e | 0 <= e < d :: BlockSize(e) < size)
    ensures r < DESCS && size <= BlockSize(r) && forall e | 0 <= e < r :: BlockSize(e) < size
    decreases DESCS - d
  {
    if BlockSize(d) >= size then d else DescFor(size, d + 1)
  }

  /** div_round_up(size + 16, 4096) in 32-bit arithmetic. */
  function PagesFor(size: nat): nat {
    (((size + HEADER) % TWO32 + PAGE - 1) % TWO32) / PAGE
  }

  /** The blocks of a new arena, pushed one after the other. */
  function PushBlocks(list: seq<nat>, p: nat, d: nat, n: nat): seq<nat>
    requires d < DESCS
  {
    if n == 0 then list else [Block(p, d, n - 1)] + PushBlocks(list, p, d, n - 1)
  }

  /** The blocks of an arena, removed one after the other. */
  function DropBlocks(list: seq<nat>, p: nat, d: nat, n: nat): seq<nat>
    requires d < DESCS
  {
    if n == 0 then list else Without(DropBlocks(list, p, d, n - 1), Block(p, d, n - 1))
  }

  /** alloc_kpage for a new arena; no room, or no pages asked for, is a panic. */
  function NewArena(h: Heap, a: Arena, n: nat): Heap {
    if n == 0 then h.(halted := true)
    else
      match FirstRun(h.bits, n, 0)
      case NotFound => h.(halted := true)
      case At(s) => h.(bits := SetRange(h.bits, s, n, true), arenas := h.arenas[BASE + s := a])
  }

  function Room(h: Heap, n: nat): (p: nat)
    requires n > 0 && FirstRun(h.bits, n, 0).At?
  {
    BASE + FirstRun(h.bits, n, 0).start
  }

  /** kmalloc's refill of an empty free list. */
  function Refill(h: Heap, d: nat): Heap
    requires |h.free| == DESCS && d < DESCS
  {
    var g := NewArena(h, Small(d, Total(d)), 1);
    if g.halted then g else g.(free := g.free[d := PushBlocks(g.free[d], Room(h, 1), d, Total(d))])
  }

  /** kmalloc from a free list that is not empty. */
  function Pop(h: Heap, d: nat, size: nat): Heap
    requires |h.free| == DESCS && d < DESCS && h.free[d] != []
  {
    var b := h.free[d][0];
    var p := PageOf(b);
    var arenas := if p in h.arenas && h.arenas[p].Small? && h.arenas[p].count > 0
                  then h.arenas[p := Small(h.arenas[p].desc, h.arenas[p].count - 1)] else h.arenas;
    h.(free := h.free[d := h.free[d][1..]], arenas := arenas, live := h.live[b := size])
  }

  datatype Result = Panic | Addr(addr: nat)

  function Kmalloc(h: Heap, size: nat): (Heap, Result)
    requires |h.free| == DESCS
  {
    if h.halted then (h, Panic)
    else if size > 1024 then
      var n := PagesFor(size);
      var g := NewArena(h, Large(n), n);
      if g.halted then (g, Panic)
      else
        var a := Room(h, n) * PAGE + HEADER;
        (g.(live := g.live[a := size]), Addr(a))
    else
      var d := DescFor(size, 0);
      var g := if h.free[d] == [] then Refill(h, d) else h;
      if g.halted || g.free[d] == [] then (g, Panic) else (Pop(g, d, size), Addr(g.free[d][0]))
  }

  /** free_kpage and the end of the arena. */
  function DropArena(h: Heap, p: nat, n: nat): Heap
  {
    if p < BASE || p - BASE + n > |h.bits| then h
    else h.(bits := SetRange(h.bits, p - BASE, n, false), arenas := h.arenas - {p})
  }

  /** kfree of a small block, up to the test whether the arena is now entirely free. */
  function Push(h: Heap, a: nat, d: nat, c: nat): Heap
    requires |h.free| == DESCS && d < DESCS
  {
    h.(arenas := h.arenas[PageOf(a) := Small(d, c + 1)], free := h.free[d := [a] + h.free[d]], live := h.live - {a})
  }

  function Kfree(h: Heap, a: nat): Heap
    requires |h.free| == DESCS && PageOf(a) in h.arenas
    requires h.arenas[PageOf(a)].Small? ==> h.arenas[PageOf(a)].desc < DESCS
  {
    var p := PageOf(a);
    if h.halted then h
    else
      match h.arenas[p]
      case Large(n) => DropArena(h.(live := h.live - {a}), p, n)
      case Small(d, c) =>
        var g := Push(h, a, d, c);
        if c + 1 < Total(d) then g else DropArena(g.(free := g.free[d := DropBlocks(g.free[d], p, d, Total(d))]), p, 1)
  }

  // ---- invariants ----

  function Span(a: Arena): nat {
    match a
    case Small(_, _) => 1
    case Large(n) => n
  }

  /** Bit `k` of the page map belongs to the arena at page `p`. */
  predicate Holds(arenas: map<nat, Arena>, p: nat, k: int) {
    p in arenas && p <= BASE + k < p + Span(arenas[p])
  }

  ghost predicate Covered(arenas: map<nat, Arena>, k: int) {
    exists p :: Holds(arenas, p, k)
  }

  /** The page map is `base` and the pages of the arenas, which lie apart from each other and from `base`. */
  ghost predicate Mapped(h: Heap, base: seq<bool>) {
    && |h.bits| == |base|
    && (forall p | p in h.arenas :: BASE <= p && Span(h.arenas[p]) >= 1 && p + Span(h.arenas[p]) <= BASE + |base|)
    && (forall p, q | p in h.arenas && q in h.arenas && p < q :: p + Span(h.arenas[p]) <= q)
    && (forall k | 0 <= k < |base| :: h.bits[k] <==> base[k] || Covered(h.arenas, k))
    && (forall k | 0 <= k < |base| && base[k] :: !Covered(h.arenas, k))
  }

  /** `a` is a block of the arena in page `p`. */
  ghost predicate BlockOf(p: nat, d: nat, a: nat)
    requires d < DESCS
  {
    exists i :: 0 <= i < Total(d) && a == Block(p, d, i)
  }

  /** How many of the first `n` blocks of an arena are in a list. */
  function CountFree(list: seq<nat>, p: nat, d: nat, n: nat): (c: nat)
    requires d < DESCS
    ensures c <= n
  {
    if n == 0 then 0 else CountFree(list, p, d, n - 1) + if Block(p, d, n - 1) in list then 1 else 0
  }

  /** A free list holds blocks of arenas of its own size, each once. */
  ghost predicate Listed(h: Heap) {
    && |h.free| == DESCS
    && (forall d, i | 0 <= d < DESCS && 0 <= i < |h.free[d]| :: Owned(h, d, h.free[d][i]))
    && (forall d | 0 <= d < DESCS :: Distinct(h.free[d]))
  }

  ghost predicate Owned(h: Heap, d: nat, a: nat)
    requires d < DESCS
  {
    PageOf(a) in h.arenas && h.arenas[PageOf(a)].Small? && h.arenas[PageOf(a)].desc == d && BlockOf(PageOf(a), d, a)
  }

  /** Of an arena's blocks each is either free or handed out, `count` are free, and some block is handed out (unless
      the arena is the one in page `spare`, in the middle of an operation). */
  ghost predicate Sorted(h: Heap, p: nat, d: nat, c: nat, spare: int)
    requires |h.free| == DESCS
  {
    && d < DESCS && c == CountFree(h.free[d], p, d, Total(d)) && (p != spare ==> c < Total(d))
    && forall i | 0 <= i < Total(d) :: Block(p, d, i) in h.free[d] <==> Block(p, d, i) !in h.live
  }

  ghost predicate Slots(h: Heap, spare: int)
    requires |h.free| == DESCS
  {
    forall p | p in h.arenas && h.arenas[p].Small? :: Sorted(h, p, h.arenas[p].desc, h.arenas[p].count, spare)
  }

  /** What is handed out is a block or the inside of a large arena, and at least as large as was asked for. */
  ghost predicate Served(h: Heap, a: nat)
    requires a in h.live
  {
    PageOf(a) in h.arenas &&
    match h.arenas[PageOf(a)]
    case Small(d, _) => d < DESCS && BlockOf(PageOf(a), d, a) && h.live[a] <= BlockSize(d)
    case Large(n) => a == PageOf(a) * PAGE + HEADER && h.live[a] + HEADER <= n * PAGE
  }

  ghost predicate Handed(h: Heap) {
    && (forall a | a in h.live :: Served(h, a))
    && (forall p | p in h.arenas && h.arenas[p].Large? :: p * PAGE + HEADER in h.live)
  }

  ghost predicate Inv(h: Heap, base: seq<bool>) {
    Mapped(h, base) && Listed(h) && Slots(h, -1) && Handed(h)
  }

  // ---- lists of blocks ----

  lemma {:induction false} Pushed(list: seq<nat>, p: nat, d: nat, n: nat)
    requires d < DESCS && Distinct(list) && forall i | 0 <= i < n :: Block(p, d, i) !in list
    ensures var r := PushBlocks(list, p, d, n);
            Distinct(r)
            && (forall x | x in r :: x in list || exists i :: 0 <= i < n && x == Block(p, d, i))
            && (forall x | x in list :: x in r) && (forall i | 0 <= i < n :: Block(p, d, i) in r)
    decreases n
  {
    hide BlockSize;
    if n > 0 {
      Pushed(list, p, d, n - 1);
      forall i | 0 <= i < n - 1 ensures Block(p, d, i) != Block(p, d, n - 1) {
        BlocksDiffer(p, d, i, n - 1);
      }
    }
  }

  lemma BlocksDiffer(p: nat, d: nat, i: nat, j: nat)
    requires d < DESCS && i < j
    ensures Block(p, d, i) != Block(p, d, j)
  {
    BlocksApart(p, d, i, j);
  }

  lemma OtherBlocks(p: nat, d: nat, i: nat)
    requires d < DESCS && i < Total(d)
    ensures forall j | 0 <= j < Total(d) && j != i :: Block(p, d, j) != Block(p, d, i)
  {
    hide Block; hide Total;
    forall j | 0 <= j < Total(d) && j != i ensures Block(p, d, j) != Block(p, d, i) {
      if j < i {
        BlocksDiffer(p, d, j, i);
      } else {
        BlocksDiffer(p, d, i, j);
      }
    }
  }

  lemma {:induction false} Dropped(list: seq<nat>, p: nat, d: nat, n: nat)
    requires d < DESCS && Distinct(list)
    ensures var r := DropBlocks(list, p, d, n);
            Distinct(r) && forall x :: x in r <==> x in list && forall i | 0 <= i < n :: x != Block(p, d, i)
    decreases n
  {
    hide Block;
    if n > 0 {
      Dropped(list, p, d, n - 1);
      WithoutDistinct(DropBlocks(list, p, d, n - 1), Block(p, d, n - 1));
    }
  }

  lemma {:induction false} CountSame(a: seq<nat>, b: seq<nat>, p: nat, d: nat, n: nat)
    requires d < DESCS && forall i | 0 <= i < n :: Block(p, d, i) in a <==> Block(p, d, i) in b
    ensures CountFree(a, p, d, n) == CountFree(b, p, d, n)
    decreases n
  {
    hide Block;
    if n > 0 {
      CountSame(a, b, p, d, n - 1);
    }
  }

  lemma {:induction false} CountOneMore(a: seq<nat>, b: seq<nat>, p: nat, d: nat, k: nat, n: nat)
    requires d < DESCS && k < n && Block(p, d, k) !in a && Block(p, d, k) in b
    requires forall i | 0 <= i < n && i != k :: Block(p, d, i) in a <==> Block(p, d, i) in b
    ensures CountFree(b, p, d, n) == CountFree(a, p, d, n) + 1
    decreases n
  {
    hide Block;
    if k == n - 1 {
      CountSame(a, b, p, d, n - 1);
    } else {
      CountOneMore(a, b, p, d, k, n - 1);
    }
  }

  /** All blocks are free exactly when the count says so. */
  lemma {:induction false} CountAll(a: seq<nat>, p: nat, d: nat, n: nat)
    requires d < DESCS
    ensures CountFree(a, p, d, n) == n <==> forall i | 0 <= i < n :: Block(p, d, i) in a
    decreases n
  {
    hide Block;
    if n > 0 {
      CountAll(a, p, d, n - 1);
    }
  }

  // ---- the page map ----

  /** A clear run is apart from every arena. */
  lemma RunApart(h: Heap, base: seq<bool>, s: nat, n: nat, q: nat)
    requires Mapped(h, base) && n > 0 && ClearRun(h.bits, s, n) && q in h.arenas
    ensures q != BASE + s && (q < BASE + s ==> q + Span(h.arenas[q]) <= BASE + s)
    ensures (BASE + s < q ==> BASE + s + n <= q)
  {
    assert Holds(h.arenas, q, q - BASE);
    assert Covered(h.arenas, q - BASE) && h.bits[q - BASE];
    if q < BASE + s < q + Span(h.arenas[q]) {
      assert Holds(h.arenas, q, s);
      assert Covered(h.arenas, s);
    }
  }

  lemma NewArenaCovers(h: Heap, g: map<nat, Arena>, p: nat, a: Arena, k: int)
    requires p !in h.arenas && g == h.arenas[p := a]
    ensures Covered(g, k) <==> Covered(h.arenas, k) || p <= BASE + k < p + Span(a)
  {
    if Covered(h.arenas, k) {
      var q :| Holds(h.arenas, q, k);
      assert Holds(g, q, k);
    }
    if p <= BASE + k < p + Span(a) {
      assert Holds(g, p, k);
    }
    if Covered(g, k) {
      var q :| Holds(g, q, k);
      assert q != p ==> Holds(h.arenas, q, k);
    }
  }

  lemma NewArenaMapped(h: Heap, base: seq<bool>, a: Arena, n: nat)
    requires Mapped(h, base) && n > 0 && Span(a) == n && FirstRun(h.bits, n, 0).At?
    ensures Mapped(NewArena(h, a, n), base) && Room(h, n) !in h.arenas && Room(h, n) >= BASE
  {
    hide Covered;
    var s := FirstRun(h.bits, n, 0).start;
    var g := NewArena(h, a, n);
    forall q | q in h.arenas
      ensures q != BASE + s && (q < BASE + s ==> q + Span(h.arenas[q]) <= BASE + s)
      ensures (BASE + s < q ==> BASE + s + n <= q)
    {
      RunApart(h, base, s, n, q);
    }
    forall k | 0 <= k < |base| ensures Covered(g.arenas, k) <==> Covered(h.arenas, k) || s <= k < s + n {
      NewArenaCovers(h, g.arenas, BASE + s, a, k);
    }
  }

  lemma DropArenaCovers(h: Heap, base: seq<bool>, g: map<nat, Arena>, p: nat, k: int)
    requires Mapped(h, base) && p in h.arenas && g == h.arenas - {p} && 0 <= k < |base|
    ensures Covered(g, k) <==> Covered(h.arenas, k) && !(p <= BASE + k < p + Span(h.arenas[p]))
    ensures p <= BASE + k < p + Span(h.arenas[p]) ==> Covered(h.arenas, k)
  {
    if p <= BASE + k < p + Span(h.arenas[p]) {
      assert Holds(h.arenas, p, k);
    }
    if Covered(g, k) {
      var q :| Holds(g, q, k);
      assert Holds(h.arenas, q, k);
    }
    if Covered(h.arenas, k) && !(p <= BASE + k < p + Span(h.arenas[p])) {
      var q :| Holds(h.arenas, q, k);
      assert Holds(g, q, k);
    }
  }

  lemma DropArenaMapped(h: Heap, base: seq<bool>, p: nat, n: nat)
    requires Mapped(h, base) && p in h.arenas && Span(h.arenas[p]) == n
    ensures Mapped(DropArena(h, p, n), base) && DropArena(h, p, n).arenas == h.arenas - {p}
  {
    hide Covered;
    var g := DropArena(h, p, n);
    forall k | 0 <= k < |base|
      ensures Covered(g.arenas, k) <==> Covered(h.arenas, k) && !(p <= BASE + k < p + n)
      ensures p <= BASE + k < p + n ==> !base[k]
    {
      DropArenaCovers(h, base, g.arenas, p, k);
    }
  }

  /** Only what the arenas are and the bits matter to the page map. */
  lemma SameMapped(h: Heap, g: Heap, base: seq<bool>)
    requires Mapped(h, base) && g.bits == h.bits && g.arenas.Keys == h.arenas.Keys
    requires forall p | p in h.arenas :: Span(g.arenas[p]) == Span(h.arenas[p])
    ensures Mapped(g, base)
  {
    forall k | 0 <= k < |base| ensures Covered(g.arenas, k) <==> Covered(h.arenas, k) {
      if Covered(g.arenas, k) {
        var q :| Holds(g.arenas, q, k);
        assert Holds(h.arenas, q, k);
      }
      if Covered(h.arenas, k) {
        var q :| Holds(h.arenas, q, k);
        assert Holds(g.arenas, q, k);
      }
    }
  }

  // ---- allocation keeps the invariant ----

  /** Handing out nothing in a page that has no arena. */
  lemma PageUnused(h: Heap, p: nat, d: nat, i: nat)
    requires Handed(h) && p !in h.arenas && d < DESCS && i < Total(d)
    ensures Block(p, d, i) !in h.live
  {
    hide Block; hide Served;
    BlockInPage(p, d, i);
    if Block(p, d, i) in h.live {
      ServedPage(h, Block(p, d, i));
    }
  }

  lemma ServedPage(h: Heap, a: nat)
    requires a in h.live && Served(h, a)
    ensures PageOf(a) in h.arenas
  {
  }

  lemma OtherSorted(h: Heap, g: Heap, q: nat, p: nat, d: nat, c: nat, spare: int, after: int)
    requires |h.free| == |g.free| == DESCS && Sorted(h, q, d, c, spare) && q != p && (q == spare ==> q == after)
    requires forall x | PageOf(x) != p :: (x in h.free[d] <==> x in g.free[d]) && (x in h.live <==> x in g.live)
    ensures Sorted(g, q, d, c, after)
  {
    hide Block;
    forall i | 0 <= i < Total(d)
      ensures PageOf(Block(q, d, i)) == q
      ensures Block(q, d, i) in h.free[d] <==> Block(q, d, i) in g.free[d]
      ensures Block(q, d, i) in g.free[d] <==> Block(q, d, i) !in g.live
    {
      BlockInPage(q, d, i);
    }
    CountSame(h.free[d], g.free[d], q, d, Total(d));
  }

  /** Other lists may change only in what lies in page `p`. */
  lemma OtherSlots(h: Heap, g: Heap, p: nat, spare: int, after: int)
    requires |h.free| == |g.free| == DESCS && Slots(h, spare) && (spare == after || spare == -1 || spare == p)
    requires forall q | q != p :: q in g.arenas <==> q in h.arenas
    requires forall q | q in h.arenas && q != p :: g.arenas[q] == h.arenas[q]
    requires forall d, x | 0 <= d < DESCS && PageOf(x) != p :: x in h.free[d] <==> x in g.free[d]
    requires forall x | PageOf(x) != p :: x in h.live <==> x in g.live
    requires p in g.arenas && g.arenas[p].Small? ==> Sorted(g, p, g.arenas[p].desc, g.arenas[p].count, after)
    ensures Slots(g, after)
  {
    hide Sorted; hide PageOf;
    forall q | q in g.arenas && g.arenas[q].Small? ensures Sorted(g, q, g.arenas[q].desc, g.arenas[q].count, after) {
      if q != p {
        DescBound(h, q, spare);
        OtherSorted(h, g, q, p, h.arenas[q].desc, h.arenas[q].count, spare, after);
      }
    }
  }

  lemma DescBound(h: Heap, q: nat, spare: int)
    requires |h.free| == DESCS && Slots(h, spare) && q in h.arenas && h.arenas[q].Small?
    ensures h.arenas[q].desc < DESCS
  {
  }

  lemma RefillSlots(h: Heap, base: seq<bool>, d: nat)
    requires Inv(h, base) && !h.halted && d < DESCS && h.free[d] == [] && FirstRun(h.bits, 1, 0).At?
    ensures var g := Refill(h, d); var p := Room(h, 1);
            Listed(g) && Slots(g, p) && |g.free[d]| == Total(d) && PageOf(g.free[d][0]) == p
  {
    hide Block; hide Mapped; hide Handed; hide Sorted;
    var g, p := Refill(h, d), Room(h, 1);
    NewArenaMapped(h, base, Small(d, Total(d)), 1);
    Pushed(h.free[d], p, d, Total(d));
    assert g.free[d] == PushBlocks(h.free[d], p, d, Total(d));
    PushedLength(h.free[d], p, d, Total(d));
    CountAll(g.free[d], p, d, Total(d));
    forall i | 0 <= i < Total(d) ensures Block(p, d, i) !in h.live && PageOf(Block(p, d, i)) == p {
      PageUnused(h, p, d, i);
      BlockInPage(p, d, i);
    }
    NewSorted(g, p, d);
    OtherSlots(h, g, p, -1, p);
    RefillListed(h, g, p, d);
  }

  lemma {:induction false} PushedLength(list: seq<nat>, p: nat, d: nat, n: nat)
    requires d < DESCS
    ensures |PushBlocks(list, p, d, n)| == |list| + n
    decreases n
  {
    hide Block;
    if n > 0 {
      PushedLength(list, p, d, n - 1);
    }
  }

  lemma NewSorted(g: Heap, p: nat, d: nat)
    requires |g.free| == DESCS && d < DESCS && CountFree(g.free[d], p, d, Total(d)) == Total(d)
    requires forall i | 0 <= i < Total(d) :: Block(p, d, i) in g.free[d] && Block(p, d, i) !in g.live
    ensures Sorted(g, p, d, Total(d), p)
  {
  }

  lemma RefillListed(h: Heap, g: Heap, p: nat, d: nat)
    requires Listed(h) && |g.free| == DESCS && d < DESCS && p !in h.arenas
    requires g.arenas == h.arenas[p := Small(d, Total(d))]
    requires Distinct(g.free[d]) && forall x | x in g.free[d] :: PageOf(x) == p && BlockOf(p, d, x)
    requires forall e | 0 <= e < DESCS && e != d :: g.free[e] == h.free[e]
    ensures Listed(g)
  {
    hide BlockOf; hide PageOf; hide Distinct;
  }

  /** An arena more does not concern what is handed out. */
  lemma StaysServed(h: Heap, g: Heap, p: nat, a: Arena, x: nat)
    requires x in h.live && Served(h, x) && p !in h.arenas && g.arenas == h.arenas[p := a]
    requires x in g.live && g.live[x] == h.live[x]
    ensures Served(g, x)
  {
    hide BlockOf; hide PageOf;
  }

  lemma NewHanded(h: Heap, g: Heap, p: nat, a: Arena)
    requires Handed(h) && p !in h.arenas && a.Small? && g.arenas == h.arenas[p := a] && g.live == h.live
    ensures Handed(g)
  {
    hide Served;
    forall x | x in g.live ensures Served(g, x) {
      StaysServed(h, g, p, a, x);
    }
  }

  lemma RefillHanded(h: Heap, base: seq<bool>, d: nat)
    requires |h.free| == DESCS && Inv(h, base) && !h.halted && d < DESCS && FirstRun(h.bits, 1, 0).At?
    ensures Handed(Refill(h, d)) && Mapped(Refill(h, d), base)
  {
    hide Mapped; hide Handed; hide Slots; hide Listed; hide PushBlocks; hide FirstRun; hide Total;
    var a := Small(d, Total(d));
    NewArenaMapped(h, base, a, 1);
    SameMapped(NewArena(h, a, 1), Refill(h, d), base);
    NewHanded(h, Refill(h, d), Room(h, 1), a);
  }

  lemma HeadOwned(h: Heap, d: nat)
    requires Listed(h) && d < DESCS && h.free[d] != []
    ensures Owned(h, d, h.free[d][0]) && h.free[d][0] !in h.free[d][1..]
  {
    var list := h.free[d];
    assert Distinct(list);
    assert forall j | 0 < j < |list| :: list[0] != list[j];
  }

  /** Taking the first block of a list of distinct blocks. */
  lemma PopBlocks(list: seq<nat>, live: map<nat, nat>, p: nat, d: nat, i: nat, size: nat)
    requires d < DESCS && i < Total(d) && list != [] && list[0] == Block(p, d, i) && list[0] !in list[1..]
    requires forall j | 0 <= j < Total(d) :: Block(p, d, j) in list <==> Block(p, d, j) !in live
    ensures CountFree(list, p, d, Total(d)) == CountFree(list[1..], p, d, Total(d)) + 1
    ensures forall j | 0 <= j < Total(d) :: Block(p, d, j) in list[1..] <==> Block(p, d, j) !in live[list[0] := size]
  {
    hide Block; hide Total; hide CountFree;
    OtherBlocks(p, d, i);
    assert list == [list[0]] + list[1..];
    CountOneMore(list[1..], list, p, d, i, Total(d));
  }

  lemma PopSorted(h: Heap, d: nat, size: nat, spare: int)
    requires |h.free| == DESCS && Listed(h) && Slots(h, spare) && d < DESCS && h.free[d] != []
    requires spare == -1 || spare == PageOf(h.free[d][0])
    ensures var g := Pop(h, d, size); var p := PageOf(h.free[d][0]);
            p in h.arenas && h.arenas[p].Small? && h.arenas[p].desc == d && h.arenas[p].count > 0
            && g.arenas == h.arenas[p := Small(d, h.arenas[p].count - 1)] && Sorted(g, p, d, h.arenas[p].count - 1, -1)
  {
    hide Block; hide Distinct; hide PageOf; hide Total; hide CountFree; hide Listed;
    HeadOwned(h, d);
    var a := h.free[d][0];
    var p := PageOf(a);
    var i: nat :| i < Total(d) && a == Block(p, d, i);
    assert Sorted(h, p, d, h.arenas[p].count, spare);
    PopBlocks(h.free[d], h.live, p, d, i, size);
  }

  lemma TailListed(h: Heap, d: nat, size: nat)
    requires Listed(h) && d < DESCS && h.free[d] != []
    requires var p := PageOf(h.free[d][0]);
             p in h.arenas && h.arenas[p].Small? && h.arenas[p].count > 0
               && Pop(h, d, size).arenas == h.arenas[p := Small(h.arenas[p].desc, h.arenas[p].count - 1)]
    ensures Listed(Pop(h, d, size))
  {
    hide BlockOf; hide PageOf;
    var g := Pop(h, d, size);
    forall e, i | 0 <= e < DESCS && 0 <= i < |g.free[e]| ensures Owned(g, e, g.free[e][i]) {
      assert Owned(h, e, h.free[e][if e == d then i + 1 else i]);
    }
    assert forall e | 0 <= e < DESCS && e != d :: g.free[e] == h.free[e];
    assert Distinct(h.free[d]);
  }

  lemma PopInv(h: Heap, base: seq<bool>, d: nat, size: nat, spare: int)
    requires Mapped(h, base) && Listed(h) && Slots(h, spare) && Handed(h) && d < DESCS && h.free[d] != []
    requires spare == -1 || spare == PageOf(h.free[d][0])
    requires size <= BlockSize(d)
    ensures Inv(Pop(h, d, size), base) && h.free[d][0] !in h.live
  {
    hide Mapped; hide Handed; hide Sorted; hide Slots; hide BlockSize; hide Total; hide Covered; hide PageOf;
    hide BlockOf;
    var g, p := Pop(h, d, size), PageOf(h.free[d][0]);
    PopSorted(h, d, size, spare);
    HeadOwned(h, d);
    TailListed(h, d, size);
    forall x | PageOf(x) != p ensures x in h.free[d] <==> x in g.free[d] {
      assert h.free[d] == [h.free[d][0]] + g.free[d];
    }
    OtherSlots(h, g, p, spare, -1);
    SameMapped(h, g, base);
    PopHanded(h, d, size, spare);
  }

  lemma PopHanded(h: Heap, d: nat, size: nat, spare: int)
    requires Listed(h) && Slots(h, spare) && Handed(h) && d < DESCS && h.free[d] != [] && size <= BlockSize(d)
    requires var p := PageOf(h.free[d][0]);
             p in h.arenas && h.arenas[p].Small? && h.arenas[p].desc == d && h.arenas[p].count > 0
             && Pop(h, d, size).arenas == h.arenas[p := Small(d, h.arenas[p].count - 1)]
    ensures Handed(Pop(h, d, size)) && h.free[d][0] !in h.live
  {
    hide BlockSize; hide Total; hide PageOf; hide Block;
    var g, b := Pop(h, d, size), h.free[d][0];
    HeadOwned(h, d);
    FreeNotLive(h, d, b, spare);
    forall a | a in g.live ensures Served(g, a) {
      if a != b {
        assert Served(h, a);
      }
    }
  }

  lemma FreeNotLive(h: Heap, d: nat, b: nat, spare: int)
    requires Listed(h) && Slots(h, spare) && d < DESCS && b in h.free[d] && Owned(h, d, b)
    ensures b !in h.live
  {
    hide Block;
    var p := PageOf(b);
    var i :| 0 <= i < Total(d) && b == Block(p, d, i);
    assert Sorted(h, p, d, h.arenas[p].count, spare);
  }

  lemma LargeInv(h: Heap, base: seq<bool>, size: nat)
    requires |h.free| == DESCS && Inv(h, base) && PagesFor(size) > 0 && FirstRun(h.bits, PagesFor(size), 0).At?
    requires size + HEADER <= PagesFor(size) * PAGE
    ensures var n := PagesFor(size); var g := NewArena(h, Large(n), n); var a := Room(h, n) * PAGE + HEADER;
            Inv(g.(live := g.live[a := size]), base) && a !in h.live
  {
    hide Mapped; hide Sorted; hide Listed; hide Handed; hide PagesFor; hide Block; hide BlockOf; hide Slots;
    var n := PagesFor(size);
    NewArenaMapped(h, base, Large(n), n);
    var p := Room(h, n);
    var a := p * PAGE + HEADER;
    var g := NewArena(h, Large(n), n);
    var r := g.(live := g.live[a := size]);
    assert PageOf(a) == p;
    SameMapped(g, r, base);
    LargeListed(h, r, p, n);
    OtherSlots(h, r, p, -1, -1);
    LargeHanded(h, r, p, n, size);
  }

  lemma LargeListed(h: Heap, r: Heap, p: nat, n: nat)
    requires Listed(h) && p !in h.arenas && r.arenas == h.arenas[p := Large(n)] && r.free == h.free
    ensures Listed(r)
  {
    hide BlockOf; hide PageOf; hide Distinct;
    forall d, i | 0 <= d < DESCS && 0 <= i < |r.free[d]| ensures Owned(r, d, r.free[d][i]) {
      assert Owned(h, d, h.free[d][i]);
    }
  }

  lemma LargeAt(p: nat)
    ensures PageOf(p * PAGE + HEADER) == p
  {
  }

  lemma LargeServed(r: Heap, p: nat, n: nat)
    requires p in r.arenas && r.arenas[p] == Large(n) && p * PAGE + HEADER in r.live
    requires r.live[p * PAGE + HEADER] + HEADER <= n * PAGE
    ensures Served(r, p * PAGE + HEADER)
  {
    LargeAt(p);
  }

  lemma NotServed(h: Heap, p: nat)
    requires Handed(h) && p !in h.arenas
    ensures p * PAGE + HEADER !in h.live
  {
    hide Served;
    LargeAt(p);
    if p * PAGE + HEADER in h.live {
      ServedPage(h, p * PAGE + HEADER);
    }
  }

  lemma LargeHanded(h: Heap, r: Heap, p: nat, n: nat, size: nat)
    requires Handed(h) && p !in h.arenas && r.arenas == h.arenas[p := Large(n)]
    requires r.live == h.live[p * PAGE + HEADER := size] && size + HEADER <= n * PAGE
    ensures Handed(r) && p * PAGE + HEADER !in h.live
  {
    hide Served;
    var a := p * PAGE + HEADER;
    NotServed(h, p);
    LargeServed(r, p, n);
    forall x | x in r.live ensures Served(r, x) {
      if x != a {
        StaysServed(h, r, p, Large(n), x);
      }
    }
    forall q | q in r.arenas && r.arenas[q].Large? ensures q * PAGE + HEADER in r.live {
    }
  }

  /** The page count of a large request: the fewest pages that hold the request and 16 bytes, exactly when rounding up
      does not overflow 32 bits; the sizes just beyond that yield no page at all, which is a panic, and the last ones
      a single page. */
  lemma PagesExact(size: nat)
    requires 1024 < size < TWO32
    ensures PagesFor(size) == 0 <==> TWO32 - HEADER - (PAGE - 1) <= size <= TWO32 - HEADER
    ensures PagesFor(size) > 0 ==> (size + HEADER <= PagesFor(size) * PAGE <==> size < TWO32 - HEADER + 1)
    ensures size > TWO32 - HEADER ==> PagesFor(size) == 1
    ensures size < 0xffff_eff1 <==>
            PagesFor(size) > 0 && (PagesFor(size) - 1) * 4096 < size + 16 <= PagesFor(size) * 4096
  {
  }

  /** kmalloc keeps the invariant and hands out an address that was not in use, with room for what was asked; it
      fails only by panic. */
  lemma KmallocInv(h: Heap, base: seq<bool>, size: nat)
    requires |h.free| == DESCS && Inv(h, base) && size <= TWO32 - HEADER
    ensures var (g, r) := Kmalloc(h, size);
            Inv(g, base)
            && (r.Addr? ==> r.addr !in h.live && g.live == h.live[r.addr := size])
            && (r.Panic? <==> g.halted)
  {
    hide Inv; hide PagesFor; hide Refill; hide Pop; hide DescFor; hide FirstRun; hide BlockSize;
    if !h.halted {
      if size > 1024 {
        PagesExact(size);
        LargeKmalloc(h, base, size);
      } else {
        SmallKmalloc(h, base, size, DescFor(size, 0));
      }
    }
  }

  /** No `n` consecutive pages of the map are free. */
  ghost predicate NoRoom(bits: seq<bool>, n: nat) {
    forall s: nat :: !ClearRun(bits, s, n)
  }

  /** When kmalloc panics: a large request that needs no page in 32-bit arithmetic or for which no run of pages is
      free; a small one that finds neither a free block of its size nor a free page. */
  lemma KmallocPanics(h: Heap, size: nat)
    requires |h.free| == DESCS && !h.halted && size < TWO32
    ensures Kmalloc(h, size).1.Panic? <==>
            if size > 1024 then PagesFor(size) == 0 || NoRoom(h.bits, PagesFor(size))
            else h.free[DescFor(size, 0)] == [] && NoRoom(h.bits, 1)
  {
    hide PagesFor; hide Total; hide PushBlocks; hide DescFor; hide FirstRun; hide ClearRun; hide SetRange;
    hide BlockSize;
    if size > 1024 {
      RoomExact(h.bits, PagesFor(size));
    } else {
      var d := DescFor(size, 0);
      RoomExact(h.bits, 1);
      if FirstRun(h.bits, 1, 0).At? {
        PushedLength(h.free[d], Room(h, 1), d, Total(d));
      }
    }
  }

  lemma RoomExact(bits: seq<bool>, n: nat)
    ensures FirstRun(bits, n, 0).NotFound? <==> NoRoom(bits, n)
  {
    hide FirstRun; hide ClearRun;
  }

  lemma HaltedInv(h: Heap, base: seq<bool>)
    requires Inv(h, base)
    ensures Inv(h.(halted := true), base)
  {
    hide Sorted; hide Owned; hide Covered; hide Served;
    var g := h.(halted := true);
    SameMapped(h, g, base);
    forall p | p in g.arenas && g.arenas[p].Small? ensures Sorted(g, p, g.arenas[p].desc, g.arenas[p].count, -1) {
      SortedHalts(h, g, p);
    }
    forall d, i | 0 <= d < DESCS && 0 <= i < |g.free[d]| ensures Owned(g, d, g.free[d][i]) {
      OwnedHalts(h, g, d, h.free[d][i]);
    }
    forall a | a in g.live ensures Served(g, a) {
      ServedHalts(h, g, a);
    }
  }

  lemma SortedHalts(h: Heap, g: Heap, p: nat)
    requires |h.free| == DESCS && Slots(h, -1) && g == h.(halted := true) && p in h.arenas && h.arenas[p].Small?
    ensures Sorted(g, p, g.arenas[p].desc, g.arenas[p].count, -1)
  {
    assert Sorted(h, p, h.arenas[p].desc, h.arenas[p].count, -1);
  }

  lemma OwnedHalts(h: Heap, g: Heap, d: nat, a: nat)
    requires g == h.(halted := true) && d < DESCS && Owned(h, d, a)
    ensures Owned(g, d, a)
  {
  }

  lemma ServedHalts(h: Heap, g: Heap, a: nat)
    requires Handed(h) && g == h.(halted := true) && a in h.live
    ensures Served(g, a)
  {
    assert Served(h, a);
  }

  lemma LargeKmalloc(h: Heap, base: seq<bool>, size: nat)
    requires |h.free| == DESCS && Inv(h, base) && !h.halted && size > 1024
    requires PagesFor(size) > 0 ==> size + HEADER <= PagesFor(size) * PAGE
    ensures var (g, r) := Kmalloc(h, size);
            Inv(g, base) && (r.Addr? ==> r.addr !in h.live && g.live == h.live[r.addr := size])
              && (r.Panic? <==> g.halted)
  {
    hide Inv; hide PagesFor; hide FirstRun;
    HaltedInv(h, base);
    var n := PagesFor(size);
    if n > 0 && FirstRun(h.bits, n, 0).At? {
      LargeInv(h, base, size);
    }
  }

  lemma SmallKmalloc(h: Heap, base: seq<bool>, size: nat, d: nat)
    requires |h.free| == DESCS && Inv(h, base) && !h.halted && size <= 1024 && d == DescFor(size, 0)
    ensures var (g, r) := Kmalloc(h, size);
            Inv(g, base) && (r.Addr? ==> r.addr !in h.live && g.live == h.live[r.addr := size])
              && (r.Panic? <==> g.halted)
  {
    hide Mapped; hide Listed; hide Slots; hide Handed; hide FirstRun; hide BlockSize; hide PushBlocks; hide DescFor;
    if h.free[d] != [] {
      PopInv(h, base, d, size, -1);
    } else if FirstRun(h.bits, 1, 0).At? {
      var g := Refill(h, d);
      RefillSlots(h, base, d);
      RefillHanded(h, base, d);
      PopInv(g, base, d, size, Room(h, 1));
    } else {
      HaltedInv(h, base);
    }
  }

  /** The other sizes are served with one page, too small for them. */
  lemma KmallocWraps(h: Heap, base: seq<bool>, size: nat)
    requires |h.free| == DESCS && TWO32 - HEADER < size < TWO32 && !h.halted && FirstRun(h.bits, 1, 0).At?
    ensures var p := Room(h, 1); var g := NewArena(h, Large(1), 1); var a := p * PAGE + HEADER;
            Kmalloc(h, size) == (g.(live := g.live[a := size]), Addr(a)) && !Inv(Kmalloc(h, size).0, base)
  {
    hide Inv; hide Served; hide FirstRun; hide PagesFor; hide Room;
    PagesExact(size);
    RoomForm(h);
    TooSmall(Kmalloc(h, size).0, base, Room(h, 1));
  }

  lemma TooSmall(g: Heap, base: seq<bool>, p: nat)
    requires p in g.arenas && g.arenas[p] == Large(1)
    requires p * PAGE + HEADER in g.live && g.live[p * PAGE + HEADER] > TWO32 - HEADER
    ensures !Inv(g, base)
  {
    hide Mapped; hide Listed; hide Slots;
    assert PageOf(p * PAGE + HEADER) == p;
    assert !Served(g, p * PAGE + HEADER);
  }

  lemma RoomForm(h: Heap)
    requires FirstRun(h.bits, 1, 0).At?
    ensures NewArena(h, Large(1), 1).arenas == h.arenas[Room(h, 1) := Large(1)]
  {
  }

  // ---- release keeps the invariant ----

  lemma PushSorted(h: Heap, a: nat, d: nat, c: nat)
    requires Listed(h) && Slots(h, -1) && Handed(h) && a in h.live && PageOf(a) in h.arenas
    requires h.arenas[PageOf(a)] == Small(d, c)
    ensures d < DESCS && BlockOf(PageOf(a), d, a) && a !in h.free[d] && c < Total(d)
    ensures Sorted(Push(h, a, d, c), PageOf(a), d, c + 1, PageOf(a))
  {
    hide Block; hide Distinct;
    var p := PageOf(a);
    assert Served(h, a) && Sorted(h, p, d, c, -1);
    var g := Push(h, a, d, c);
    var i: nat :| i < Total(d) && a == Block(p, d, i);
    OtherBlocks(p, d, i);
    CountOneMore(h.free[d], g.free[d], p, d, i, Total(d));
  }

  lemma PushListed(h: Heap, a: nat, d: nat, c: nat)
    requires Listed(h) && d < DESCS && PageOf(a) in h.arenas && h.arenas[PageOf(a)] == Small(d, c)
    requires BlockOf(PageOf(a), d, a) && a !in h.free[d]
    ensures Listed(Push(h, a, d, c))
  {
    hide BlockOf; hide PageOf;
    var g := Push(h, a, d, c);
    forall e, i | 0 <= e < DESCS && 0 <= i < |g.free[e]| ensures Owned(g, e, g.free[e][i]) {
      if e != d {
        assert Owned(h, e, h.free[e][i]);
      } else if i > 0 {
        assert Owned(h, e, h.free[e][i - 1]);
      }
    }
    assert forall e | 0 <= e < DESCS && e != d :: g.free[e] == h.free[e];
    assert Distinct(h.free[d]);
  }

  lemma PushServed(h: Heap, g: Heap, p: nat, d: nat, c: nat, x: nat)
    requires x in h.live && Served(h, x) && p in h.arenas && h.arenas[p] == Small(d, c)
    requires g.arenas == h.arenas[p := Small(d, c + 1)] && x in g.live && g.live[x] == h.live[x]
    ensures Served(g, x)
  {
    hide BlockOf;
  }

  lemma PushHanded(h: Heap, a: nat, d: nat, c: nat)
    requires |h.free| == DESCS && Handed(h) && d < DESCS && PageOf(a) in h.arenas && h.arenas[PageOf(a)] == Small(d, c)
    ensures Handed(Push(h, a, d, c))
  {
    hide BlockOf; hide Served;
    var g := Push(h, a, d, c);
    forall x | x in g.live ensures Served(g, x) {
      PushServed(h, g, PageOf(a), d, c, x);
    }
    forall p | p in g.arenas && g.arenas[p].Large? ensures p * PAGE + HEADER in g.live {
      assert PageOf(p * PAGE + HEADER) == p;
    }
  }

  lemma PushInv(h: Heap, base: seq<bool>, a: nat, d: nat, c: nat)
    requires |h.free| == DESCS && Inv(h, base) && a in h.live && PageOf(a) in h.arenas
    requires h.arenas[PageOf(a)] == Small(d, c)
    ensures d < DESCS && c < Total(d)
    ensures var g := Push(h, a, d, c);
            Mapped(g, base) && Listed(g) && Slots(g, if c + 1 < Total(d) then -1 else PageOf(a)) && Handed(g)
  {
    hide Mapped; hide Listed; hide Slots; hide Handed; hide Sorted; hide BlockOf; hide Total;
    var p := PageOf(a);
    PushSorted(h, a, d, c);
    var g := Push(h, a, d, c);
    PushListed(h, a, d, c);
    PushHanded(h, a, d, c);
    SameMapped(h, g, base);
    if c + 1 < Total(d) {
      SortedLess(g, p, d, c + 1, p);
    }
    OtherSlots(h, g, p, -1, if c + 1 < Total(d) then -1 else p);
  }

  lemma SortedLess(g: Heap, p: nat, d: nat, c: nat, spare: int)
    requires |g.free| == DESCS && d < DESCS && Sorted(g, p, d, c, spare) && c < Total(d)
    ensures Sorted(g, p, d, c, -1)
  {
  }

  /** The list without the blocks of an arena that is about to go. */
  lemma DroppedPage(list: seq<nat>, p: nat, d: nat)
    requires d < DESCS && Distinct(list) && forall x | x in list && PageOf(x) == p :: BlockOf(p, d, x)
    ensures var r := DropBlocks(list, p, d, Total(d));
            Distinct(r) && forall x :: x in r <==> x in list && PageOf(x) != p
  {
    hide Block; hide Distinct; hide PageOf;
    Dropped(list, p, d, Total(d));
    forall i | 0 <= i < Total(d) ensures PageOf(Block(p, d, i)) == p {
      BlockInPage(p, d, i);
    }
  }

  function Purged(h: Heap, p: nat, d: nat): Heap
    requires |h.free| == DESCS && d < DESCS
  {
    DropArena(h.(free := h.free[d := DropBlocks(h.free[d], p, d, Total(d))]), p, 1)
  }

  lemma PurgedList(h: Heap, p: nat, d: nat)
    requires Listed(h) && d < DESCS && p in h.arenas && h.arenas[p].Small? && h.arenas[p].desc == d
    ensures var r := DropBlocks(h.free[d], p, d, Total(d));
            Distinct(r) && forall x :: x in r <==> x in h.free[d] && PageOf(x) != p
  {
    hide BlockOf; hide PageOf;
    assert Distinct(h.free[d]);
    forall x | x in h.free[d] && PageOf(x) == p ensures BlockOf(p, d, x) {
      var i :| 0 <= i < |h.free[d]| && h.free[d][i] == x;
      assert Owned(h, d, h.free[d][i]);
    }
    DroppedPage(h.free[d], p, d);
  }

  lemma NoneHanded(h: Heap, p: nat, d: nat, a: nat)
    requires |h.free| == DESCS && Slots(h, p) && Handed(h) && d < DESCS && p in h.arenas
    requires h.arenas[p] == Small(d, Total(d)) && a in h.live
    ensures PageOf(a) != p
  {
    hide Block; hide PageOf;
    if PageOf(a) == p {
      assert Served(h, a) && Sorted(h, p, d, Total(d), p);
      CountAll(h.free[d], p, d, Total(d));
    }
  }

  lemma PurgeInv(h: Heap, base: seq<bool>, p: nat, d: nat)
    requires Mapped(h, base) && Listed(h) && Slots(h, p) && Handed(h) && d < DESCS
    requires p in h.arenas && h.arenas[p] == Small(d, Total(d))
    ensures Inv(Purged(h, p, d), base) && Purged(h, p, d).live == h.live
  {
    hide Mapped; hide Slots; hide Handed; hide Sorted; hide BlockOf; hide PageOf; hide Distinct; hide Total;
    hide DropBlocks; hide Covered;
    var m := h.(free := h.free[d := DropBlocks(h.free[d], p, d, Total(d))]);
    var g := Purged(h, p, d);
    SameMapped(h, m, base);
    DropArenaMapped(m, base, p, 1);
    PurgedList(h, p, d);
    PurgedRest(h, p, d);
    OtherSlots(h, g, p, p, -1);
    PurgedHanded(h, g, p, d);
  }

  lemma PurgedRest(h: Heap, p: nat, d: nat)
    requires Listed(h) && d < DESCS && p in h.arenas && h.arenas[p].Small? && h.arenas[p].desc == d
    requires Purged(h, p, d).arenas == h.arenas - {p}
    ensures Listed(Purged(h, p, d))
    ensures Purged(h, p, d).free == h.free[d := DropBlocks(h.free[d], p, d, Total(d))]
  {
    hide BlockOf; hide PageOf; hide DropBlocks;
    PurgedList(h, p, d);
    var g := Purged(h, p, d);
    forall e, i | 0 <= e < DESCS && 0 <= i < |g.free[e]| ensures Owned(g, e, g.free[e][i]) {
      var x := g.free[e][i];
      assert x in h.free[e];
      var j :| 0 <= j < |h.free[e]| && h.free[e][j] == x;
      assert Owned(h, e, h.free[e][j]);
    }
    assert forall e | 0 <= e < DESCS && e != d :: g.free[e] == h.free[e];
  }

  lemma PurgedHanded(h: Heap, g: Heap, p: nat, d: nat)
    requires |h.free| == DESCS && Slots(h, p) && Handed(h) && d < DESCS && p in h.arenas
    requires h.arenas[p] == Small(d, Total(d))
    requires g.arenas == h.arenas - {p} && g.live == h.live
    ensures Handed(g)
  {
    hide BlockOf; hide Slots; hide Total;
    forall a | a in g.live ensures Served(g, a) {
      assert Served(h, a);
      NoneHanded(h, p, d, a);
    }
  }

  lemma FreeLargeInv(h: Heap, base: seq<bool>, a: nat, n: nat)
    requires Inv(h, base) && a in h.live && PageOf(a) in h.arenas && h.arenas[PageOf(a)] == Large(n)
    ensures Inv(DropArena(h.(live := h.live - {a}), PageOf(a), n), base)
  {
    hide Mapped; hide Slots; hide Handed; hide Sorted; hide BlockOf; hide Covered; hide PageOf;
    var p := PageOf(a);
    var m := h.(live := h.live - {a});
    var g := DropArena(m, p, n);
    SameMapped(h, m, base);
    DropArenaMapped(m, base, p, n);
    forall e, i | 0 <= e < DESCS && 0 <= i < |g.free[e]| ensures Owned(g, e, g.free[e][i]) {
      assert Owned(h, e, h.free[e][i]);
    }
    OtherSlots(h, g, p, -1, -1);
    LargeFreed(h, g, a, n);
  }

  lemma ServedBase(h: Heap, a: nat, n: nat)
    requires a in h.live && Served(h, a) && h.arenas[PageOf(a)] == Large(n)
    ensures a == PageOf(a) * PAGE + HEADER
  {
    hide BlockOf; hide PageOf;
  }

  lemma StillServed(h: Heap, g: Heap, a: nat, n: nat, x: nat)
    requires a in h.live && Served(h, a) && PageOf(a) in h.arenas && h.arenas[PageOf(a)] == Large(n)
    requires g.arenas == h.arenas - {PageOf(a)} && g.live == h.live - {a} && x in g.live && Served(h, x)
    ensures Served(g, x)
  {
    hide BlockOf; hide PageOf;
  }

  lemma LargeFreed(h: Heap, g: Heap, a: nat, n: nat)
    requires Handed(h) && a in h.live && PageOf(a) in h.arenas && h.arenas[PageOf(a)] == Large(n)
    requires g.arenas == h.arenas - {PageOf(a)} && g.live == h.live - {a}
    ensures Handed(g)
  {
    hide BlockOf; hide Served;
    var p := PageOf(a);
    ServedBase(h, a, n);
    forall x | x in g.live ensures Served(g, x) {
      assert Served(h, x);
      StillServed(h, g, a, n, x);
    }
    forall q | q in g.arenas && g.arenas[q].Large? ensures q * PAGE + HEADER in g.live {
      assert PageOf(q * PAGE + HEADER) == q;
    }
  }

  lemma LivePage(h: Heap, base: seq<bool>, a: nat)
    requires Inv(h, base) && a in h.live
    ensures |h.free| == DESCS && PageOf(a) in h.arenas
    ensures (h.arenas[PageOf(a)].Small? ==> h.arenas[PageOf(a)].desc < DESCS)
  {
    hide Mapped; hide Slots;
    assert Served(h, a);
  }

  /** kfree of anything that is handed out keeps the invariant and takes just that away. */
  lemma KfreeInv(h: Heap, base: seq<bool>, a: nat)
    requires Inv(h, base) && a in h.live
    ensures |h.free| == DESCS && PageOf(a) in h.arenas
    ensures (h.arenas[PageOf(a)].Small? ==> h.arenas[PageOf(a)].desc < DESCS)
    ensures Inv(Kfree(h, a), base)
    ensures !h.halted ==> Kfree(h, a).live == h.live - {a}
  {
    hide Mapped; hide Listed; hide Slots; hide Handed; hide Total; hide DropBlocks; hide PageOf;
    LivePage(h, base, a);
    if !h.halted {
      match h.arenas[PageOf(a)]
      case Large(n) =>
        FreeLargeInv(h, base, a, n);
      case Small(d, c) =>
        PushInv(h, base, a, d, c);
        if c + 1 >= Total(d) {
          PurgeInv(Push(h, a, d, c), base, PageOf(a), d);
        }
    }
  }

  // ---- what the invariant says about addresses ----

  /** The bytes that belong to a block that is handed out. */
  function Capacity(h: Heap, a: nat): nat
    requires PageOf(a) in h.arenas && (h.arenas[PageOf(a)].Small? ==> h.arenas[PageOf(a)].desc < DESCS)
  {
    match h.arenas[PageOf(a)]
    case Small(d, _) => BlockSize(d)
    case Large(n) => if n * PAGE < HEADER then 0 else n * PAGE - HEADER
  }

  /** A block starts behind its arena's header, ends inside its arena, and is as large as was asked. */
  lemma Inside(h: Heap, base: seq<bool>, a: nat)
    requires Inv(h, base) && a in h.live
    ensures |h.free| == DESCS && PageOf(a) in h.arenas
    ensures (h.arenas[PageOf(a)].Small? ==> h.arenas[PageOf(a)].desc < DESCS)
    ensures var p := PageOf(a);
            h.live[a] <= Capacity(h, a) && p * PAGE + HEADER <= a
              && a + Capacity(h, a) <= (p + Span(h.arenas[p])) * PAGE
  {
    hide Mapped; hide Slots; hide BlockSize; hide Block;
    assert Served(h, a);
    var p := PageOf(a);
    if h.arenas[p].Small? {
      var d := h.arenas[p].desc;
      var i: nat :| i < Total(d) && a == Block(p, d, i);
      BlockInPage(p, d, i);
    }
  }

  lemma ArenasApart(h: Heap, base: seq<bool>, p: nat, q: nat)
    requires Mapped(h, base) && p in h.arenas && q in h.arenas && p != q
    ensures p + Span(h.arenas[p]) <= q || q + Span(h.arenas[q]) <= p
  {
  }

  /** Blocks that are handed out do not overlap. */
  lemma LiveApart(h: Heap, base: seq<bool>, a: nat, b: nat)
    requires Inv(h, base) && a in h.live && b in h.live && a < b
    ensures |h.free| == DESCS && PageOf(a) in h.arenas
    ensures (h.arenas[PageOf(a)].Small? ==> h.arenas[PageOf(a)].desc < DESCS)
    ensures a + Capacity(h, a) <= b
  {
    hide Mapped; hide Slots; hide BlockSize; hide Block; hide Listed; hide Total; hide PageOf;
    Inside(h, base, a);
    Inside(h, base, b);
    var p, q := PageOf(a), PageOf(b);
    if p != q {
      ArenasApart(h, base, p, q);
    } else {
      assert Served(h, a) && Served(h, b);
      if h.arenas[p].Small? {
        SamePage(p, h.arenas[p].desc, a, b);
      }
    }
  }

  lemma SamePage(p: nat, d: nat, a: nat, b: nat)
    requires d < DESCS && BlockOf(p, d, a) && BlockOf(p, d, b) && a < b
    ensures a + BlockSize(d) <= b
  {
    hide BlockSize; hide Block; hide Total;
    var i: nat :| i < Total(d) && a == Block(p, d, i);
    var j: nat :| j < Total(d) && b == Block(p, d, j);
    if i < j {
      BlocksApart(p, d, i, j);
    } else if j < i {
      BlocksApart(p, d, j, i);
    }
  }

  // ---- blocks that are free ----

  /** A free block, which holds its list node, lies in its arena behind the header. */
  lemma FreeInside(h: Heap, d: nat, x: nat)
    requires Listed(h) && d < DESCS && x in h.free[d]
    ensures Owned(h, d, x)
    ensures PageOf(x) * PAGE + HEADER <= x && x + BlockSize(d) <= (PageOf(x) + 1) * PAGE
  {
    hide BlockSize; hide Block; hide PageOf; hide Total;
    var j :| 0 <= j < |h.free[d]| && h.free[d][j] == x;
    assert Owned(h, d, h.free[d][j]);
    var i: nat :| i < Total(d) && x == Block(PageOf(x), d, i);
    BlockInPage(PageOf(x), d, i);
  }

  lemma OwnedSpan(h: Heap, d: nat, x: nat)
    requires d < DESCS && Owned(h, d, x)
    ensures PageOf(x) in h.arenas && Span(h.arenas[PageOf(x)]) == 1
  {
    hide PageOf; hide BlockOf;
  }

  lemma SameArena(h: Heap, d: nat, x: nat, a: nat)
    requires d < DESCS && Owned(h, d, x) && a in h.live && Served(h, a) && PageOf(a) == PageOf(x) && a != x
    ensures x + BlockSize(d) <= a || a + Capacity(h, a) <= x
  {
    hide BlockSize; hide PageOf; hide BlockOf; hide Total;
    if a < x {
      SamePage(PageOf(a), d, a, x);
    } else {
      SamePage(PageOf(a), d, x, a);
    }
  }

  lemma LiveServed(h: Heap, base: seq<bool>, d: nat, x: nat, a: nat)
    requires Inv(h, base) && d < DESCS && |h.free| == DESCS && x in h.free[d] && Owned(h, d, x) && a in h.live
    ensures Served(h, a) && a != x && Mapped(h, base)
  {
    hide Mapped; hide Listed; hide Slots; hide Owned; hide Served;
    FreeNotLive(h, d, x, -1);
  }

  lemma FreeParts(h: Heap, base: seq<bool>)
    requires Inv(h, base)
    ensures Listed(h) && Mapped(h, base)
  {
    hide Mapped; hide Listed; hide Slots; hide Handed;
  }

  /** A free block overlaps no block that is handed out. */
  lemma FreeApartFromLive(h: Heap, base: seq<bool>, d: nat, x: nat, a: nat)
    requires Inv(h, base) && d < DESCS && |h.free| == DESCS && x in h.free[d] && a in h.live
    ensures PageOf(a) in h.arenas && (h.arenas[PageOf(a)].Small? ==> h.arenas[PageOf(a)].desc < DESCS)
    ensures x + BlockSize(d) <= a || a + Capacity(h, a) <= x
  {
    hide Inv; hide Mapped; hide BlockSize; hide PageOf; hide Owned; hide Served; hide Capacity; hide Span; hide Listed;
    FreeParts(h, base);
    FreeInside(h, d, x);
    LiveServed(h, base, d, x, a);
    Inside(h, base, a);
    OwnedSpan(h, d, x);
    if PageOf(a) == PageOf(x) {
      SameArena(h, d, x, a);
    } else {
      ArenasApart(h, base, PageOf(a), PageOf(x));
      assert h.arenas[PageOf(a)].Small? || h.arenas[PageOf(a)].Large?;
    }
  }

  /** Free blocks do not overlap each other. */
  lemma FreeApart(h: Heap, base: seq<bool>, d: nat, x: nat, e: nat, y: nat)
    requires Inv(h, base) && d < DESCS && e < DESCS && |h.free| == DESCS && x in h.free[d] && y in h.free[e] && x < y
    ensures x + BlockSize(d) <= y
  {
    hide Mapped; hide BlockSize; hide Block; hide Listed; hide Slots; hide Total; hide PageOf; hide BlockOf;
    hide Handed;
    FreeInside(h, d, x);
    FreeInside(h, e, y);
    if PageOf(x) != PageOf(y) {
      ArenasApart(h, base, PageOf(x), PageOf(y));
    } else {
      SamePage(PageOf(x), d, x, y);
    }
  }

  /** A free block overlaps no header. */
  lemma FreeHeadersSafe(h: Heap, base: seq<bool>, d: nat, x: nat, p: nat)
    requires Inv(h, base) && d < DESCS && |h.free| == DESCS && x in h.free[d] && p in h.arenas
    ensures x + BlockSize(d) <= p * PAGE || p * PAGE + HEADER <= x
  {
    hide Mapped; hide BlockSize; hide Block; hide Listed; hide Slots; hide Total; hide PageOf; hide BlockOf;
    hide Handed;
    FreeInside(h, d, x);
    if PageOf(x) != p {
      ArenasApart(h, base, PageOf(x), p);
      SpanPositive(h, base, p);
    }
  }

  /** No block overlaps the header of any arena. */
  lemma HeadersSafe(h: Heap, base: seq<bool>, a: nat, p: nat)
    requires Inv(h, base) && a in h.live && p in h.arenas
    ensures |h.free| == DESCS && PageOf(a) in h.arenas
    ensures (h.arenas[PageOf(a)].Small? ==> h.arenas[PageOf(a)].desc < DESCS)
    ensures a + Capacity(h, a) <= p * PAGE || p * PAGE + HEADER <= a
  {
    hide Mapped; hide Slots; hide Listed; hide Handed; hide PageOf; hide Capacity;
    Inside(h, base, a);
    var q := PageOf(a);
    if p != q {
      ArenasApart(h, base, p, q);
      SpanPositive(h, base, p);
    }
  }

  lemma SpanPositive(h: Heap, base: seq<bool>, p: nat)
    requires Mapped(h, base) && p in h.arenas
    ensures Span(h.arenas[p]) >= 1
  {
  }

  /** Every byte of a block lies in a page that kernel_map marks used and that was free at the start. */
  lemma PagesMarked(h: Heap, base: seq<bool>, a: nat, x: nat)
    requires Inv(h, base) && a in h.live && PageOf(a) in h.arenas
    requires PageOf(a) * PAGE <= x < (PageOf(a) + Span(h.arenas[PageOf(a)])) * PAGE
    ensures BASE <= PageOf(x) < BASE + |h.bits| && |h.bits| == |base| && h.bits[PageOf(x) - BASE]
    ensures !base[PageOf(x) - BASE]
  {
    hide Slots; hide Listed; hide Handed;
    var p := PageOf(a);
    PageOfBetween(x, p, Span(h.arenas[p]));
    assert Holds(h.arenas, p, PageOf(x) - BASE);
    assert Covered(h.arenas, PageOf(x) - BASE);
  }

  lemma PageOfBetween(x: nat, p: nat, n: nat)
    requires p * PAGE <= x < (p + n) * PAGE
    ensures p <= PageOf(x) < p + n
  {
  }

  /** Once everything has been freed, no arena is left, the free lists are empty and the map is bit for bit `base`. */
  lemma Conservation(h: Heap, base: seq<bool>)
    requires Inv(h, base) && h.live == map[]
    ensures h.arenas == map[] && h.bits == base && |h.free| == DESCS && forall d | 0 <= d < DESCS :: h.free[d] == []
  {
    hide BlockOf; hide Block; hide PageOf; hide Total;
    if h.arenas != map[] {
      var p :| p in h.arenas;
      ArenaHasLive(h, p);
    }
    forall d | 0 <= d < DESCS ensures h.free[d] == [] {
      if h.free[d] != [] {
        HeadOwned(h, d);
      }
    }
    assert h.bits == base;
  }

  /** Every arena that exists has a block handed out. */
  lemma ArenaHasLive(h: Heap, p: nat)
    requires |h.free| == DESCS && Slots(h, -1) && Handed(h) && p in h.arenas
    ensures h.live != map[] && exists a :: a in h.live && PageOf(a) == p
  {
    hide Block;
    match h.arenas[p]
    case Large(n) =>
      assert PageOf(p * PAGE + HEADER) == p;
      assert p * PAGE + HEADER in h.live;
    case Small(d, c) =>
      assert Sorted(h, p, d, c, -1);
      CountAll(h.free[d], p, d, Total(d));
      var i: nat :| i < Total(d) && Block(p, d, i) !in h.free[d];
      BlockInPage(p, d, i);
      assert Block(p, d, i) in h.live;
  }

  // ---- runs ----

  datatype Action = Malloc(size: nat) | Free(addr: nat)

  /** Only what is handed out may be freed. */
  ghost function Apply(h: Heap, base: seq<bool>, a: Action): Heap
    requires Inv(h, base)
  {
    match a
    case Malloc(size) => Kmalloc(h, size).0
    case Free(addr) => if addr in h.live then KfreeInv(h, base, addr); Kfree(h, addr) else h
  }

  ghost function Run(h: Heap, base: seq<bool>, run: seq<Action>): (r: Heap)
    requires Inv(h, base) && forall a | a in run :: a.Malloc? ==> a.size <= TWO32 - HEADER
    ensures Inv(r, base)
    decreases |run|
  {
    if run == [] then h
    else
      var g := Run(h, base, run[..|run| - 1]);
      ApplyInv(g, base, run[|run| - 1]);
      Apply(g, base, run[|run| - 1])
  }

  lemma ApplyInv(h: Heap, base: seq<bool>, a: Action)
    requires Inv(h, base) && (a.Malloc? ==> a.size <= TWO32 - HEADER)
    ensures Inv(Apply(h, base, a), base)
  {
    hide Mapped; hide Slots; hide Handed; hide Kmalloc; hide Kfree;
    match a
    case Malloc(size) =>
      KmallocInv(h, base, size);
    case Free(addr) =>
      if addr in h.live {
        KfreeInv(h, base, addr);
      }
  }

  /** arena_init over the map that memory_map_init has left. */
  function Start(base: seq<bool>): Heap {
    Heap(base, map[], seq(DESCS, i => []), map[], false)
  }

  lemma StartInv(base: seq<bool>)
    ensures Inv(Start(base), base)
  {
  }

  /** Whatever is allocated and freed in whatever order, once everything is freed the heap is as it was. */
  lemma RunConserves(base: seq<bool>, run: seq<Action>)
    requires Inv(Start(base), base) && forall a | a in run :: a.Malloc? ==> a.size <= TWO32 - HEADER
    requires Run(Start(base), base, run).live == map[] && !Run(Start(base), base, run).halted
    ensures Run(Start(base), base, run) == Start(base)
  {
    hide Inv; hide Run;
    Conservation(Run(Start(base), base, run), base);
    assert Run(Start(base), base, run).free == Start(base).free;
  }
}
