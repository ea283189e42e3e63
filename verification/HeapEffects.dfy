/** What kmalloc and kfree (src/kernel/arena.c) do to the page map, the arenas and the free lists, place by place:
    which address is handed out, which pages are taken and given back. */
module HeapEffects {
  import opened Bitmaps
  import opened Lists
  import opened Arena

  /** arena_init: block sizes double from 16 to 1024, and a page holds as many blocks as fit behind its header. */
  lemma Sizes(d: nat)
    requires d < 7
    ensures BlockSize(0) == 16 && BlockSize(6) == 1024 && (d < 6 ==> BlockSize(d + 1) == 2 * BlockSize(d))
    ensures 16 + Total(d) * BlockSize(d) <= 4096 < 16 + (Total(d) + 1) * BlockSize(d)
  {
  }

  /** Class `d` is the smallest for a request of `size` bytes. */
  ghost predicate Class(size: nat, d: nat) {
    d < 7 && size <= BlockSize(d) && (d > 0 ==> BlockSize(d - 1) < size)
  }

  lemma ClassFound(size: nat, d: nat)
    requires Class(size, d)
    ensures size <= 1024 && DescFor(size, 0) == d
  {
    var e := DescFor(size, 0);
    if e < d {
      Increasing(e, d - 1);
    }
  }

  lemma Increasing(e: nat, d: nat)
    requires e <= d < 7
    ensures BlockSize(e) <= BlockSize(d)
  {
  }

  /** Page `s` of the map is the first free one. */
  predicate FirstClear(bits: seq<bool>, s: nat) {
    s < |bits| && !bits[s] && forall j | 0 <= j < s :: bits[j]
  }

  ghost predicate Taken(bits: seq<bool>, r: nat, n: nat) {
    exists j :: r <= j < r + n && j < |bits| && bits[j]
  }

  /** A run of `n` free pages starts at `s`, and at no page before. */
  ghost predicate FirstFit(bits: seq<bool>, n: nat, s: nat) {
    && s + n <= |bits| && (forall j | s <= j < s + n :: !bits[j])
    && forall r | 0 <= r < s :: Taken(bits, r, n)
  }

  /** kmalloc of a small block with one of its size free: the most recently listed is handed out. */
  lemma TakesListed(h: Heap, base: seq<bool>, size: nat, d: nat)
    requires Inv(h, base) && !h.halted && Class(size, d) && h.free[d] != []
    ensures var a := h.free[d][0]; var p := a / 4096;
            && p in h.arenas && h.arenas[p].Small? && h.arenas[p].desc == d && h.arenas[p].count >= 1
            && Kmalloc(h, size) == (Heap(h.bits, h.arenas[p := Small(d, h.arenas[p].count - 1)],
                                         h.free[d := h.free[d][1..]], h.live[a := size], false), Addr(a))
  {
    hide Mapped; hide Slots; hide Handed; hide DescFor; hide Class; hide BlockSize;
    ClassFound(size, d);
    PopSorted(h, d, size, -1);
  }

  lemma FirstClearRun(bits: seq<bool>, s: nat)
    requires FirstClear(bits, s)
    ensures FirstRun(bits, 1, 0) == At(s)
  {
    assert ClearRun(bits, s, 1);
    forall j | 0 <= j < s ensures !ClearRun(bits, j, 1) {
      assert bits[j];
    }
  }

  lemma {:induction false} PushedAt(list: seq<nat>, p: nat, d: nat, n: nat, k: nat)
    requires d < DESCS && k < n
    ensures |PushBlocks(list, p, d, n)| == |list| + n && PushBlocks(list, p, d, n)[k] == Block(p, d, n - 1 - k)
    decreases n
  {
    hide Block;
    PushedLength(list, p, d, n);
    if k > 0 {
      PushedAt(list, p, d, n - 1, k - 1);
    }
  }

  /** The blocks of the new arena in page `256 + s` that stay free: all but the last, the last of them first. */
  ghost predicate Fresh(list: seq<nat>, s: nat, d: nat)
    requires d < 7
  {
    |list| == Total(d) - 1
    && forall k | 0 <= k < |list| :: list[k] == (256 + s) * 4096 + 16 + (Total(d) - 2 - k) * BlockSize(d)
  }

  /** With none free, the first free page becomes an arena and its last block is handed out. */
  lemma TakesPage(h: Heap, base: seq<bool>, size: nat, d: nat, s: nat)
    requires Inv(h, base) && !h.halted && Class(size, d) && h.free[d] == [] && FirstClear(h.bits, s)
    ensures var a := (256 + s) * 4096 + 16 + (Total(d) - 1) * BlockSize(d);
            var (g, r) := Kmalloc(h, size);
            && r == Addr(a) && !g.halted && g.bits == h.bits[s := true] && g.live == h.live[a := size]
            && g.arenas == h.arenas[256 + s := Small(d, Total(d) - 1)] && |g.free| == |h.free| == 7
            && Fresh(g.free[d], s, d) && forall e | 0 <= e < 7 && e != d :: g.free[e] == h.free[e]
  {
    hide Mapped; hide Slots; hide Handed; hide DescFor; hide Class; hide BlockSize; hide Total; hide FirstRun;
    hide SetRange;
    ClassFound(size, d);
    FirstClearRun(h.bits, s);
    var p, n := 256 + s, Total(d);
    var list := PushBlocks([], p, d, n);
    assert h.bits[s := true] == SetRange(h.bits, s, 1, true);
    forall k | 0 <= k < n ensures |list| == n && list[k] == Block(p, d, n - 1 - k) {
      PushedAt([], p, d, n, k);
    }
    BlockInPage(p, d, n - 1);
  }

  lemma FirstFitRun(bits: seq<bool>, n: nat, s: nat)
    requires n > 0 && FirstFit(bits, n, s)
    ensures FirstRun(bits, n, 0) == At(s)
  {
    assert ClearRun(bits, s, n);
    forall r | 0 <= r < s ensures !ClearRun(bits, r, n) {
      assert Taken(bits, r, n);
    }
  }

  /** kmalloc of more than 1024 bytes: the first run of pages that is long enough, used from behind the header. */
  lemma TakesRun(h: Heap, size: nat, n: nat, s: nat)
    requires |h.free| == 7 && !h.halted && 1024 < size < 0xffff_eff1 && FirstFit(h.bits, n, s)
    requires n > 0 && (n - 1) * 4096 < size + 16 <= n * 4096
    ensures var a := (256 + s) * 4096 + 16;
            var (g, r) := Kmalloc(h, size);
            && r == Addr(a) && !g.halted && g.free == h.free && g.live == h.live[a := size]
            && g.arenas == h.arenas[256 + s := Large(n)] && |g.bits| == |h.bits|
            && forall k | 0 <= k < |h.bits| :: g.bits[k] == (h.bits[k] || s <= k < s + n)
  {
    hide FirstRun; hide PagesFor; hide FirstFit;
    PagesExact(size);
    SameCount(PagesFor(size), n, size + 16);
    FirstFitRun(h.bits, n, s);
    FitClear(h.bits, n, s);
  }

  lemma SameCount(m: nat, n: nat, x: nat)
    requires m > 0 && n > 0 && (m - 1) * 4096 < x <= m * 4096 && (n - 1) * 4096 < x <= n * 4096
    ensures m == n
  {
  }

  lemma FitClear(bits: seq<bool>, n: nat, s: nat)
    requires FirstFit(bits, n, s)
    ensures s + n <= |bits| && forall j | s <= j < s + n :: !bits[j]
  {
  }

  /** Another block of the arena of `a` is handed out. */
  ghost predicate Shared(h: Heap, a: nat) {
    exists b :: b in h.live && b != a && b / 4096 == a / 4096
  }

  lemma OthersFree(h: Heap, p: nat, d: nat, i: nat)
    requires |h.free| == DESCS && d < DESCS && i < Total(d) && Block(p, d, i) !in h.free[d]
    requires forall j | 0 <= j < Total(d) :: Block(p, d, j) in h.free[d] <==> Block(p, d, j) !in h.live
    ensures CountFree(h.free[d], p, d, Total(d)) + 1 < Total(d) <==>
            exists j :: 0 <= j < Total(d) && Block(p, d, j) in h.live && Block(p, d, j) != Block(p, d, i)
  {
    hide Block; hide Total; hide Distinct; hide CountFree;
    var list := [Block(p, d, i)] + h.free[d];
    OtherBlocks(p, d, i);
    CountOneMore(h.free[d], list, p, d, i, Total(d));
    CountAll(list, p, d, Total(d));
  }

  lemma LiveBlock(h: Heap, a: nat)
    requires |h.free| == DESCS && Slots(h, -1) && Handed(h) && a in h.live && PageOf(a) in h.arenas
    requires h.arenas[PageOf(a)].Small?
    ensures var p := PageOf(a); var d := h.arenas[p].desc;
            d < DESCS && BlockOf(p, d, a) && Sorted(h, p, d, h.arenas[p].count, -1)
  {
    hide BlockOf; hide Sorted;
    assert Served(h, a);
  }

  lemma SharedExact(h: Heap, base: seq<bool>, a: nat)
    requires Inv(h, base) && a in h.live && PageOf(a) in h.arenas && h.arenas[PageOf(a)].Small?
    ensures h.arenas[PageOf(a)].desc < DESCS
    ensures h.arenas[PageOf(a)].count + 1 < Total(h.arenas[PageOf(a)].desc) <==> Shared(h, a)
  {
    hide Mapped; hide Listed; hide Block; hide Total; hide CountFree; hide Handed; hide Slots;
    InMap(h, base, PageOf(a));
    LiveBlock(h, a);
    var p := PageOf(a);
    var d := h.arenas[p].desc;
    var i: nat :| i < Total(d) && a == Block(p, d, i);
    OthersFree(h, p, d, i);
    forall j: nat | j < Total(d) ensures Block(p, d, j) / 4096 == p {
      BlockInPage(p, d, j);
    }
    forall b | b in h.live && b / 4096 == p ensures BlockOf(p, d, b) {
      LiveBlock(h, b);
    }
  }

  /** kfree of a block whose arena has others handed out: it becomes the first of its free list. */
  lemma FreesBlock(h: Heap, base: seq<bool>, a: nat)
    requires Inv(h, base) && !h.halted && a in h.live && Shared(h, a)
    requires a / 4096 in h.arenas && h.arenas[a / 4096].Small?
    ensures var p := a / 4096;
            var (d, c) := (h.arenas[p].desc, h.arenas[p].count);
            && d < 7 && |h.free| == 7
            && Kfree(h, a) == Heap(h.bits, h.arenas[p := Small(d, c + 1)], h.free[d := [a] + h.free[d]], h.live - {a},
                                   false)
  {
    hide Mapped; hide Slots; hide Handed; hide Shared; hide Total;
    SharedExact(h, base, a);
  }

  /** kfree of the last block handed out in an arena: its page is given back and its blocks leave the free list. */
  lemma FreesPage(h: Heap, base: seq<bool>, a: nat)
    requires Inv(h, base) && !h.halted && a in h.live && !Shared(h, a)
    requires a / 4096 in h.arenas && h.arenas[a / 4096].Small?
    ensures var p := a / 4096;
            var d := h.arenas[p].desc;
            && d < 7 && |h.free| == 7 && PageOf(a) == p && 256 <= p < 256 + |h.bits|
            && var g := Kfree(h, a);
               && !g.halted && g.live == h.live - {a} && g.arenas == h.arenas - {p}
               && g.bits == h.bits[p - 256 := false]
               && |g.free| == 7 && (forall e | 0 <= e < 7 && e != d :: g.free[e] == h.free[e])
               && forall x :: x in g.free[d] <==> x in h.free[d] && x / 4096 != p
  {
    hide Inv; hide Shared; hide Total; hide DropBlocks; hide Distinct; hide Listed; hide SetRange;
    SharedExact(h, base, a);
    var p := PageOf(a);
    var d, c := h.arenas[p].desc, h.arenas[p].count;
    InMap(h, base, p);
    ListedOnce(h, base, a, d, c);
    assert h.bits[p - 256 := false] == SetRange(h.bits, p - 256, 1, false);
  }

  lemma InMap(h: Heap, base: seq<bool>, p: nat)
    requires Inv(h, base) && p in h.arenas
    ensures |h.free| == 7 && 256 <= p && p + Span(h.arenas[p]) <= 256 + |h.bits|
  {
    hide Slots; hide Handed; hide Covered;
  }

  lemma ListedOnce(h: Heap, base: seq<bool>, a: nat, d: nat, c: nat)
    requires |h.free| == DESCS && Inv(h, base) && a in h.live && PageOf(a) in h.arenas
    requires h.arenas[PageOf(a)] == Small(d, c)
    ensures d < DESCS
    ensures forall x :: x in DropBlocks([a] + h.free[d], PageOf(a), d, Total(d)) <==>
                        x in h.free[d] && PageOf(x) != PageOf(a)
  {
    hide Mapped; hide Slots; hide Handed; hide Total; hide DropBlocks; hide Listed;
    PushInv(h, base, a, d, c);
    PurgedList(Push(h, a, d, c), PageOf(a), d);
  }

  /** kfree of a large block: all its pages are given back. */
  lemma FreesRun(h: Heap, base: seq<bool>, a: nat)
    requires Inv(h, base) && !h.halted && a in h.live && a / 4096 in h.arenas && h.arenas[a / 4096].Large?
    ensures var p := a / 4096;
            && |h.free| == 7 && PageOf(a) == p && a == p * 4096 + 16 && h.live[a] + 16 <= h.arenas[p].pages * 4096
            && var g := Kfree(h, a);
               && !g.halted && g.free == h.free && g.live == h.live - {a} && g.arenas == h.arenas - {p}
               && |g.bits| == |h.bits|
               && forall k | 0 <= k < |h.bits| ::
                    g.bits[k] == (h.bits[k] && !(p <= 256 + k < p + h.arenas[p].pages))
  {
    hide Inv; hide SetRange;
    InMap(h, base, a / 4096);
    LargeBlock(h, base, a);
    RangeOff(h.bits, a / 4096 - 256, h.arenas[a / 4096].pages);
  }

  lemma LargeBlock(h: Heap, base: seq<bool>, a: nat)
    requires Inv(h, base) && a in h.live && PageOf(a) in h.arenas && h.arenas[PageOf(a)].Large?
    ensures a == PageOf(a) * 4096 + 16 && h.live[a] + 16 <= h.arenas[PageOf(a)].pages * 4096
  {
    hide Mapped; hide Slots; hide Listed;
    assert Served(h, a);
  }

  lemma RangeOff(bits: seq<bool>, s: nat, n: nat)
    requires s + n <= |bits|
    ensures |SetRange(bits, s, n, false)| == |bits|
    ensures forall k | 0 <= k < |bits| :: SetRange(bits, s, n, false)[k] == (bits[k] && !(s <= k < s + n))
  {
  }

  /** kfree and then kmalloc of the same size class hand out the same block. */
  lemma FreeThenTake(h: Heap, base: seq<bool>, a: nat, size: nat)
    requires Inv(h, base) && !h.halted && a in h.live && Shared(h, a)
    requires a / 4096 in h.arenas && h.arenas[a / 4096].Small? && Class(size, h.arenas[a / 4096].desc)
    ensures |h.free| == 7 && PageOf(a) in h.arenas && h.arenas[PageOf(a)].desc < 7
    ensures |Kfree(h, a).free| == 7
    ensures var (g, r) := Kmalloc(Kfree(h, a), size);
            r == Addr(a) && g == h.(live := h.live[a := size])
  {
    hide Inv; hide Class; hide Shared; hide Kmalloc; hide Kfree;
    FreesBlock(h, base, a);
    KfreeInv(h, base, a);
    var g := Kfree(h, a);
    TakesListed(g, base, size, h.arenas[a / 4096].desc);
    assert (h.live - {a})[a := size] == h.live[a := size];
  }
}
