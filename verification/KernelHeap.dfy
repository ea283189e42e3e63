/** The kernel allocators as they update the page map, the arenas and the free lists in place. Every method refines
    Arena. */
module KernelHeap {
  import opened Bitmaps
  import opened Arena
  import opened Lists

  lemma SetFalseStep(bits: seq<bool>, start: nat, count: nat)
    requires start + count < |bits|
    ensures SetRange(bits, start, count, false)[start + count := false] == SetRange(bits, start, count + 1, false)
  {
    SetRangeStep(bits, start, count, false);
  }

  lemma SetNone(bits: seq<bool>, start: nat, value: bool)
    requires start <= |bits|
    ensures SetRange(bits, start, 0, value) == bits
  {
  }

  /** Appending to a run of pushes. */
  lemma PushStep(list: seq<nat>, p: nat, d: nat, n: nat)
    requires d < DESCS
    ensures PushBlocks(list, p, d, n + 1) == [Block(p, d, n)] + PushBlocks(list, p, d, n)
    ensures DropBlocks(list, p, d, n + 1) == Without(DropBlocks(list, p, d, n), Block(p, d, n))
    ensures PushBlocks(list, p, d, 0) == list == DropBlocks(list, p, d, 0)
  {
  }

  class KernelHeap {
    const map_: Bitmap
    const bytes: array<bv8>
    ghost const base: seq<bool>
    var arenas: map<nat, Arena>
    var free: seq<seq<nat>>
    var halted: bool
    ghost var live: map<nat, nat>

    ghost predicate Framed()
      reads this, map_
    {
      map_.bits == bytes && map_.offset == BASE && |free| == DESCS
    }

    ghost function Abs(): Heap
      requires Framed()
      reads this, map_, bytes
    {
      Heap(map_.Bits(), arenas, free, live, halted)
    }

    ghost predicate Valid()
      reads this, map_, bytes
    {
      Framed() && Inv(Abs(), base)
    }

    /** arena_init on a page map in which the first `reserved` pages are taken. */
    constructor (length: nat, reserved: nat)
      requires 0 < reserved <= 8 * length
      ensures Valid() && fresh(map_) && fresh(bytes) && Abs() == Start(base)
      ensures |base| == 8 * length && forall k | 0 <= k < |base| :: base[k] <==> k < reserved
    {
      var m := new Bitmap(length, BASE);
      var b := m.bits;
      ghost var clear := m.Bits();
      FirstRunIs(clear, reserved, 0, 0);
      var found, index := m.Scan(reserved);
      map_, bytes := m, b;
      base := m.Bits();
      arenas, free, halted, live := map[], seq(DESCS, i => []), false, map[];
      new;
      StartInv(base);
    }

    /** alloc_kpage: `count` consecutive pages, or a panic. */
    method AllocKpage(count: nat) returns (page: nat)
      requires Framed()
      modifies this`halted, bytes
      ensures Framed()
      ensures if count == 0 || FirstRun(old(map_.Bits()), count, 0).NotFound? then
                halted && map_.Bits() == old(map_.Bits())
              else
                halted == old(halted) && page == BASE + FirstRun(old(map_.Bits()), count, 0).start
                && map_.Bits() == SetRange(old(map_.Bits()), page - BASE, count, true)
    {
      page := 0;
      if count == 0 {
        halted := true;
        return;
      }
      var found, index := map_.Scan(count);
      if !found {
        halted := true;
        return;
      }
      page := index;
    }

    /** free_kpage, with its assertion that every page was in use. */
    method FreeKpage(page: nat, count: nat)
      requires Framed() && BASE <= page && page - BASE + count <= |map_.Bits()|
      requires forall k | page - BASE <= k < page - BASE + count :: map_.Bits()[k]
      modifies bytes
      ensures Framed() && map_.Bits() == SetRange(old(map_.Bits()), page - BASE, count, false)
    {
      ghost var was := map_.Bits();
      SetNone(was, page - BASE, false);
      var i := 0;
      while i < count
        invariant 0 <= i <= count && Framed() && map_.Bits() == SetRange(was, page - BASE, i, false)
      {
        var used := map_.Test(page + i);
        assert used;
        map_.Set(page + i, false);
        SetFalseStep(was, page - BASE, i);
        i := i + 1;
      }
    }

    /** A new arena for free blocks, all of them pushed. */
    method RefillList(d: nat)
      requires Framed() && !halted && d < DESCS
      modifies this, bytes
      ensures Framed() && Abs() == Refill(old(Abs()), d)
    {
      hide Block; hide FirstRun; hide SetRange; hide Total;
      var page := AllocKpage(1);
      if halted {
        return;
      }
      arenas := arenas[page := Small(d, Total(d))];
      ghost var list := free[d];
      PushStep(list, page, d, 0);
      var i := 0;
      while i < Total(d)
        invariant 0 <= i <= Total(d) && Framed() && free == old(free)[d := PushBlocks(list, page, d, i)]
        modifies this`free
      {
        PushStep(list, page, d, i);
        free := free[d := [Block(page, d, i)] + free[d]];
        i := i + 1;
      }
    }

    /** kmalloc, of any 32-bit size. */
    method Allocate(size: nat) returns (r: Result)
      requires Valid() && !halted && size < TWO32
      modifies this, bytes
      ensures Framed() && |old(Abs()).free| == DESCS && (Abs(), r) == Kmalloc(old(Abs()), size)
      ensures size <= TWO32 - HEADER ==> Valid()
    {
      hide Inv; hide Block; hide Total; hide Refill; hide FirstRun; hide SetRange; hide BlockSize; hide PagesFor;
      hide DescFor;
      ghost var h := Abs();
      if size <= TWO32 - HEADER {
        KmallocInv(h, base, size);
      }
      if size > 1024 {
        var count := PagesFor(size);
        var page := AllocKpage(count);
        if halted {
          return Panic;
        }
        arenas := arenas[page := Large(count)];
        live := live[page * PAGE + HEADER := size];
        return Addr(page * PAGE + HEADER);
      }
      var d := FindDescriptor(size);
      if free[d] == [] {
        RefillList(d);
        if halted || free[d] == [] {
          return Panic;
        }
      }
      var block := free[d][0];
      free := free[d := free[d][1..]];
      var page := PageOf(block);
      if page in arenas && arenas[page].Small? && arenas[page].count > 0 {
        arenas := arenas[page := arenas[page].(count := arenas[page].count - 1)];
      }
      live := live[block := size];
      return Addr(block);
    }

    /** kmalloc's search for the descriptor. */
    method FindDescriptor(size: nat) returns (d: nat)
      requires size <= 1024
      ensures d == DescFor(size, 0)
    {
      d := 0;
      while BlockSize(d) < size
        invariant d < DESCS && (forall e | 0 <= e < d :: BlockSize(e) < size) && DescFor(size, d) == DescFor(size, 0)
        decreases DESCS - d
      {
        d := d + 1;
      }
    }

    method Release(addr: nat)
      requires Valid() && !halted && addr in live
      modifies this, bytes
      ensures Valid() && PageOf(addr) in old(arenas)
      ensures (old(arenas)[PageOf(addr)].Small? ==> old(arenas)[PageOf(addr)].desc < DESCS)
      ensures Abs() == Kfree(old(Abs()), addr)
    {
      hide Inv; hide Block; hide Total; hide SetRange; hide Without; hide DropBlocks; hide PageOf;
      ghost var h := Abs();
      KfreeInv(h, base, addr);
      PagesSet(h, addr);
      var page := PageOf(addr);
      live := live - {addr};
      match arenas[page] {
        case Large(count) =>
          FreeKpage(page, count);
          arenas := arenas - {page};
        case Small(d, count) =>
          arenas := arenas[page := Small(d, count + 1)];
          free := free[d := [addr] + free[d]];
          if count + 1 >= Total(d) {
            DropPage(page, d);
          }
      }
    }

    /** The last block has come back: the arena's blocks leave the free list and its page is released. */
    method DropPage(page: nat, d: nat)
      requires Framed() && d < DESCS && BASE <= page < BASE + |map_.Bits()| && map_.Bits()[page - BASE]
      modifies this, bytes
      ensures Framed()
      ensures var g := old(Abs());
              Abs() == DropArena(g.(free := g.free[d := DropBlocks(g.free[d], page, d, Total(d))]), page, 1)
    {
      hide Block; hide Total; hide SetRange; hide Without;
      ghost var lists := free;
      PushStep(lists[d], page, d, 0);
      var i := 0;
      while i < Total(d)
        invariant 0 <= i <= Total(d) && Framed()
        invariant free == lists[d := DropBlocks(lists[d], page, d, i)]
        modifies this`free
      {
        PushStep(lists[d], page, d, i);
        free := free[d := Without(free[d], Block(page, d, i))];
        i := i + 1;
      }
      FreeKpage(page, 1);
      arenas := arenas - {page};
    }

    /** The pages of an arena are marked used. */
    lemma PagesSet(h: Heap, a: nat)
      requires Inv(h, base) && a in h.live
      ensures PageOf(a) in h.arenas
      ensures var p := PageOf(a); var n := Span(h.arenas[p]);
              BASE <= p && p - BASE + n <= |h.bits| && forall k | p - BASE <= k < p - BASE + n :: h.bits[k]
    {
      hide Slots; hide Listed; hide PageOf;
      assert Served(h, a);
      var p := PageOf(a);
      forall k | p - BASE <= k < p - BASE + Span(h.arenas[p]) ensures h.bits[k] {
        assert Holds(h.arenas, p, k);
        assert Covered(h.arenas, k);
      }
    }
  }
}
