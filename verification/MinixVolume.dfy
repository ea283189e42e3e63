/** The volume as balloc, bmap, inode_read and inode_write update it in place. Every method refines Zones and
    MinixFile. */
module MinixVolume {
  import opened Zones
  import opened MinixFile

  const MAPS: nat := 8            // zone-map blocks

  class MinixVolume {
    const blocks: array<seq<Byte>>
    const used: array<bool>
    const first: nat
    const inodes: array<Inode>
    var full: bool

    ghost function Abs(): Volume
      reads this, blocks, used, inodes
    {
      Volume(blocks[..], used[..], first, inodes[..], full)
    }

    ghost predicate Valid()
      reads this, blocks, used, inodes
    {
      Inv(Abs())
    }

    /** A volume as it is found on the device. */
    constructor (v: Volume)
      requires Inv(v)
      ensures Valid() && Abs() == v && fresh(blocks) && fresh(used) && fresh(inodes)
    {
      blocks := new seq<Byte>[|v.blocks|](i requires 0 <= i < |v.blocks| => v.blocks[i]);
      used := new bool[|v.used|](i requires 0 <= i < |v.used| => v.used[i]);
      inodes := new Inode[|v.inodes|](i requires 0 <= i < |v.inodes| => v.inodes[i]);
      first, full := v.first, v.full;
      new;
      assert blocks[..] == v.blocks && used[..] == v.used && inodes[..] == v.inodes;
    }

    /** balloc: the first clear bit of the first zone-map block that has one. */
    method Balloc() returns (found: bool, bit: nat)
      requires used.Length == BITS
      modifies used
      ensures bit == FirstFree(old(used[..]), 0) && found == (bit < BITS)
      ensures used[..] == if found then old(used[..])[bit := true] else old(used[..])
    {
      var i := 0;
      while i < MAPS
        invariant 0 <= i <= MAPS && FirstFree(used[..], 0) == FirstFree(used[..], i * MAP_BITS)
        invariant used[..] == old(used[..])
      {
        var b := 0;
        while b < MAP_BITS
          invariant 0 <= b <= MAP_BITS && FirstFree(used[..], 0) == FirstFree(used[..], i * MAP_BITS + b)
          invariant used[..] == old(used[..])
        {
          if !used[i * MAP_BITS + b] {
            bit := i * MAP_BITS + b;
            used[bit] := true;
            return true, bit;
          }
          b := b + 1;
        }
        i := i + 1;
      }
      return false, BITS;
    }

    /** The slot's content, in the inode or in index block `p`. */
    method ReadSlot(n: nat, s: Slot, p: nat) returns (z: nat)
      requires Valid() && n < inodes.Length && Proper(s)
      requires |inodes[n].zone| == 9 && (!s.Top? ==> p == Value(Abs(), n, Parent(s)) != 0)
      ensures z == Value(Abs(), n, s)
    {
      hide Inv; hide Value;
      ghost var v := Abs();
      match s
      case Top(k) =>
        z := inodes[n].zone[k];
        TopValue(v, n, k);
      case _ =>
        InParent(v, n, s);
        z := Word(blocks[p], LastIndex(s));
    }

    lemma TopValue(v: Volume, n: nat, k: nat)
      requires n < |v.inodes| && |v.inodes[n].zone| == 9 && k < 9
      ensures Value(v, n, Top(k)) == v.inodes[n].zone[k]
    {
    }

    lemma InParent(v: Volume, n: nat, s: Slot)
      requires Inv(v) && n < |v.inodes| && Proper(s) && !s.Top? && |v.inodes[n].zone| == 9
      requires Proper(Parent(s)) && Value(v, n, Parent(s)) != 0
      ensures var p := Value(v, n, Parent(s));
              0 < p < |v.blocks| && |v.blocks[p]| == BLOCK && LastIndex(s) < INDEXES
                && Value(v, n, s) == Word(v.blocks[p], LastIndex(s))
    {
      hide Value;
      ValueInParent(v, n, s);
      assert Names(v, n, Parent(s));
      OnDevice(v, n, Parent(s));
    }

    /** reckon's branch for an empty slot: a zone from balloc is written into it. */
    method FillSlot(n: nat, s: Slot, p: nat)
      requires Valid() && n < inodes.Length && Proper(s) && Value(Abs(), n, s) == 0
      requires |inodes[n].zone| == 9 && (!s.Top? ==> p == Value(Abs(), n, Parent(s)) != 0)
      modifies this`full, used, blocks, inodes
      ensures |old(used[..])| == BITS && Abs() == Fill(old(Abs()), n, s)
    {
      hide Inv; hide Value; hide SetWord; hide FirstFree; hide Word; hide Names; hide EntryAt;
      ghost var v := Abs();
      InvFacts(v, n);
      var found, bit := Balloc();
      if !found {
        full := true;
        return;
      }
      NewZone(v);
      var z := first - 1 + bit;
      match s
      case Top(k) =>
        inodes[n] := inodes[n].(zone := inodes[n].zone[k := z]);
        assert inodes[..] == v.inodes[n := inodes[n]];
      case _ =>
        InParent(v, n, s);
        SameIndex(v, v.(used := used[..]), n, s);
        blocks[p] := SetWord(blocks[p], LastIndex(s), z);
        assert blocks[..] == v.blocks[p := blocks[p]];
    }

    lemma SameIndex(v: Volume, w: Volume, n: nat, s: Slot)
      requires w == v.(used := w.used) && n < |v.inodes| && |v.inodes[n].zone| == 9 && Proper(s)
      ensures Value(w, n, s) == Value(v, n, s)
      ensures !s.Top? ==> Proper(Parent(s)) && Value(w, n, Parent(s)) == Value(v, n, Parent(s))
    {
      hide EntryAt;
      SameEntries(v, w);
    }

    /** bmap's choice of level and reckon's of the first index and divider. */
    method Level(b: nat) returns (level: nat, block: nat, divider: nat, s: Slot)
      requires b < REACH
      ensures s.Top? && Proper(s) && level <= 2 && Leads(s, level, block, divider)
      ensures Reached(s, level, block, divider) == SlotOf(b)
    {
      if b < DIRECT {
        level, block, divider, s := 0, b, 0, Top(b);
      } else if b < DIRECT + INDEXES {
        level, block, divider, s := 1, b - DIRECT, 1, Top(DIRECT);
      } else {
        level, block, divider, s := 2, b - INDEXES, INDEXES, Top(DIRECT + 1);
        TwoLevels(block);
      }
    }

    /** reckon with `create`: from the inode down, filling the slots that are empty. */
    method Bmap(n: nat, b: nat) returns (z: nat)
      requires Valid() && n < inodes.Length && b < REACH
      modifies this`full, used, blocks, inodes
      ensures Shape(old(Abs())) && Proper(SlotOf(b)) && Abs() == Ensure(old(Abs()), n, SlotOf(b))
      ensures !full ==> Valid() && |inodes[n].zone| == 9 && z == Value(Abs(), n, SlotOf(b)) != 0
      ensures !full ==> z == ZoneAt(Abs(), n, b)
    {
      hide Inv; hide Value; hide Fill; hide Grown; hide ZoneAt;
      ghost var v := Abs();
      InvFacts(v, n);
      SlotExact(b, 0);
      var level: nat, block: nat, divider: nat, s := Level(b);
      var p: nat := 0;
      z := 0;
      while true
        invariant Proper(s) && Leads(s, level, block, divider) && Reached(s, level, block, divider) == SlotOf(b)
        invariant Valid() && !full && |inodes[n].zone| == 9
        invariant if s.Top? then Abs() == v
                  else Proper(Parent(s)) && Abs() == Ensure(v, n, Parent(s)) && p == Value(Abs(), n, Parent(s)) != 0
        decreases level
      {
        z := ReadSlot(n, s, p);
        if z == 0 {
          ghost var w := Abs();
          InvFacts(w, n);
          FillSlot(n, s, p);
          if full {
            FullEnds(v, n, s, level, block, divider);
            return;
          }
          AfterFill(w, n, s);
          z := ReadSlot(n, s, p);
        }
        if level == 0 {
          ZoneExact(Abs(), n, b);
          return;
        }
        p := z;
        s := Down(s, block / divider);
        block, divider, level := block % divider, divider / INDEXES, level - 1;
      }
    }

    /** reckon without `create`: 0 as soon as a slot on the way is empty. */
    method Find(n: nat, b: nat) returns (z: nat)
      requires Valid() && n < inodes.Length && b < REACH
      ensures Proper(SlotOf(b)) && |inodes[n].zone| == 9 && z == Value(Abs(), n, SlotOf(b)) == ZoneAt(Abs(), n, b)
    {
      hide Inv; hide Value; hide ZoneAt;
      ghost var v := Abs();
      InvFacts(v, n);
      ZoneExact(v, n, b);
      var level: nat, block: nat, divider: nat, s := Level(b);
      var p: nat := 0;
      z := 0;
      while true
        invariant Proper(s) && Leads(s, level, block, divider) && Reached(s, level, block, divider) == SlotOf(b)
        invariant !s.Top? ==> Proper(Parent(s)) && p == Value(v, n, Parent(s)) != 0
        decreases level
      {
        z := ReadSlot(n, s, p);
        if z == 0 {
          EmptyEnds(v, n, s, level, block, divider);
          return;
        }
        if level == 0 {
          return;
        }
        p := z;
        s := Down(s, block / divider);
        block, divider, level := block % divider, divider / INDEXES, level - 1;
      }
    }

    /** inode_read: EOF at or past the end, else what the file holds from `offset` on, as far as it goes. Reading
        into a block that has no zone fails the assertion. */
    method Read(n: nat, len: nat, offset: nat) returns (eof: bool, halted: bool, buf: seq<Byte>)
      requires Valid() && n < inodes.Length && |inodes[n].zone| == 9 && inodes[n].size <= REACH * BLOCK
      ensures eof <==> offset >= inodes[n].size
      ensures eof ==> buf == [] && !halted
      ensures !eof ==> (halted <==> !Solid(Abs(), n, offset, offset + Min(len, inodes[n].size - offset)))
      ensures !eof && !halted ==> buf == Content(Abs(), n)[offset..offset + Min(len, inodes[n].size - offset)]
      ensures !eof ==> (halted <==> !AllPlaced(Abs(), n, offset, if offset + len < inodes[n].size then offset + len
                else inodes[n].size))
      ensures !halted ==> ReadFrom(Abs(), n, offset, buf)
    {
      hide Inv; hide Value; hide ByteAt; hide HasBlock; hide Solid; hide Content; hide AllPlaced; hide ReadFrom;
      buf := [];
      ReadNothing(Abs(), n, offset);
      if offset >= inodes[n].size {
        return true, false, buf;
      }
      ghost var v := Abs();
      var left: nat, at: nat := Min(len, inodes[n].size - offset), offset;
      ghost var end := at + left;
      SolidExact(v, n, offset, end);
      SolidStart(v, n, offset);
      while left > 0
        invariant at + left == end <= inodes[n].size && offset <= at && buf == Content(v, n)[offset..at]
        invariant Solid(v, n, offset, at)
        decreases left
      {
        BlockReach(v, n, at);
        var z := Find(n, at / BLOCK);
        if z == 0 {
          SolidEnds(v, n, offset, at, end);
          return false, true, buf;
        }
        var start, chars := at % BLOCK, Chars(at, left);
        SolidStep(v, n, offset, at, chars);
        ChunkRead(v, n, at, chars);
        Extended(Content(v, n), offset, at, chars);
        buf := buf + blocks[z][start..start + chars];
        left, at := left - chars, at + chars;
      }
      ContentLies(v, n, offset, end);
      return false, false, buf;
    }

    /** inode_write. */
    method Write(n: nat, buf: seq<Byte>, offset: nat)
      requires Valid() && n < inodes.Length && offset + |buf| <= REACH * BLOCK
      modifies this`full, used, blocks, inodes
      ensures Shape(old(Abs())) && Abs() == MinixFile.Write(old(Abs()), n, buf, offset)
      ensures !full ==> Valid()
    {
      hide Inv; hide Value; hide Ensure; hide Store; hide Grown; hide Chars; hide Names;
      ghost var v := Abs();
      InvFacts(v, n);
      var done, at := 0, offset;
      while done < |buf|
        invariant done <= |buf| && at == offset + done && Valid() && Shape(Abs()) && !full && n < inodes.Length
        invariant WriteLoop(Abs(), n, buf[done..], at) == WriteLoop(v, n, buf, offset)
      {
        ghost var u := Abs();
        var rest := buf[done..];
        SlotExact(at / BLOCK, 0);
        var z := Bmap(n, at / BLOCK);
        if full {
          return;
        }
        ghost var w := Abs();
        InvFacts(w, n);
        StoreReady(w, n, rest, at, z);
        var chars := Chars(at, |rest|);
        blocks[z] := Patch(blocks[z], at % BLOCK, rest[..chars]);
        assert blocks[..] == w.blocks[z := blocks[z]];
        assert Abs() == Store(w, z, at, rest);
        assert rest[chars..] == buf[done + chars..];
        InvFacts(Abs(), n);
        done, at := done + chars, at + chars;
      }
      assert buf[done..] == [];
      LoopDone(Abs(), n, at);
      ghost var w := Abs();
      var size := if at > inodes[n].size then at else inodes[n].size;
      SizeInv(w, n, size);
      inodes[n] := inodes[n].(size := size);
      assert inodes[..] == w.inodes[n := inodes[n]];
    }
  }

  // ---- the blocks that a read goes through ----

  /** Every block of the file that has bytes from `lo` up to `hi` has a zone. */
  ghost predicate Solid(v: Volume, n: nat, lo: nat, hi: nat)
    requires n < |v.inodes|
  {
    forall b: nat | lo < (b + 1) * BLOCK && b * BLOCK < hi && lo < hi :: HasBlock(v, n, b)
  }

  /** The block for byte `o` of the file has a zone. */
  ghost predicate Placed(v: Volume, n: nat, o: nat)
    requires n < |v.inodes| && |v.inodes[n].zone| == 9
  {
    o < 262656 * 1024 && ZoneAt(v, n, o / 1024) != 0
  }

  ghost predicate AllPlaced(v: Volume, n: nat, lo: nat, hi: nat)
    requires n < |v.inodes| && |v.inodes[n].zone| == 9
  {
    forall o | lo <= o < hi :: Placed(v, n, o)
  }

  /** `buf` is what the device holds for the file from byte `offset` on. */
  ghost predicate ReadFrom(v: Volume, n: nat, offset: nat, buf: seq<Byte>)
    requires n < |v.inodes| && |v.inodes[n].zone| == 9
  {
    forall i | 0 <= i < |buf| :: offset + i < 262656 * 1024 && Lies(v, n, offset + i, buf[i])
  }

  lemma ReadNothing(v: Volume, n: nat, offset: nat)
    requires n < |v.inodes| && |v.inodes[n].zone| == 9
    ensures ReadFrom(v, n, offset, [])
  {
  }

  lemma SolidExact(v: Volume, n: nat, lo: nat, hi: nat)
    requires Inv(v) && n < |v.inodes| && |v.inodes[n].zone| == 9 && hi <= REACH * BLOCK
    ensures Solid(v, n, lo, hi) <==> AllPlaced(v, n, lo, hi)
  {
    hide HasBlock; hide ZoneAt; hide Lies; hide Inv;
    if Solid(v, n, lo, hi) {
      forall o | lo <= o < hi ensures Placed(v, n, o) {
        LiesExact(v, n, o);
        assert lo < (o / 1024 + 1) * BLOCK && o / 1024 * BLOCK < hi;
      }
    }
    if AllPlaced(v, n, lo, hi) {
      forall b: nat | lo < (b + 1) * BLOCK && b * BLOCK < hi && lo < hi ensures HasBlock(v, n, b) {
        var o := if lo < b * BLOCK then b * BLOCK else lo;
        assert o / 1024 == b && Placed(v, n, o);
        LiesExact(v, n, o);
      }
    }
  }

  lemma ContentLies(v: Volume, n: nat, lo: nat, hi: nat)
    requires Inv(v) && n < |v.inodes| && |v.inodes[n].zone| == 9 && lo <= hi <= v.inodes[n].size <= REACH * BLOCK
    requires Solid(v, n, lo, hi)
    ensures ReadFrom(v, n, lo, Content(v, n)[lo..hi])
  {
    hide HasBlock; hide ZoneAt; hide Lies; hide Inv; hide ByteAt;
    var buf := Content(v, n)[lo..hi];
    forall i | 0 <= i < |buf| ensures Lies(v, n, lo + i, buf[i]) {
      var o := lo + i;
      LiesExact(v, n, o);
      assert lo < (o / BLOCK + 1) * BLOCK && o / BLOCK * BLOCK < hi;
    }
  }

  lemma SolidStart(v: Volume, n: nat, lo: nat)
    requires n < |v.inodes|
    ensures Solid(v, n, lo, lo)
  {
  }

  lemma BlockReach(v: Volume, n: nat, at: nat)
    requires n < |v.inodes| && at < v.inodes[n].size <= REACH * BLOCK
    ensures at / BLOCK < REACH
  {
  }

  lemma SolidEnds(v: Volume, n: nat, lo: nat, at: nat, hi: nat)
    requires n < |v.inodes| && lo <= at < hi && |v.inodes[n].zone| == 9 && Proper(SlotOf(at / BLOCK))
    requires Value(v, n, SlotOf(at / BLOCK)) == 0
    ensures !Solid(v, n, lo, hi)
  {
    hide Value;
    assert !HasBlock(v, n, at / BLOCK);
  }

  lemma SolidStep(v: Volume, n: nat, lo: nat, at: nat, chars: nat)
    requires n < |v.inodes| && lo <= at && Solid(v, n, lo, at) && |v.inodes[n].zone| == 9 && at / BLOCK < REACH
    requires Proper(SlotOf(at / BLOCK)) && Value(v, n, SlotOf(at / BLOCK)) != 0 && at % BLOCK + chars <= BLOCK
    requires chars > 0
    ensures HasBlock(v, n, at / BLOCK) && Solid(v, n, lo, at + chars)
  {
    hide Value;
    forall b: nat | lo < (b + 1) * BLOCK && b * BLOCK < at + chars ensures HasBlock(v, n, b) {
      if b < at / BLOCK {
        assert b * BLOCK < at && lo < at;
      } else {
        assert b == at / BLOCK;
      }
    }
  }

  lemma Extended(s: seq<Byte>, lo: nat, at: nat, chars: nat)
    requires lo <= at && at + chars <= |s|
    ensures s[lo..at + chars] == s[lo..at] + s[at..at + chars]
  {
  }

  // ---- the walk from the inode to the data ----

  /** The slot `i` of the block that `s` names. */
  function Down(s: Slot, i: nat): Slot {
    match s
    case Top(k) => if k == DIRECT then Single(i) else Middle(i)
    case Middle(j) => Double(j, i)
    case _ => s
  }

  function Reached(s: Slot, level: nat, block: nat, divider: nat): Slot
    decreases level
  {
    if level == 0 || divider == 0 then s
      else Reached(Down(s, block / divider), level - 1, block % divider, divider / INDEXES)
  }

  /** Each step of the walk goes to a slot of the block that the one before names. */
  predicate Leads(s: Slot, level: nat, block: nat, divider: nat)
    decreases level
  {
    level == 0 ||
    (divider > 0 &&
     var c := Down(s, block / divider);
     Proper(c) && !c.Top? && Parent(c) == s && Leads(c, level - 1, block % divider, divider / INDEXES))
  }

  lemma TwoLevels(block: nat)
    requires block < INDEXES * INDEXES
    ensures Leads(Top(DIRECT + 1), 2, block, INDEXES)
    ensures Reached(Top(DIRECT + 1), 2, block, INDEXES) == Double(block / INDEXES, block % INDEXES)
  {
    var i, j := block / INDEXES, block % INDEXES;
    assert j / 1 == j && INDEXES / INDEXES == 1;
    assert Leads(Double(i, j), 0, j % 1, 0);
    assert Leads(Middle(i), 1, j, 1);
    assert Reached(Middle(i), 1, j, 1) == Double(i, j);
  }

  /** Once the map is full nothing more happens on the way down. */
  lemma {:induction false} FullEnds(v: Volume, n: nat, s: Slot, level: nat, block: nat, divider: nat)
    requires Shape(v) && n < |v.inodes| && Proper(s) && Leads(s, level, block, divider) && Ensure(v, n, s).full
    ensures Proper(Reached(s, level, block, divider))
    ensures Ensure(v, n, Reached(s, level, block, divider)) == Ensure(v, n, s)
    decreases level
  {
    hide Value; hide Fill;
    if level > 0 {
      var c := Down(s, block / divider);
      assert Ensure(v, n, c) == Ensure(v, n, s);
      FullEnds(v, n, c, level - 1, block % divider, divider / INDEXES);
    }
  }

  /** Below an empty slot everything is empty. */
  lemma {:induction false} EmptyEnds(v: Volume, n: nat, s: Slot, level: nat, block: nat, divider: nat)
    requires n < |v.inodes| && |v.inodes[n].zone| == 9 && Proper(s) && Leads(s, level, block, divider)
    requires Value(v, n, s) == 0
    ensures Proper(Reached(s, level, block, divider)) && Value(v, n, Reached(s, level, block, divider)) == 0
    decreases level
  {
    hide Value;
    if level > 0 {
      var c := Down(s, block / divider);
      ValueInParent(v, n, c);
      NoBlock(v, LastIndex(c));
      EmptyEnds(v, n, c, level - 1, block % divider, divider / INDEXES);
    }
  }

  lemma AfterFill(w: Volume, n: nat, s: Slot)
    requires Inv(w) && n < |w.inodes| && |w.inodes[n].zone| == 9 && |w.used| == BITS && Proper(s) && Value(w, n, s) == 0
    requires (!s.Top? ==> Value(w, n, Parent(s)) != 0) && !Fill(w, n, s).full
    ensures var f := Fill(w, n, s);
            Inv(f) && n < |f.inodes| && |f.inodes[n].zone| == 9 && Value(f, n, s) != 0
            && (!s.Top? ==> Proper(Parent(s)) && Value(f, n, Parent(s)) == Value(w, n, Parent(s)))
  {
    hide Value; hide Fill; hide FirstFree;
    FillInv(w, n, s);
    FillValue(w, n, s, n, s);
    NewZone(w);
    if !s.Top? {
      ParentProper(s);
      FillValue(w, n, s, n, Parent(s));
    }
  }

  lemma HasZone(v: Volume, n: nat, b: nat)
    requires n < |v.inodes| && HasBlock(v, n, b)
    ensures |v.inodes[n].zone| == 9 && b < REACH && Proper(SlotOf(b)) && Value(v, n, SlotOf(b)) != 0
  {
    SlotExact(b, 0);
  }

  /** A chunk inside one block of the file. */
  lemma ChunkRead(v: Volume, n: nat, at: nat, chars: nat)
    requires Inv(v) && n < |v.inodes| && |v.inodes[n].zone| == 9 && HasBlock(v, n, at / BLOCK)
    requires at % BLOCK + chars <= BLOCK && at + chars <= v.inodes[n].size <= REACH * BLOCK
    requires Proper(SlotOf(at / BLOCK))
    ensures var z := Value(v, n, SlotOf(at / BLOCK));
            z < |v.blocks| && |v.blocks[z]| == BLOCK
              && v.blocks[z][at % BLOCK..at % BLOCK + chars] == Content(v, n)[at..at + chars]
  {
    hide Value; hide ByteAt; hide Inv;
    HasZone(v, n, at / BLOCK);
    ByteForm(v, n, at);
    var z := Value(v, n, SlotOf(at / BLOCK));
    var got, want := v.blocks[z][at % BLOCK..at % BLOCK + chars], Content(v, n)[at..at + chars];
    forall i | 0 <= i < chars ensures got[i] == want[i] {
      assert (at + i) / BLOCK == at / BLOCK && (at + i) % BLOCK == at % BLOCK + i;
      ByteForm(v, n, at + i);
    }
  }

  /** The block bmap has found can be written. */
  lemma StoreReady(w: Volume, n: nat, rest: seq<Byte>, at: nat, z: nat)
    requires Inv(w) && n < |w.inodes| && |w.inodes[n].zone| == 9 && rest != [] && at / BLOCK < REACH
    requires Proper(SlotOf(at / BLOCK))
    requires z == Value(w, n, SlotOf(at / BLOCK)) != 0
    ensures z < |w.blocks| && |w.blocks[z]| == BLOCK && Inv(Store(w, z, at, rest))
    ensures Store(w, z, at, rest) ==
            w.(blocks := w.blocks[z := Patch(w.blocks[z], at % BLOCK, rest[..Chars(at, |rest|)])])
  {
    hide Value; hide Patch; hide Inv; hide Names; hide Chars;
    SlotExact(at / BLOCK, 0);
    StoreForm(w, n, rest, at);
    StoreInv(w, Store(w, z, at, rest), n, SlotOf(at / BLOCK));
  }
}
