/** inode_read and inode_write (src/fs/inode.c): through the blocks that bmap finds or makes, a file is a flat array of
    bytes. */
module MinixFile {
  import opened Zones

  /** Byte `o` of file `n`, whatever the size says; what has no block reads as zero. */
  function ByteAt(v: Volume, n: nat, o: nat): Byte
    requires n < |v.inodes| && |v.inodes[n].zone| == 9 && o < REACH * BLOCK
  {
    SlotExact(o / BLOCK, 0);
    var z := Value(v, n, SlotOf(o / BLOCK));
    if 0 < z < |v.blocks| && |v.blocks[z]| == BLOCK then v.blocks[z][o % BLOCK] else 0
  }

  /** A file that fits and has a block for each of its bytes. */
  ghost predicate Whole(v: Volume, n: nat)
    requires n < |v.inodes| && |v.inodes[n].zone| == 9
  {
    v.inodes[n].size <= REACH * BLOCK
    && forall b | 0 <= b && b * BLOCK < v.inodes[n].size :: HasBlock(v, n, b)
  }

  predicate HasBlock(v: Volume, n: nat, b: nat)
    requires n < |v.inodes|
  {
    |v.inodes[n].zone| == 9 && b < REACH && (SlotExact(b, 0); Value(v, n, SlotOf(b)) != 0)
  }

  ghost function Content(v: Volume, n: nat): (s: seq<Byte>)
    requires n < |v.inodes| && |v.inodes[n].zone| == 9 && v.inodes[n].size <= REACH * BLOCK
    ensures |s| == v.inodes[n].size
  {
    seq(v.inodes[n].size, o requires 0 <= o < v.inodes[n].size => ByteAt(v, n, o))
  }

  function Min(a: nat, b: nat): nat {
    if a < b then a else b
  }

  /** How much of a request lies in the block it starts in. */
  function Chars(offset: nat, left: nat): (c: nat)
    ensures c <= left && (left > 0 ==> c > 0) && offset % BLOCK + c <= BLOCK
  {
    Min(BLOCK - offset % BLOCK, left)
  }

  /** memcpy into a block. */
  function Patch(block: seq<Byte>, start: nat, data: seq<Byte>): (r: seq<Byte>)
    requires |block| == BLOCK && start + |data| <= BLOCK
    ensures |r| == BLOCK
    ensures forall i | 0 <= i < BLOCK :: r[i] == if start <= i < start + |data| then data[i - start] else block[i]
  {
    block[..start] + data + block[start + |data|..]
  }

  /** One turn of the loop in inode_write, after bmap: the part of `buf` that goes into this block. */
  function Store(v: Volume, z: nat, offset: nat, buf: seq<Byte>): Volume
  {
    if z < |v.blocks| && |v.blocks[z]| == BLOCK then
      v.(blocks := v.blocks[z := Patch(v.blocks[z], offset % BLOCK, buf[..Chars(offset, |buf|)])])
    else v
  }

  /** The loop of inode_write. */
  function WriteLoop(v: Volume, n: nat, buf: seq<Byte>, offset: nat): (r: Volume)
    requires Shape(v) && n < |v.inodes| && offset + |buf| <= REACH * BLOCK
    ensures r.full || (Shape(r) && |r.inodes| == |v.inodes|)
    decreases |buf|
  {
    if buf == [] then v
    else
      SlotExact(offset / BLOCK, 0);
      var w := Ensure(v, n, SlotOf(offset / BLOCK));
      if w.full then w
      else
        var c := Chars(offset, |buf|);
        WriteLoop(Store(w, Value(w, n, SlotOf(offset / BLOCK)), offset, buf), n, buf[c..], offset + c)
  }

  function Write(v: Volume, n: nat, buf: seq<Byte>, offset: nat): Volume
    requires Shape(v) && n < |v.inodes| && offset + |buf| <= REACH * BLOCK
  {
    var w := WriteLoop(v, n, buf, offset);
    if w.full then w
    else
      var end := offset + |buf|;
      w.(inodes := w.inodes[n := w.inodes[n].(size := if end > w.inodes[n].size then end else w.inodes[n].size)])
  }

  // ---- allocation does not change what is read ----

  lemma InvFacts(v: Volume, n: nat)
    requires Inv(v) && n < |v.inodes|
    ensures Shape(v) && |v.inodes[n].zone| == 9 && |v.used| == BITS
  {
  }

  lemma ByteForm(v: Volume, n: nat, o: nat)
    requires Inv(v) && n < |v.inodes| && o < REACH * BLOCK
    ensures |v.inodes[n].zone| == 9 && Proper(SlotOf(o / BLOCK)) && Leaf(SlotOf(o / BLOCK))
    ensures var z := Value(v, n, SlotOf(o / BLOCK));
            if z != 0 then Names(v, n, SlotOf(o / BLOCK)) && z < |v.blocks| && |v.blocks[z]| == BLOCK
              && ByteAt(v, n, o) == v.blocks[z][o % BLOCK]
            else ByteAt(v, n, o) == 0
  {
    hide Value; hide Leaf; hide Inv;
    InvFacts(v, n);
    SlotExact(o / BLOCK, 0);
    if Value(v, n, SlotOf(o / BLOCK)) != 0 {
      OnDevice(v, n, SlotOf(o / BLOCK));
    }
  }

  lemma GrownFacts(v: Volume, r: Volume, n: nat, s: Slot, m: nat, t: Slot)
    requires Inv(v) && Inv(r) && Grown(v, r, n, s) && m < |v.inodes| && Proper(t) && Leaf(t)
    ensures |r.blocks| == |v.blocks| && m < |r.inodes| && |r.inodes[m].zone| == |v.inodes[m].zone| == 9
    ensures Value(v, m, t) != 0 ==>
            Value(r, m, t) == Value(v, m, t) && Value(v, m, t) < |v.blocks|
              && r.blocks[Value(v, m, t)] == v.blocks[Value(v, m, t)]
    ensures Value(v, m, t) == 0 && Value(r, m, t) != 0 ==>
            Value(r, m, t) < |r.blocks| && r.blocks[Value(r, m, t)] == Blank()
  {
    hide Value; hide Leaf; hide Blank; hide OnPath;
    if Value(v, m, t) != 0 {
      assert Names(v, m, t);
      OnDevice(v, m, t);
    } else if Value(r, m, t) != 0 {
      assert Names(r, m, t);
      OnDevice(r, m, t);
    }
  }

  lemma GrownByte(v: Volume, r: Volume, n: nat, s: Slot, m: nat, o: nat)
    requires Inv(v) && Inv(r) && Grown(v, r, n, s) && m < |v.inodes| && o < REACH * BLOCK
    ensures m < |r.inodes| && |r.inodes[m].zone| == |v.inodes[m].zone| == 9 && ByteAt(r, m, o) == ByteAt(v, m, o)
  {
    hide Value; hide Leaf; hide Inv; hide Grown; hide ByteAt;
    ByteForm(v, m, o);
    GrownFacts(v, r, n, s, m, SlotOf(o / BLOCK));
    ByteForm(r, m, o);
  }

  // ---- a store changes just its bytes ----

  /** `r` differs from `v` in the contents of the data block named by `s` only. */
  ghost predicate Stored(v: Volume, r: Volume, n: nat, s: Slot) {
    Inv(v) && Names(v, n, s) && Leaf(s) && Value(v, n, s) < |v.blocks|
    && exists block: seq<Byte> :: |block| == BLOCK && r == v.(blocks := v.blocks[Value(v, n, s) := block])
  }

  lemma StoreEntry(v: Volume, r: Volume, z: nat, q: nat, i: nat)
    requires i < INDEXES && z < |v.blocks| && |r.blocks| == |v.blocks| && q != z
    requires (forall y | 0 <= y < |v.blocks| && y != z :: r.blocks[y] == v.blocks[y])
    ensures EntryAt(r, q, i) == EntryAt(v, q, i)
  {
  }

  lemma StoreValue(v: Volume, r: Volume, n: nat, s: Slot, m: nat, t: Slot)
    requires Stored(v, r, n, s) && m < |v.inodes| && Proper(t)
    ensures m < |r.inodes| && |r.inodes[m].zone| == 9 && |v.inodes[m].zone| == 9 && Value(r, m, t) == Value(v, m, t)
    decreases Depth(t)
  {
    hide Inv; hide EntryAt;
    InvFacts(v, m);
    if !t.Top? {
      ParentProper(t);
      StoreValue(v, r, n, s, m, Parent(t));
      ValueInParent(v, m, t);
      ValueInParent(r, m, t);
      ParentNotLeaf(t);
      if Value(v, m, Parent(t)) == Value(v, n, s) {
        OneSlot(v, n, s, m, Parent(t));
      }
      StoreEntry(v, r, Value(v, n, s), Value(v, m, Parent(t)), LastIndex(t));
    }
  }

  lemma StoreInv(v: Volume, r: Volume, n: nat, s: Slot)
    requires Stored(v, r, n, s)
    ensures Inv(r)
  {
    hide Value; hide Leaf; hide Blank;
    OnDevice(v, n, s);
    forall m, t | Names(r, m, t)
      ensures InUse(r, Value(r, m, t)) && Names(v, m, t) && Value(v, m, t) == Value(r, m, t) {
      StoreValue(v, r, n, s, m, t);
    }
  }

  lemma StoreForm(w: Volume, n: nat, buf: seq<Byte>, offset: nat)
    requires Inv(w) && n < |w.inodes| && buf != [] && offset / BLOCK < REACH && HasBlock(w, n, offset / BLOCK)
    ensures Proper(SlotOf(offset / BLOCK)) && |w.inodes[n].zone| == 9
    ensures var s := SlotOf(offset / BLOCK); var z := Value(w, n, s); var r := Store(w, z, offset, buf);
            Stored(w, r, n, s) && z < |w.blocks| && |w.blocks[z]| == BLOCK
            && r.blocks == w.blocks[z := Patch(w.blocks[z], offset % BLOCK, buf[..Chars(offset, |buf|)])]
  {
    hide Value; hide Leaf; hide Patch; hide Chars;
    InvFacts(w, n);
    SlotExact(offset / BLOCK, 0);
    var s := SlotOf(offset / BLOCK);
    var z := Value(w, n, s);
    assert Names(w, n, s);
    OnDevice(w, n, s);
    var block := Patch(w.blocks[z], offset % BLOCK, buf[..Chars(offset, |buf|)]);
    assert Store(w, z, offset, buf) == w.(blocks := w.blocks[z := block]);
  }

  lemma StoreByte(w: Volume, n: nat, buf: seq<Byte>, offset: nat, m: nat, o: nat)
    requires Inv(w) && n < |w.inodes| && m < |w.inodes| && buf != [] && offset / BLOCK < REACH
    requires HasBlock(w, n, offset / BLOCK) && o < REACH * BLOCK
    ensures |w.inodes[n].zone| == |w.inodes[m].zone| == 9 && Proper(SlotOf(offset / BLOCK))
    ensures var r := Store(w, Value(w, n, SlotOf(offset / BLOCK)), offset, buf);
            Inv(r) && m < |r.inodes| && |r.inodes[m].zone| == 9 && r.inodes == w.inodes
            && ByteAt(r, m, o) == if m == n && offset <= o < offset + Chars(offset, |buf|) then buf[o - offset]
              else ByteAt(w, m, o)
  {
    hide Value; hide Leaf; hide Patch; hide Chars; hide ByteAt; hide Inv; hide Names;
    InvFacts(w, n);
    InvFacts(w, m);
    StoreForm(w, n, buf, offset);
    SlotExact(offset / BLOCK, o / BLOCK);
    var s, t, c := SlotOf(offset / BLOCK), SlotOf(o / BLOCK), Chars(offset, |buf|);
    var z := Value(w, n, s);
    var r := Store(w, z, offset, buf);
    StoreInv(w, r, n, s);
    ByteForm(w, m, o);
    ByteForm(r, m, o);
    StoreValue(w, r, n, s, m, t);
    if Value(w, m, t) != 0 {
      if Value(w, m, t) == z {
        OneSlot(w, n, s, m, t);
        var p := Patch(w.blocks[z], offset % BLOCK, buf[..c]);
        assert r.blocks[z] == p;
        assert p[o % BLOCK] == if offset % BLOCK <= o % BLOCK < offset % BLOCK + c then buf[o % BLOCK - offset % BLOCK]
          else w.blocks[z][o % BLOCK];
        assert o - offset == o % BLOCK - offset % BLOCK;
      } else {
        assert !(m == n && s == t);
        assert r.blocks[Value(w, m, t)] == w.blocks[Value(w, m, t)];
      }
    }
  }

  // ---- the loop of inode_write ----

  lemma LoopStep(v: Volume, n: nat, buf: seq<Byte>, offset: nat)
    requires Inv(v) && n < |v.inodes| && offset + |buf| <= REACH * BLOCK && buf != []
    requires !WriteLoop(v, n, buf, offset).full
    ensures Proper(SlotOf(offset / BLOCK))
    ensures var s := SlotOf(offset / BLOCK); var w := Ensure(v, n, s); var c := Chars(offset, |buf|);
            !w.full && Inv(w) && Grown(v, w, n, s) && |w.inodes| == |v.inodes| && HasBlock(w, n, offset / BLOCK)
            && var x := Store(w, Value(w, n, s), offset, buf);
               Inv(x) && x.inodes == w.inodes && WriteLoop(v, n, buf, offset) == WriteLoop(x, n, buf[c..], offset + c)
  {
    hide Value; hide Leaf; hide Ensure; hide Store; hide Names; hide Inv;
    InvFacts(v, n);
    SlotExact(offset / BLOCK, 0);
    var s := SlotOf(offset / BLOCK);
    var w := Ensure(v, n, s);
    EnsureCorrect(v, n, s);
    InvFacts(w, n);
    StoreByte(w, n, buf, offset, n, offset);
  }

  /** Every byte after the loop: the written ones are there, all others of all files are as before. */
  lemma {:induction false} LoopByte(v: Volume, n: nat, buf: seq<Byte>, offset: nat, m: nat, o: nat)
    requires Inv(v) && n < |v.inodes| && m < |v.inodes| && offset + |buf| <= REACH * BLOCK && o < REACH * BLOCK
    requires !WriteLoop(v, n, buf, offset).full
    ensures |v.inodes[m].zone| == 9
    ensures var r := WriteLoop(v, n, buf, offset);
            Inv(r) && |r.inodes| == |v.inodes| && |r.inodes[m].zone| == 9 && r.inodes[m].size == v.inodes[m].size
            && ByteAt(r, m, o) == if m == n && offset <= o < offset + |buf| then buf[o - offset] else ByteAt(v, m, o)
    decreases |buf|
  {
    hide Value; hide Leaf; hide Ensure; hide Store; hide Names; hide Inv; hide ByteAt; hide Chars; hide Grown;
    InvFacts(v, m);
    if buf == [] {
      LoopDone(v, n, offset);
    } else {
      LoopStep(v, n, buf, offset);
      var s, c := SlotOf(offset / BLOCK), Chars(offset, |buf|);
      var w := Ensure(v, n, s);
      var x := Store(w, Value(w, n, s), offset, buf);
      GrownByte(v, w, n, s, m, o);
      GrownSize(v, w, n, s, m);
      StoreByte(w, n, buf, offset, m, o);
      LoopByte(x, n, buf[c..], offset + c, m, o);
    }
  }

  lemma LoopDone(v: Volume, n: nat, offset: nat)
    requires Shape(v) && n < |v.inodes| && offset <= REACH * BLOCK
    ensures WriteLoop(v, n, [], offset) == v
  {
  }

  lemma GrownSize(v: Volume, w: Volume, n: nat, s: Slot, m: nat)
    requires Grown(v, w, n, s) && m < |v.inodes|
    ensures m < |w.inodes| && w.inodes[m].size == v.inodes[m].size
  {
  }

  /** The way to a data block leads through no other data block. */
  lemma {:induction false} LeafOnPath(t: Slot, s: Slot)
    requires Leaf(t) && OnPath(t, s)
    ensures t == s
    decreases Depth(s)
  {
    if t != s {
      ParentNotLeaf(s);
      LeafOnPath(t, Parent(s));
    }
  }

  lemma GrownBlock(v: Volume, w: Volume, n: nat, a: nat, m: nat, b: nat)
    requires Inv(v) && Inv(w) && a < REACH && m < |v.inodes| && n < |w.inodes| && HasBlock(w, n, a)
    requires Grown(v, w, n, SlotOf(a))
    ensures m < |w.inodes| && (HasBlock(w, m, b) <==> HasBlock(v, m, b) || (m == n && b == a))
  {
    hide Value; hide Leaf; hide Inv;
    SlotExact(a, b);
    SlotExact(b, a);
    InvFacts(v, m);
    InvFacts(w, m);
    if b < REACH {
      if OnPath(SlotOf(b), SlotOf(a)) {
        LeafOnPath(SlotOf(b), SlotOf(a));
      }
    }
  }

  lemma StoreBlock(w: Volume, n: nat, buf: seq<Byte>, offset: nat, m: nat, b: nat)
    requires Inv(w) && n < |w.inodes| && m < |w.inodes| && buf != [] && offset / BLOCK < REACH
    requires HasBlock(w, n, offset / BLOCK)
    ensures |w.inodes[n].zone| == 9 && Proper(SlotOf(offset / BLOCK))
    ensures var r := Store(w, Value(w, n, SlotOf(offset / BLOCK)), offset, buf);
            m < |r.inodes| && (HasBlock(r, m, b) <==> HasBlock(w, m, b))
  {
    hide Value; hide Leaf; hide Inv; hide Store;
    StoreForm(w, n, buf, offset);
    SlotExact(b, 0);
    InvFacts(w, m);
    if b < REACH {
      var r := Store(w, Value(w, n, SlotOf(offset / BLOCK)), offset, buf);
      StoreValue(w, r, n, SlotOf(offset / BLOCK), m, SlotOf(b));
    }
  }

  /** Block `b` has bytes that a request for `len` bytes from `offset` on writes. */
  predicate Touches(offset: nat, len: nat, b: nat) {
    len > 0 && offset / BLOCK <= b && b * BLOCK < offset + len
  }

  /** A file has exactly the blocks it had and those the written range touches. */
  lemma {:induction false} LoopBlock(v: Volume, n: nat, buf: seq<Byte>, offset: nat, m: nat, b: nat)
    requires Inv(v) && n < |v.inodes| && m < |v.inodes| && offset + |buf| <= REACH * BLOCK
    requires !WriteLoop(v, n, buf, offset).full
    ensures m < |WriteLoop(v, n, buf, offset).inodes|
    ensures HasBlock(WriteLoop(v, n, buf, offset), m, b) <==> HasBlock(v, m, b) || (m == n && Touches(offset, |buf|, b))
    decreases |buf|
  {
    hide Value; hide Leaf; hide Ensure; hide Store; hide Names; hide Inv; hide HasBlock; hide Grown; hide Chars;
    hide Touches;
    InvFacts(v, m);
    NextBlock(offset, |buf|, b);
    if buf == [] {
      LoopDone(v, n, offset);
    } else {
      LoopStep(v, n, buf, offset);
      BlockBelow(offset, |buf|);
      var s, c := SlotOf(offset / BLOCK), Chars(offset, |buf|);
      var w := Ensure(v, n, s);
      var x := Store(w, Value(w, n, s), offset, buf);
      GrownBlock(v, w, n, offset / BLOCK, m, b);
      StoreBlock(w, n, buf, offset, m, b);
      LoopBlock(x, n, buf[c..], offset + c, m, b);
    }
  }

  lemma BlockBelow(offset: nat, len: nat)
    requires len > 0 && offset + len <= REACH * BLOCK
    ensures offset / BLOCK < REACH
  {
  }

  lemma NextBlock(offset: nat, left: nat, b: nat)
    ensures left == 0 ==> !Touches(offset, left, b)
    ensures var c := Chars(offset, left);
            left > 0 ==> (Touches(offset, left, b) <==> b == offset / BLOCK || Touches(offset + c, left - c, b))
  {
  }

  // ---- the file is a flat array ----

  function Splice(s: seq<Byte>, offset: nat, buf: seq<Byte>): seq<Byte>
    requires offset <= |s|
  {
    s[..offset] + buf + if offset + |buf| < |s| then s[offset + |buf|..] else []
  }

  lemma WriteForm(v: Volume, n: nat, buf: seq<Byte>, offset: nat)
    requires Inv(v) && n < |v.inodes| && offset + |buf| <= REACH * BLOCK && !Write(v, n, buf, offset).full
    ensures var w := WriteLoop(v, n, buf, offset); var r := Write(v, n, buf, offset);
            !w.full && Inv(w) && Inv(r) && |w.inodes| == |r.inodes| == |v.inodes| && r.blocks == w.blocks
            && (forall m | 0 <= m < |v.inodes| :: r.inodes[m].zone == w.inodes[m].zone
                  && r.inodes[m].size == if m == n && offset + |buf| > v.inodes[m].size then offset + |buf|
                    else v.inodes[m].size)
  {
    hide ByteAt; hide WriteLoop; hide Value;
    forall m | 0 <= m < |v.inodes|
      ensures var w := WriteLoop(v, n, buf, offset);
              Inv(w) && |w.inodes| == |v.inodes| && w.inodes[m].size == v.inodes[m].size {
      LoopByte(v, n, buf, offset, m, 0);
    }
    SizeInv(WriteLoop(v, n, buf, offset), n, Write(v, n, buf, offset).inodes[n].size);
  }

  lemma SizeInv(w: Volume, n: nat, size: nat)
    requires Inv(w) && n < |w.inodes|
    ensures Inv(w.(inodes := w.inodes[n := w.inodes[n].(size := size)]))
  {
    hide Blank;
    var r := w.(inodes := w.inodes[n := w.inodes[n].(size := size)]);
    forall m, t | Names(r, m, t) ensures Names(w, m, t) && Value(w, m, t) == Value(r, m, t) {
      SizeValue(w, r, n, m, t);
    }
  }

  lemma SizeValue(w: Volume, r: Volume, n: nat, m: nat, t: Slot)
    requires r.blocks == w.blocks && |r.inodes| == |w.inodes| && m < |w.inodes| && r.inodes[m].zone == w.inodes[m].zone
    requires |w.inodes[m].zone| == 9 && Proper(t)
    ensures Value(r, m, t) == Value(w, m, t)
  {
    hide EntryAt;
    SameEntries(w, r);
  }

  lemma SameBytes(w: Volume, r: Volume, m: nat, o: nat)
    requires r.blocks == w.blocks && |r.inodes| == |w.inodes| && m < |w.inodes| && r.inodes[m].zone == w.inodes[m].zone
    requires |w.inodes[m].zone| == 9
    requires o < REACH * BLOCK
    ensures ByteAt(r, m, o) == ByteAt(w, m, o)
  {
    hide Value;
    SlotExact(o / BLOCK, 0);
    SizeValue(w, r, 0, m, SlotOf(o / BLOCK));
  }

  lemma SameHas(w: Volume, r: Volume, m: nat, b: nat)
    requires r.blocks == w.blocks && |r.inodes| == |w.inodes| && m < |w.inodes| && r.inodes[m].zone == w.inodes[m].zone
    requires |w.inodes[m].zone| == 9
    ensures HasBlock(r, m, b) == HasBlock(w, m, b)
  {
    hide Value;
    SlotExact(b, 0);
    if b < REACH {
      SizeValue(w, r, 0, m, SlotOf(b));
    }
  }

  /** inode_write within or right at the end of a whole file: the bytes are spliced in, the file stays whole. */
  lemma WriteSplices(v: Volume, n: nat, buf: seq<Byte>, offset: nat)
    requires Inv(v) && n < |v.inodes| && |v.inodes[n].zone| == 9 && Whole(v, n) && offset <= v.inodes[n].size
    requires offset + |buf| <= REACH * BLOCK && !Write(v, n, buf, offset).full
    ensures var r := Write(v, n, buf, offset);
            Inv(r) && n < |r.inodes| && |r.inodes[n].zone| == 9 && Whole(r, n)
            && Content(r, n) == Splice(Content(v, n), offset, buf)
  {
    hide Value; hide ByteAt; hide HasBlock; hide WriteLoop; hide Inv; hide Write;
    InvShape(v);
    WriteForm(v, n, buf, offset);
    var w, r := WriteLoop(v, n, buf, offset), Write(v, n, buf, offset);
    InvFacts(w, n);
    forall b | 0 <= b && b * BLOCK < r.inodes[n].size ensures HasBlock(r, n, b) {
      Below(offset, |buf|, v.inodes[n].size, b);
      LoopBlock(v, n, buf, offset, n, b);
      SameHas(w, r, n, b);
    }
    forall o | 0 <= o < r.inodes[n].size ensures Content(r, n)[o] == Splice(Content(v, n), offset, buf)[o] {
      LoopByte(v, n, buf, offset, n, o);
      SameBytes(w, r, n, o);
    }
  }

  lemma Below(offset: nat, len: nat, size: nat, b: nat)
    requires b * BLOCK < size || b * BLOCK < offset + len
    requires offset <= size
    ensures b * BLOCK < size || (offset / BLOCK <= b && b * BLOCK < offset + len)
  {
  }

  /** Every block between the end of the file and `offset` is there already, or the write itself brings it. */
  ghost predicate NoGap(v: Volume, n: nat, offset: nat, len: nat)
    requires n < |v.inodes|
  {
    forall b: nat | v.inodes[n].size <= b * BLOCK < offset :: HasBlock(v, n, b) || Touches(offset, len, b)
  }

  /** A write that starts past the end leaves the file whole, and so readable, exactly when no block in between stays
      without a zone. */
  lemma WholeExact(v: Volume, n: nat, buf: seq<Byte>, offset: nat)
    requires Inv(v) && n < |v.inodes| && |v.inodes[n].zone| == 9 && Whole(v, n)
    requires offset + |buf| <= REACH * BLOCK && !Write(v, n, buf, offset).full
    ensures var r := Write(v, n, buf, offset);
            Inv(r) && n < |r.inodes| && |r.inodes[n].zone| == 9 && (Whole(r, n) <==> NoGap(v, n, offset, |buf|))
  {
    hide Value; hide ByteAt; hide HasBlock; hide WriteLoop; hide Inv; hide Write;
    InvShape(v);
    WriteForm(v, n, buf, offset);
    var w, r := WriteLoop(v, n, buf, offset), Write(v, n, buf, offset);
    InvFacts(w, n);
    forall b: nat ensures HasBlock(r, n, b) <==> HasBlock(v, n, b) || Touches(offset, |buf|, b) {
      LoopBlock(v, n, buf, offset, n, b);
      SameHas(w, r, n, b);
    }
    forall b: nat | offset <= b * BLOCK < offset + |buf| ensures Touches(offset, |buf|, b) {
    }
  }

  /** Other files are left alone. */
  lemma OtherFiles(v: Volume, n: nat, buf: seq<Byte>, offset: nat, m: nat)
    requires Inv(v) && n < |v.inodes| && m < |v.inodes| && m != n && |v.inodes[m].zone| == 9 && Whole(v, m)
    requires offset + |buf| <= REACH * BLOCK && !Write(v, n, buf, offset).full
    ensures var r := Write(v, n, buf, offset);
            m < |r.inodes| && |r.inodes[m].zone| == 9 && Whole(r, m) && Content(r, m) == Content(v, m)
  {
    hide Value; hide ByteAt; hide HasBlock; hide WriteLoop; hide Inv; hide Write;
    InvShape(v);
    WriteForm(v, n, buf, offset);
    var w, r := WriteLoop(v, n, buf, offset), Write(v, n, buf, offset);
    InvFacts(w, m);
    forall b | 0 <= b && b * BLOCK < r.inodes[m].size ensures HasBlock(r, m, b) {
      LoopBlock(v, n, buf, offset, m, b);
      SameHas(w, r, m, b);
    }
    forall o | 0 <= o < r.inodes[m].size ensures Content(r, m)[o] == Content(v, m)[o] {
      LoopByte(v, n, buf, offset, m, o);
      SameBytes(w, r, m, o);
    }
  }

  // ---- where the bytes are on the device ----

  /** Byte `o` of file `n` is byte `o % 1024` of the block that holds its logical block. */
  ghost predicate Lies(v: Volume, n: nat, o: nat, x: Byte)
    requires n < |v.inodes| && |v.inodes[n].zone| == 9 && o < 262656 * 1024
  {
    var z := ZoneAt(v, n, o / 1024);
    0 < z < |v.blocks| && |v.blocks[z]| == 1024 && v.blocks[z][o % 1024] == x
  }

  lemma LiesExact(v: Volume, n: nat, o: nat)
    requires Inv(v) && n < |v.inodes| && o < 262656 * 1024
    ensures |v.inodes[n].zone| == 9
    ensures HasBlock(v, n, o / 1024) <==> ZoneAt(v, n, o / 1024) != 0
    ensures HasBlock(v, n, o / 1024) ==> Lies(v, n, o, ByteAt(v, n, o))
  {
    hide Value; hide Inv; hide ByteAt; hide ZoneAt; hide Leaf;
    ByteForm(v, n, o);
    ZoneExact(v, n, o / 1024);
  }

  lemma GrownStays(v: Volume, w: Volume, n: nat, s: Slot, m: nat, t: Slot)
    requires Inv(v) && Grown(v, w, n, s) && m < |v.inodes| && Proper(t)
    ensures |v.inodes[m].zone| == 9 && m < |w.inodes| && |w.inodes[m].zone| == 9
    ensures Value(v, m, t) != 0 ==> Value(w, m, t) == Value(v, m, t)
  {
    hide Value;
  }

  lemma {:induction false} LoopStays(v: Volume, n: nat, buf: seq<Byte>, offset: nat, m: nat, t: Slot)
    requires Inv(v) && n < |v.inodes| && m < |v.inodes| && Proper(t) && offset + |buf| <= REACH * BLOCK
    requires !WriteLoop(v, n, buf, offset).full
    ensures var r := WriteLoop(v, n, buf, offset);
            Inv(r) && m < |r.inodes| && |v.inodes[m].zone| == |r.inodes[m].zone| == 9
            && (Value(v, m, t) != 0 ==> Value(r, m, t) == Value(v, m, t))
    decreases |buf|
  {
    hide Value; hide Leaf; hide Ensure; hide Store; hide Names; hide Inv; hide Grown; hide Chars; hide HasBlock;
    InvFacts(v, m);
    if buf == [] {
      LoopDone(v, n, offset);
    } else {
      LoopStep(v, n, buf, offset);
      BlockBelow(offset, |buf|);
      var s, c := SlotOf(offset / BLOCK), Chars(offset, |buf|);
      var w := Ensure(v, n, s);
      var x := Store(w, Value(w, n, s), offset, buf);
      GrownStays(v, w, n, s, m, t);
      StoreForm(w, n, buf, offset);
      StoreValue(w, x, n, s, m, t);
      LoopStays(x, n, buf[c..], offset + c, m, t);
    }
  }

  /** After a write every zone number that was in the file, and in every other file, is where it was; the bytes
      written lie in the blocks the layout gives for their places, and the size is the larger of the old one and the
      end of the write. */
  lemma WriteLands(v: Volume, n: nat, buf: seq<Byte>, offset: nat, m: nat, b: nat, i: nat)
    requires Inv(v) && n < |v.inodes| && m < |v.inodes| && b < 262656 && i < |buf|
    requires offset + |buf| <= 262656 * 1024 && !Write(v, n, buf, offset).full
    ensures var r := Write(v, n, buf, offset);
            && Inv(r) && |r.inodes| == |v.inodes| && |r.inodes[n].zone| == 9
            && |v.inodes[m].zone| == |r.inodes[m].zone| == 9
            && (ZoneAt(v, m, b) != 0 ==> ZoneAt(r, m, b) == ZoneAt(v, m, b))
            && Lies(r, n, offset + i, buf[i])
            && r.inodes[n].size == (if offset + |buf| > v.inodes[n].size then offset + |buf| else v.inodes[n].size)
            && (m != n ==> r.inodes[m].size == v.inodes[m].size)
  {
    hide Value; hide ByteAt; hide HasBlock; hide WriteLoop; hide Inv; hide Write; hide ZoneAt; hide Lies;
    InvFacts(v, m);
    WriteForm(v, n, buf, offset);
    var w, r, o := WriteLoop(v, n, buf, offset), Write(v, n, buf, offset), offset + i;
    InvFacts(r, m);
    InvFacts(r, n);
    InvFacts(w, m);
    InvFacts(w, n);
    ZoneExact(v, m, b);
    ZoneExact(r, m, b);
    LoopStays(v, n, buf, offset, m, SlotOf(b));
    SizeValue(w, r, n, m, SlotOf(b));
    LoopByte(v, n, buf, offset, n, o);
    SameBytes(w, r, n, o);
    LoopBlock(v, n, buf, offset, n, o / 1024);
    SameHas(w, r, n, o / 1024);
    LiesExact(r, n, o);
  }

  // ---- enough room ----

  /** How many blocks a request touches. */
  function Turns(offset: nat, left: nat): nat
    decreases left
  {
    if left == 0 then 0 else 1 + Turns(offset + Chars(offset, left), left - Chars(offset, left))
  }

  lemma {:induction false} TurnsCount(offset: nat, left: nat)
    requires left > 0
    ensures Turns(offset, left) == (offset + left - 1) / BLOCK - offset / BLOCK + 1
    decreases left
  {
    var c := Chars(offset, left);
    if c < left {
      TurnsCount(offset + c, left - c);
    }
  }

  /** Three free zones for each block touched are enough for a write to succeed. */
  lemma {:induction false} WriteEnough(v: Volume, n: nat, buf: seq<Byte>, offset: nat)
    requires Inv(v) && n < |v.inodes| && offset + |buf| <= REACH * BLOCK
    requires FreeZones(v.used) >= 3 * Turns(offset, |buf|)
    ensures !WriteLoop(v, n, buf, offset).full && !Write(v, n, buf, offset).full
    decreases |buf|
  {
    hide Value; hide Leaf; hide Inv; hide FreeZones; hide Ensure; hide Store; hide Names; hide Chars;
    InvFacts(v, n);
    if buf != [] {
      SlotExact(offset / BLOCK, 0);
      var s, c := SlotOf(offset / BLOCK), Chars(offset, |buf|);
      DepthAtMostTwo(s);
      EnsureEnough(v, n, s);
      EnsureCorrect(v, n, s);
      var w := Ensure(v, n, s);
      GrownSize(v, w, n, s, n);
      InvFacts(w, n);
      StoreByte(w, n, buf, offset, n, offset);
      var x := Store(w, Value(w, n, s), offset, buf);
      StoreUsed(w, Value(w, n, s), offset, buf);
      WriteEnough(x, n, buf[c..], offset + c);
    }
  }

  lemma DepthAtMostTwo(s: Slot)
    ensures Depth(s) <= 2
  {
  }

  lemma StoreUsed(w: Volume, z: nat, offset: nat, buf: seq<Byte>)
    ensures Store(w, z, offset, buf).used == w.used
  {
  }

  // ---- any sequence of writes to any files ----

  datatype Put = Put(n: nat, buf: seq<Byte>, offset: nat)

  ghost predicate AllWhole(v: Volume) {
    forall m | 0 <= m < |v.inodes| :: |v.inodes[m].zone| == 9 && Whole(v, m)
  }

  ghost function Files(v: Volume): (f: seq<seq<Byte>>)
    requires AllWhole(v)
    ensures |f| == |v.inodes|
  {
    seq(|v.inodes|, m requires 0 <= m < |v.inodes| => Content(v, m))
  }

  /** The write starts inside the file or at its end, bmap can place its blocks, and the zones last. */
  ghost predicate Fits(v: Volume, p: Put)
    requires Inv(v) && AllWhole(v)
  {
    p.n < |v.inodes| && p.offset <= v.inodes[p.n].size && p.offset + |p.buf| <= REACH * BLOCK
    && (InvShape(v); !Write(v, p.n, p.buf, p.offset).full)
  }

  lemma PutCorrect(v: Volume, p: Put)
    requires Inv(v) && AllWhole(v) && Fits(v, p)
    ensures Shape(v)
    ensures var r := Write(v, p.n, p.buf, p.offset);
            Inv(r) && AllWhole(r) && |r.inodes| == |v.inodes|
              && Files(r) == Files(v)[p.n := Splice(Files(v)[p.n], p.offset, p.buf)]
  {
    hide Value; hide ByteAt; hide HasBlock; hide WriteLoop; hide Inv; hide Write; hide Whole; hide Splice;
    InvShape(v);
    WriteForm(v, p.n, p.buf, p.offset);
    WriteSplices(v, p.n, p.buf, p.offset);
    forall m | 0 <= m < |v.inodes| && m != p.n
      ensures var r := Write(v, p.n, p.buf, p.offset);
              m < |r.inodes| && |r.inodes[m].zone| == 9 && Whole(r, m) && r.inodes[m].size <= REACH * BLOCK
                && Content(r, m) == Files(v)[m]
    {
      OtherFiles(v, p.n, p.buf, p.offset, m);
      WholeFits(Write(v, p.n, p.buf, p.offset), m);
    }
    WholeFits(Write(v, p.n, p.buf, p.offset), p.n);
    assert AllWhole(Write(v, p.n, p.buf, p.offset));
    assert Files(Write(v, p.n, p.buf, p.offset)) == Files(v)[p.n := Splice(Files(v)[p.n], p.offset, p.buf)];
  }

  lemma WholeFits(v: Volume, m: nat)
    requires m < |v.inodes| && |v.inodes[m].zone| == 9 && Whole(v, m)
    ensures v.inodes[m].size <= REACH * BLOCK
  {
  }

  ghost predicate AllFit(v: Volume, puts: seq<Put>)
    requires Inv(v) && AllWhole(v)
    decreases |puts|
  {
    puts == [] ||
    (Fits(v, puts[0]) && (PutCorrect(v, puts[0]); AllFit(Write(v, puts[0].n, puts[0].buf, puts[0].offset), puts[1..])))
  }

  ghost function WriteAll(v: Volume, puts: seq<Put>): (r: Volume)
    requires Inv(v) && AllWhole(v) && AllFit(v, puts)
    ensures Inv(r) && AllWhole(r) && |r.inodes| == |v.inodes|
    decreases |puts|
  {
    if puts == [] then v else
      PutCorrect(v, puts[0]);
      WriteAll(Write(v, puts[0].n, puts[0].buf, puts[0].offset), puts[1..])
  }

  /** The same writes on plain byte arrays. */
  function Flat(files: seq<seq<Byte>>, puts: seq<Put>): seq<seq<Byte>>
    decreases |puts|
  {
    if puts == [] then files
    else
      var p := puts[0];
      var spliced := if p.n < |files| && p.offset <= |files[p.n]|
                     then files[p.n := Splice(files[p.n], p.offset, p.buf)] else files;
      Flat(spliced, puts[1..])
  }

  /** However writes to different files alternate and share zones, the files are separate flat arrays of bytes. */
  lemma {:induction false} FilesAreArrays(v: Volume, puts: seq<Put>)
    requires Inv(v) && AllWhole(v) && AllFit(v, puts)
    ensures Files(WriteAll(v, puts)) == Flat(Files(v), puts)
    decreases |puts|
  {
    hide Inv; hide Write; hide Whole; hide Splice; hide ByteAt;
    if puts != [] {
      PutCorrect(v, puts[0]);
      FilesAreArrays(Write(v, puts[0].n, puts[0].buf, puts[0].offset), puts[1..]);
    }
  }
}
