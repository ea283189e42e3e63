/** Where a file's blocks are (src/fs/bmap.c): nine zone numbers in the inode, of which the eighth and the ninth name
    blocks of 512 little-endian 16-bit zone numbers, one and two levels deep. The blocks are those the buffer cache
    shows. */
module Zones {
  const BLOCK: nat := 1024
  const INDEXES: nat := 512
  const DIRECT: nat := 7
  const TOTAL: nat := 262663       // TOTAL_BLOCK
  const REACH: nat := 262656       // the logical blocks that bmap can place
  const BITS: nat := 65536         // bits in the eight zone-map blocks

  type Byte = b: nat | b < 256

  /** `size` is the file's length in bytes. */
  datatype Inode = Inode(zone: seq<nat>, size: nat)

  /** The device: block contents by zone number, the zone map (bit `i` stands for zone `first - 1 + i`), the inodes.
      `full` is set when balloc finds no free zone. */
  datatype Volume = Volume(blocks: seq<seq<Byte>>, used: seq<bool>, first: nat, inodes: seq<Inode>, full: bool)

  // ---- index blocks ----

  function Word(block: seq<Byte>, i: nat): (w: nat)
    requires |block| == BLOCK && i < INDEXES
    ensures w < 65536
  {
    var low: nat, high: nat := block[2 * i], block[2 * i + 1];
    low + 256 * high
  }

  function SetWord(block: seq<Byte>, i: nat, w: nat): (r: seq<Byte>)
    requires |block| == BLOCK && i < INDEXES && w < 65536
    ensures |r| == BLOCK
  {
    block[2 * i := w % 256][2 * i + 1 := w / 256]
  }

  lemma WordSet(block: seq<Byte>, i: nat, w: nat, j: nat)
    requires |block| == BLOCK && i < INDEXES && j < INDEXES && w < 65536
    ensures Word(SetWord(block, i, w), j) == if i == j then w else Word(block, j)
  {
  }

  function Blank(): (b: seq<Byte>)
    ensures |b| == BLOCK && forall i | 0 <= i < BLOCK :: b[i] == 0
  {
    seq(BLOCK, i => 0)
  }

  // ---- slots ----

  /** The places that hold a zone number: in the inode, in the single indirect block, in the double indirect block,
      and in a block named by the latter. */
  datatype Slot = Top(k: nat) | Single(i: nat) | Middle(i: nat) | Double(i: nat, j: nat)

  predicate Proper(s: Slot) {
    match s
    case Top(k) => k < 9
    case Single(i) => i < INDEXES
    case Middle(i) => i < INDEXES
    case Double(i, j) => i < INDEXES && j < INDEXES
  }

  /** The slot that names the block in which `s` lies. */
  function Parent(s: Slot): Slot
    requires !s.Top?
  {
    match s
    case Single(_) => Top(DIRECT)
    case Middle(_) => Top(DIRECT + 1)
    case Double(i, _) => Middle(i)
  }

  function LastIndex(s: Slot): nat
    requires !s.Top?
  {
    match s
    case Single(i) => i
    case Middle(i) => i
    case Double(_, j) => j
  }

  /** A slot whose zone is a data block of the file. */
  predicate Leaf(s: Slot) {
    match s
    case Top(k) => k < DIRECT
    case Single(_) => true
    case Middle(_) => false
    case Double(_, _) => true
  }

  /** bmap's choice of level, with the subtraction of 512 on the double indirect path. */
  function SlotOf(b: nat): Slot {
    if b < DIRECT then Top(b)
    else if b < DIRECT + INDEXES then Single(b - DIRECT)
    else Double((b - INDEXES) / INDEXES, (b - INDEXES) % INDEXES)
  }

  /** Different blocks get different slots, and the slot exists exactly below REACH, seven short of TOTAL_BLOCK. */
  lemma SlotExact(b: nat, c: nat)
    ensures Proper(SlotOf(b)) <==> b < REACH
    ensures Leaf(SlotOf(b))
    ensures SlotOf(b) == SlotOf(c) ==> b == c
  {
  }

  /** The last seven blocks that bmap's assertion lets through fall off the end of the double indirect block. */
  lemma LastSevenMisplaced(b: nat)
    requires b < TOTAL
    ensures !Proper(SlotOf(b)) <==> TOTAL - 7 <= b
    ensures !Proper(SlotOf(b)) ==> SlotOf(b) == Double(INDEXES, b - REACH)
  {
  }

  // ---- values ----

  ghost predicate Shape(v: Volume) {
    && |v.blocks| <= 65536 && 1 <= v.first && |v.used| == BITS && !v.full
    && (forall z | 0 <= z < |v.blocks| :: |v.blocks[z]| == BLOCK)
    && (forall n | 0 <= n < |v.inodes| :: |v.inodes[n].zone| == 9 && forall k | 0 <= k < 9 ::
      v.inodes[n].zone[k] < 65536)
  }

  function EntryAt(v: Volume, z: nat, i: nat): (w: nat)
    requires i < INDEXES
    ensures w < 65536
  {
    if 0 < z < |v.blocks| && |v.blocks[z]| == BLOCK then Word(v.blocks[z], i) else 0
  }

  /** The zone number in a slot of file `n`; 0 where there is none. */
  function Value(v: Volume, n: nat, s: Slot): (z: nat)
    requires n < |v.inodes| && |v.inodes[n].zone| == 9 && Proper(s)
  {
    match s
    case Top(k) => v.inodes[n].zone[k]
    case Single(i) => EntryAt(v, v.inodes[n].zone[DIRECT], i)
    case Middle(i) => EntryAt(v, v.inodes[n].zone[DIRECT + 1], i)
    case Double(i, j) => EntryAt(v, EntryAt(v, v.inodes[n].zone[DIRECT + 1], i), j)
  }

  lemma ValueInParent(v: Volume, n: nat, s: Slot)
    requires n < |v.inodes| && |v.inodes[n].zone| == 9 && Proper(s) && !s.Top?
    ensures Proper(Parent(s)) && LastIndex(s) < INDEXES
    ensures Value(v, n, s) == EntryAt(v, Value(v, n, Parent(s)), LastIndex(s))
  {
  }

  // ---- the layout on the device ----

  /** Number `i` in block `z`, low byte first; 0 where `z` names no block. */
  function NumberIn(v: Volume, z: nat, i: nat): nat
    requires i < 512
  {
    if 0 < z < |v.blocks| && |v.blocks[z]| == 1024 then
      var low: nat, high: nat := v.blocks[z][2 * i], v.blocks[z][2 * i + 1];
      low + 256 * high
    else 0
  }

  /** The zone of logical block `b` of file `n` as it is laid out on the device: seven in the inode, 512 in the block
      that the eighth zone names, and from block 519 on those in the blocks named by the block of the ninth; the
      first seven places of these are never used. */
  function ZoneAt(v: Volume, n: nat, b: nat): nat
    requires n < |v.inodes| && |v.inodes[n].zone| == 9 && b < 262656
  {
    var zone := v.inodes[n].zone;
    if b < 7 then zone[b]
    else if b < 519 then NumberIn(v, zone[7], b - 7)
    else NumberIn(v, NumberIn(v, zone[8], (b - 512) / 512), (b - 512) % 512)
  }

  /** The slot that bmap chooses is the one of the layout. */
  lemma ZoneExact(v: Volume, n: nat, b: nat)
    requires n < |v.inodes| && |v.inodes[n].zone| == 9 && b < 262656
    ensures Proper(SlotOf(b)) && Value(v, n, SlotOf(b)) == ZoneAt(v, n, b)
  {
    forall z: nat, i: nat | i < 512 ensures EntryAt(v, z, i) == NumberIn(v, z, i) {
    }
  }

  /** A zone that some slot names. */
  ghost predicate Names(v: Volume, n: nat, s: Slot)
    requires Shape(v)
  {
    n < |v.inodes| && Proper(s) && Value(v, n, s) != 0
  }

  /** Every zone in use by a file is on the device, marked in the zone map, and named by one slot only; a free zone
      reads as zeros; the map's bits outside the data area are set. */
  ghost predicate Inv(v: Volume) {
    && Shape(v)
    && (forall n, s | Names(v, n, s) :: InUse(v, Value(v, n, s)))
    && (forall n, s, m, t | Names(v, n, s) && Names(v, m, t) && Value(v, n, s) == Value(v, m, t) :: n == m && s == t)
    && (forall i | 0 <= i < BITS && !v.used[i] ::
      i > 0 && v.first - 1 + i < |v.blocks| && v.blocks[v.first - 1 + i] == Blank())
  }

  predicate InUse(v: Volume, z: nat)
    requires |v.used| == BITS
  {
    v.first <= z < |v.blocks| && z - v.first + 1 < BITS && v.used[z - v.first + 1]
  }

  // ---- allocation ----

  function FirstFree(used: seq<bool>, i: nat): (r: nat)
    requires i <= |used|
    ensures i <= r <= |used|
    ensures r < |used| ==> !used[r]
    ensures forall j | i <= j < r :: used[j]
    decreases |used| - i
  {
    if i == |used| || !used[i] then i else FirstFree(used, i + 1)
  }

  /** Writes a zone number into a slot whose block exists. */
  function SetValue(v: Volume, n: nat, s: Slot, z: nat): Volume
    requires n < |v.inodes| && |v.inodes[n].zone| == 9 && Proper(s) && z < 65536
  {
    match s
    case Top(k) => v.(inodes := v.inodes[n := v.inodes[n].(zone := v.inodes[n].zone[k := z])])
    case _ =>
      ValueInParent(v, n, s);
      var p := Value(v, n, Parent(s));
      if 0 < p < |v.blocks|
        && |v.blocks[p]| == BLOCK then v.(blocks := v.blocks[p := SetWord(v.blocks[p], LastIndex(s), z)]) else v
  }

  /** balloc into a slot. */
  function Fill(v: Volume, n: nat, s: Slot): Volume
    requires n < |v.inodes| && |v.inodes[n].zone| == 9 && Proper(s) && |v.used| == BITS
  {
    var i := FirstFree(v.used, 0);
    if i == BITS || v.first == 0 || v.first - 1 + i >= 65536 then v.(full := true)
    else SetValue(v.(used := v.used[i := true]), n, s, v.first - 1 + i)
  }

  function Depth(s: Slot): nat {
    match s
    case Top(_) => 0
    case Single(_) => 1
    case Middle(_) => 1
    case Double(_, _) => 2
  }

  lemma FillKeepsShape(v: Volume, n: nat, s: Slot)
    requires Shape(v) && n < |v.inodes| && Proper(s)
    ensures var r := Fill(v, n, s); r.full || (Shape(r) && |r.inodes| == |v.inodes|)
  {
    hide FirstFree; hide Word; hide SetWord; hide EntryAt;
  }

  lemma ShapeZones(v: Volume, n: nat)
    requires Shape(v) && n < |v.inodes|
    ensures |v.inodes[n].zone| == 9 && |v.used| == BITS && !v.full
  {
  }

  lemma ParentProper(s: Slot)
    requires Proper(s) && !s.Top?
    ensures Proper(Parent(s)) && Depth(Parent(s)) < Depth(s)
  {
  }

  /** reckon with `create`: the slots on the way are filled from the inode downwards. */
  function Ensure(v: Volume, n: nat, s: Slot): (r: Volume)
    requires Shape(v) && n < |v.inodes| && Proper(s)
    ensures r.full || (Shape(r) && |r.inodes| == |v.inodes|)
    decreases Depth(s)
  {
    hide Shape; hide Fill; hide Value; hide Proper; hide Parent; hide Depth;
    ShapeZones(v, n);
    var w := if s.Top? then v else (ParentProper(s); Ensure(v, n, Parent(s)));
    if !w.full then ShapeZones(w, n); FillKeepsShape(w, n, s); if Value(w, n, s) != 0 then w else Fill(w, n, s)
    else w
  }

  // ---- what one allocation changes ----

  lemma OneSlot(v: Volume, n: nat, s: Slot, m: nat, t: Slot)
    requires Inv(v) && Names(v, n, s) && Names(v, m, t) && Value(v, n, s) == Value(v, m, t)
    ensures n == m && s == t
  {
  }

  lemma OnDevice(v: Volume, n: nat, s: Slot)
    requires Inv(v) && Names(v, n, s)
    ensures InUse(v, Value(v, n, s)) && 0 < Value(v, n, s) < |v.blocks| && |v.blocks[Value(v, n, s)]| == BLOCK
  {
  }

  /** One word of one index block changes. */
  lemma EntrySet(v: Volume, p: nat, i: nat, w: nat, q: nat, j: nat)
    requires 0 < p < |v.blocks| && |v.blocks[p]| == BLOCK && i < INDEXES && j < INDEXES && w < 65536
    ensures EntryAt(v.(blocks := v.blocks[p := SetWord(v.blocks[p], i, w)]), q, j) == if q == p && j == i then w
            else EntryAt(v, q, j)
  {
    WordSet(v.blocks[p], i, w, j);
  }

  /** The zone balloc takes: free until now, so blank and named by nobody. */
  lemma NewZone(v: Volume)
    requires Inv(v) && FirstFree(v.used, 0) < BITS
    ensures var z := v.first - 1 + FirstFree(v.used, 0);
            v.first <= z < |v.blocks| && v.blocks[z] == Blank() && (forall n, s | Names(v, n, s) :: Value(v, n, s) != z)
            && forall i | 0 <= i < INDEXES :: EntryAt(v, z, i) == 0
  {
    var i := FirstFree(v.used, 0);
    var z := v.first - 1 + i;
    forall n, s | Names(v, n, s) ensures Value(v, n, s) != z {
      OnDevice(v, n, s);
    }
    forall i | 0 <= i < INDEXES ensures EntryAt(v, z, i) == 0 {
      assert Blank()[2 * i] == 0 && Blank()[2 * i + 1] == 0;
    }
  }

  lemma NoBlock(v: Volume, i: nat)
    requires i < INDEXES
    ensures EntryAt(v, 0, i) == 0
  {
  }

  /** A slot whose block exists and that is still empty. */
  ghost predicate Vacant(v: Volume, n: nat, s: Slot)
    requires Shape(v)
  {
    n < |v.inodes| && Proper(s) && Value(v, n, s) == 0 && (!s.Top? ==> Value(v, n, Parent(s)) != 0)
  }

  lemma FillForm(v: Volume, n: nat, s: Slot)
    requires Inv(v) && Vacant(v, n, s) && !Fill(v, n, s).full
    ensures FirstFree(v.used, 0) < BITS
    ensures var i := FirstFree(v.used, 0); var z := v.first - 1 + i; var f := Fill(v, n, s);
            f.first == v.first && f.used == v.used[i := true] && !f.full && z < 65536
            && (if s.Top? then f.blocks == v.blocks
              && f.inodes == v.inodes[n := v.inodes[n].(zone := v.inodes[n].zone[s.k := z])]
                else f.inodes == v.inodes
                     && var p := Value(v, n, Parent(s));
                        0 < p < |v.blocks| && |v.blocks[p]| == BLOCK
                          && f.blocks == v.blocks[p := SetWord(v.blocks[p], LastIndex(s), z)])
  {
    if !s.Top? {
      OnDevice(v, n, Parent(s));
      ValueInParent(v, n, s);
    }
  }

  lemma FillTop(v: Volume, n: nat, k: nat, m: nat, t: Slot)
    requires Inv(v) && Vacant(v, n, Top(k)) && !Fill(v, n, Top(k)).full && m < |v.inodes| && Proper(t)
    requires Shape(Fill(v, n, Top(k)))
    ensures Value(Fill(v, n, Top(k)), m, t) == if m == n && t == Top(k) then v.first - 1 + FirstFree(v.used, 0)
            else Value(v, m, t)
  {
    hide Fill; hide Word; hide FirstFree; hide Blank;
    FillForm(v, n, Top(k));
    NewZone(v);
    var f, z := Fill(v, n, Top(k)), v.first - 1 + FirstFree(v.used, 0);
    SameEntries(v, f);
  }

  lemma SameEntries(v: Volume, f: Volume)
    requires f.blocks == v.blocks
    ensures forall q: nat, i: nat | i < INDEXES :: EntryAt(f, q, i) == EntryAt(v, q, i)
  {
  }

  lemma FillDeep(v: Volume, n: nat, s: Slot, m: nat, t: Slot)
    requires Inv(v) && Vacant(v, n, s) && !s.Top? && !Fill(v, n, s).full && m < |v.inodes| && Proper(t)
    requires Shape(Fill(v, n, s))
    ensures Value(Fill(v, n, s), m, t) == if m == n && t == s then v.first - 1 + FirstFree(v.used, 0)
            else Value(v, m, t)
  {
    hide Fill; hide Word; hide FirstFree; hide Blank; hide EntryAt; hide SetWord; hide Inv;
    InvShape(v);
    FillForm(v, n, s);
    NewZone(v);
    var f, z, p := Fill(v, n, s), v.first - 1 + FirstFree(v.used, 0), Value(v, n, Parent(s));
    assert Names(v, n, Parent(s));
    forall q: nat, j: nat | j < INDEXES
      ensures EntryAt(f, q, j) == if q == p && j == LastIndex(s) then z else EntryAt(v, q, j)
    {
      EntrySet(v, p, LastIndex(s), z, q, j);
      SameBlocks(v.(blocks := f.blocks), f, q, j);
    }
    ValueInParent(v, n, s);
    if !t.Top? {
      if Value(v, m, Parent(t)) == p {
        assert Names(v, m, Parent(t));
        OneSlot(v, n, Parent(s), m, Parent(t));
      }
      ValueInParent(v, m, t);
      if t.Double? && Value(v, m, Top(DIRECT + 1)) == p {
        assert Names(v, m, Top(DIRECT + 1));
        OneSlot(v, n, Parent(s), m, Top(DIRECT + 1));
        NoBlock(v, t.j);
        assert z != p;
        assert EntryAt(f, z, t.j) == 0;
      }
    }
  }

  lemma InvShape(v: Volume)
    requires Inv(v)
    ensures Shape(v)
  {
  }

  lemma SameBlocks(v: Volume, f: Volume, q: nat, j: nat)
    requires f.blocks == v.blocks && j < INDEXES
    ensures EntryAt(f, q, j) == EntryAt(v, q, j)
  {
  }

  lemma FillShape(v: Volume, n: nat, s: Slot)
    requires Inv(v) && Vacant(v, n, s) && !Fill(v, n, s).full
    ensures Shape(Fill(v, n, s))
  {
    hide Fill; hide FirstFree; hide SetWord;
    FillForm(v, n, s);
  }

  lemma FillValue(v: Volume, n: nat, s: Slot, m: nat, t: Slot)
    requires Inv(v) && Vacant(v, n, s) && !Fill(v, n, s).full && m < |v.inodes| && Proper(t)
    ensures Shape(Fill(v, n, s)) && m < |Fill(v, n, s).inodes|
    ensures Value(Fill(v, n, s), m, t) == if m == n && t == s then v.first - 1 + FirstFree(v.used, 0)
            else Value(v, m, t)
  {
    hide Fill; hide Value; hide FirstFree; hide Inv;
    FillShape(v, n, s);
    FillForm(v, n, s);
    match s
    case Top(k) => FillTop(v, n, k, m, t);
    case _ => FillDeep(v, n, s, m, t);
  }

  /** Allocating into a slot keeps all zones apart and marked. */
  lemma FillInv(v: Volume, n: nat, s: Slot)
    requires Inv(v) && Vacant(v, n, s) && !Fill(v, n, s).full
    ensures Inv(Fill(v, n, s))
  {
    hide Fill; hide Value; hide FirstFree; hide Blank;
    FillShape(v, n, s);
    FillForm(v, n, s);
    NewZone(v);
    var f, i := Fill(v, n, s), FirstFree(v.used, 0);
    forall m, t | Names(f, m, t) ensures InUse(f, Value(f, m, t)) && ((m == n && t == s) || Names(v, m, t)) {
      FillValue(v, n, s, m, t);
    }
    forall m, t, k, u | Names(f, m, t) && Names(f, k, u) && Value(f, m, t) == Value(f, k, u) ensures m == k && t == u {
      FillValue(v, n, s, m, t);
      FillValue(v, n, s, k, u);
    }
    forall j | 0 <= j < BITS && !f.used[j]
      ensures j > 0 && f.first - 1 + j < |f.blocks| && f.blocks[f.first - 1 + j] == Blank() {
      if !s.Top? {
        assert Names(v, n, Parent(s));
        OnDevice(v, n, Parent(s));
      }
    }
  }

  /** Blocks other than the index block written stay as they are. */
  lemma FillBlocks(v: Volume, n: nat, s: Slot, q: nat)
    requires Inv(v) && Vacant(v, n, s) && !Fill(v, n, s).full && q < |v.blocks|
    requires !s.Top? ==> q != Value(v, n, Parent(s))
    ensures |Fill(v, n, s).blocks| == |v.blocks| && Fill(v, n, s).blocks[q] == v.blocks[q]
  {
    hide Fill; hide Value; hide FirstFree;
    FillForm(v, n, s);
  }

  // ---- what Ensure changes ----

  /** `t` is `s` or names a block on the way to `s`. */
  predicate OnPath(t: Slot, s: Slot)
    decreases Depth(s)
  {
    t == s || (!s.Top? && OnPath(t, Parent(s)))
  }

  /** From `v` to `r` only empty slots on the way to `s` may have been given zones; no data has changed, and a new
      zone reads as zeros. */
  ghost predicate Grown(v: Volume, r: Volume, n: nat, s: Slot) {
    && Shape(v) && Shape(r) && |r.blocks| == |v.blocks| && |r.inodes| == |v.inodes| && r.first == v.first
    && (forall m | 0 <= m < |v.inodes| :: r.inodes[m].size == v.inodes[m].size)
    && (forall m: nat, t: Slot | m < |v.inodes| && Proper(t) ::
      Value(r, m, t) == Value(v, m, t) || (Value(v, m, t) == 0 && m == n && OnPath(t, s)))
    && (forall m, t | Names(v, m, t) && Leaf(t) && Value(v, m, t) < |v.blocks| ::
      r.blocks[Value(v, m, t)] == v.blocks[Value(v, m, t)])
    && (forall m, t | Names(r, m, t) && Leaf(t) && Value(v, m, t) == 0 && Value(r, m, t) < |r.blocks| ::
      r.blocks[Value(r, m, t)] == Blank())
  }

  lemma GrownRefl(v: Volume, n: nat, s: Slot)
    requires Inv(v)
    ensures Grown(v, v, n, s)
  {
  }

  lemma FillSizes(v: Volume, n: nat, s: Slot, m: nat)
    requires Inv(v) && Vacant(v, n, s) && !Fill(v, n, s).full && m < |v.inodes|
    ensures m < |Fill(v, n, s).inodes| && Fill(v, n, s).inodes[m].size == v.inodes[m].size
  {
    hide Fill; hide FirstFree; hide Value;
    FillForm(v, n, s);
  }

  lemma ParentNotLeaf(s: Slot)
    requires !s.Top?
    ensures !Leaf(Parent(s))
  {
  }

  lemma FillGrows(v: Volume, n: nat, s: Slot)
    requires Inv(v) && Vacant(v, n, s) && !Fill(v, n, s).full
    ensures Grown(v, Fill(v, n, s), n, s)
  {
    hide Fill; hide Value; hide FirstFree; hide Blank; hide Inv; hide Leaf;
    InvShape(v);
    FillShape(v, n, s);
    FillForm(v, n, s);
    NewZone(v);
    var f := Fill(v, n, s);
    forall m: nat, t: Slot | m < |v.inodes| && Proper(t)
      ensures Value(f, m, t) == Value(v, m, t) || (Value(v, m, t) == 0 && m == n && OnPath(t, s)) {
      FillValue(v, n, s, m, t);
    }
    forall m | 0 <= m < |v.inodes| ensures f.inodes[m].size == v.inodes[m].size {
      FillSizes(v, n, s, m);
    }
    forall m, t | Names(v, m, t) && Leaf(t) && Value(v, m, t) < |v.blocks|
      ensures f.blocks[Value(v, m, t)] == v.blocks[Value(v, m, t)] {
      LeafNotParent(v, n, s, m, t);
      FillBlocks(v, n, s, Value(v, m, t));
    }
    forall m, t | Names(f, m, t) && Leaf(t) && Value(v, m, t) == 0 && Value(f, m, t) < |f.blocks|
      ensures f.blocks[Value(f, m, t)] == Blank() {
      FillValue(v, n, s, m, t);
      var z := v.first - 1 + FirstFree(v.used, 0);
      if !s.Top? {
        assert Names(v, n, Parent(s));
      }
      FillBlocks(v, n, s, z);
    }
  }

  lemma LeafNotParent(v: Volume, n: nat, s: Slot, m: nat, t: Slot)
    requires Inv(v) && Vacant(v, n, s) && Names(v, m, t) && Leaf(t)
    ensures !s.Top? ==> Value(v, m, t) != Value(v, n, Parent(s))
  {
    hide Value; hide Leaf;
    if !s.Top? {
      ParentNotLeaf(s);
      assert Names(v, n, Parent(s));
    }
  }

  lemma PathUp(t: Slot, s: Slot)
    requires !s.Top? && OnPath(t, Parent(s))
    ensures OnPath(t, s)
  {
  }

  lemma GrownWiden(v: Volume, w: Volume, n: nat, s: Slot)
    requires !s.Top? && Grown(v, w, n, Parent(s))
    ensures Grown(v, w, n, s)
  {
    hide Value; hide Leaf; hide OnPath;
    forall t | OnPath(t, Parent(s)) ensures OnPath(t, s) {
      PathUp(t, s);
    }
  }

  lemma GrownTrans(v: Volume, w: Volume, r: Volume, n: nat, s: Slot)
    requires Inv(v) && Inv(w) && Grown(v, w, n, s) && Grown(w, r, n, s)
    ensures Grown(v, r, n, s)
  {
    hide Value; hide Leaf; hide OnPath; hide Blank; hide Inv;
    forall m: nat, t: Slot | m < |v.inodes| && Proper(t)
      ensures Value(r, m, t) == Value(v, m, t) || (Value(v, m, t) == 0 && m == n && OnPath(t, s))
    {
      assert Value(w, m, t) == Value(v, m, t) || (Value(v, m, t) == 0 && m == n && OnPath(t, s));
      assert Value(r, m, t) == Value(w, m, t) || (Value(w, m, t) == 0 && m == n && OnPath(t, s));
    }
    forall m, t | Names(v, m, t) && Leaf(t) && Value(v, m, t) < |v.blocks|
      ensures r.blocks[Value(v, m, t)] == v.blocks[Value(v, m, t)] {
      assert Value(w, m, t) == Value(v, m, t) && Names(w, m, t);
    }
    forall m, t | Names(r, m, t) && Leaf(t) && Value(v, m, t) == 0 && Value(r, m, t) < |r.blocks|
      ensures r.blocks[Value(r, m, t)] == Blank() {
      if Value(w, m, t) != 0 {
        assert Names(w, m, t) && Value(r, m, t) == Value(w, m, t);
      }
    }
  }

  /** bmap with `create`: the slot has a zone afterwards, nothing that was there has moved, and nothing reads
      differently. */
  lemma {:induction false} EnsureCorrect(v: Volume, n: nat, s: Slot)
    requires Inv(v) && n < |v.inodes| && Proper(s) && !Ensure(v, n, s).full
    ensures var r := Ensure(v, n, s); Inv(r) && Grown(v, r, n, s) && n < |r.inodes| && Value(r, n, s) != 0
    decreases Depth(s)
  {
    hide Value; hide Grown; hide Fill; hide Leaf; hide Inv;
    InvShape(v);
    if s.Top? {
      GrownRefl(v, n, s);
      Last(v, v, n, s);
    } else {
      ParentProper(s);
      EnsureCorrect(v, n, Parent(s));
      var w := Ensure(v, n, Parent(s));
      GrownWiden(v, w, n, s);
      Last(v, w, n, s);
    }
  }

  lemma Last(v: Volume, w: Volume, n: nat, s: Slot)
    requires Inv(v) && Inv(w) && Grown(v, w, n, s) && n < |w.inodes| && Proper(s)
    requires (!s.Top? ==> Value(w, n, Parent(s)) != 0)
    requires Value(w, n, s) == 0 ==> !Fill(w, n, s).full
    ensures var r := if Value(w, n, s) != 0 then w else Fill(w, n, s);
            Inv(r) && Grown(v, r, n, s) && n < |r.inodes| && Value(r, n, s) != 0
  {
    hide Value; hide Grown; hide Fill; hide Leaf;
    if Value(w, n, s) == 0 {
      FillInv(w, n, s);
      FillGrows(w, n, s);
      GrownTrans(v, w, Fill(w, n, s), n, s);
      FillValue(w, n, s, n, s);
      NewZone(w);
    }
  }

  // ---- a volume without files ----

  const MAP_BITS: nat := 8192     // bits in one zone-map block

  /** devmkfs's choice: the bits counted include one for each of the `maps` map blocks. */
  predicate Planned(count: nat, first: nat, maps: nat) {
    first <= count && 0 < maps && maps * MAP_BITS <= BITS && (count - first + maps + MAP_BITS - 1) / MAP_BITS == maps
  }

  /** devmkfs sets the bits from here on; when they fill the last map block evenly it sets that whole block. */
  function Limit(count: nat, first: nat, maps: nat): nat
    requires Planned(count, first, maps)
  {
    var bits := count - first + maps;
    if bits % MAP_BITS == 0 then bits - MAP_BITS else bits
  }

  function FreshMap(limit: nat, n: nat): (used: seq<bool>)
    ensures |used| == n
  {
    seq(n, i => !(0 < i < limit))
  }

  /** What devmkfs leaves on a blank device of `count` blocks before it makes the root directory: empty inodes, data
      zones from `first` on, a zone map with bit 0 and the tail set. */
  function Formatted(count: nat, first: nat, maps: nat, files: nat): Volume
    requires Planned(count, first, maps)
  {
    Volume(seq(count, _ => Blank()), FreshMap(Limit(count, first, maps), BITS), first,
           seq(files, _ => Inode(seq(9, _ => 0), 0)), false)
  }

  /** The new volume satisfies the invariant exactly when it has one map block, or its bits fill the map blocks evenly.
      Otherwise as many bits as there are further map blocks stand for zones beyond the end of the device. */
  lemma FormattedExact(count: nat, first: nat, maps: nat, files: nat)
    requires Planned(count, first, maps) && 1 <= first && count <= 65536
    ensures var v := Formatted(count, first, maps, files);
            && (Inv(v) <==> maps == 1 || (count - first + maps) % MAP_BITS == 0)
            && FreeZones(v.used) == if Limit(count, first, maps) == 0 then 0 else Limit(count, first, maps) - 1
  {
    hide Blank; hide FreeZones; hide Limit;
    var v, limit := Formatted(count, first, maps, files), Limit(count, first, maps);
    LimitExact(count, first, maps);
    forall n: nat, s | n < files && Proper(s) ensures Value(v, n, s) == 0 {
      NoZones(v, n, s);
    }
    FreshFree(limit, BITS);
    if limit > count - first + 1 {
      assert !v.used[limit - 1];
    }
  }

  lemma LimitExact(count: nat, first: nat, maps: nat)
    requires Planned(count, first, maps) && count <= 65536
    ensures Limit(count, first, maps) <= BITS
    ensures Limit(count, first, maps) <= count - first + 1 <==> maps == 1 || (count - first + maps) % MAP_BITS == 0
  {
  }

  lemma NoZones(v: Volume, n: nat, s: Slot)
    requires n < |v.inodes| && Proper(s) && v.inodes[n].zone == seq(9, _ => 0)
    ensures |v.inodes[n].zone| == 9 && Value(v, n, s) == 0
  {
  }

  lemma {:induction false} FreshFree(limit: nat, n: nat)
    ensures FreeZones(FreshMap(limit, n)) == if n == 0 || limit == 0 then 0 else if n <= limit then n - 1 else limit - 1
    decreases n
  {
    if n > 0 {
      FreshFree(limit, n - 1);
      assert FreshMap(limit, n)[..n - 1] == FreshMap(limit, n - 1);
    }
  }

  // ---- when the zones last ----

  function FreeZones(used: seq<bool>): nat {
    if used == [] then 0 else FreeZones(used[..|used| - 1]) + if used[|used| - 1] then 0 else 1
  }

  lemma {:induction false} TakeOne(used: seq<bool>, i: nat)
    requires i < |used| && !used[i]
    ensures FreeZones(used[i := true]) + 1 == FreeZones(used)
    decreases |used|
  {
    var n := |used| - 1;
    if i == n {
      assert used[i := true][..n] == used[..n];
    } else {
      assert used[i := true][..n] == used[..n][i := true];
      TakeOne(used[..n], i);
    }
  }

  lemma {:induction false} AllTaken(used: seq<bool>)
    requires forall i | 0 <= i < |used| :: used[i]
    ensures FreeZones(used) == 0
    decreases |used|
  {
    if used != [] {
      AllTaken(used[..|used| - 1]);
    }
  }

  lemma FillEnough(v: Volume, n: nat, s: Slot)
    requires Inv(v) && Vacant(v, n, s) && FreeZones(v.used) > 0
    ensures !Fill(v, n, s).full && FreeZones(Fill(v, n, s).used) + 1 == FreeZones(v.used)
  {
    hide Value; hide SetWord; hide Names;
    var i := FirstFree(v.used, 0);
    if i == BITS {
      AllTaken(v.used);
    }
    TakeOne(v.used, i);
    FillForm(v, n, s);
  }

  /** bmap takes at most one zone for each level, and fails only when the map has none left. */
  lemma {:induction false} EnsureEnough(v: Volume, n: nat, s: Slot)
    requires Inv(v) && n < |v.inodes| && Proper(s) && FreeZones(v.used) > Depth(s)
    ensures !Ensure(v, n, s).full && FreeZones(v.used) <= FreeZones(Ensure(v, n, s).used) + Depth(s) + 1
    decreases Depth(s)
  {
    hide Value; hide Fill; hide Inv; hide Leaf; hide Grown; hide FreeZones;
    InvShape(v);
    if s.Top? {
      LastEnough(v, n, s);
    } else {
      ParentProper(s);
      DepthUp(s);
      EnsureEnough(v, n, Parent(s));
      EnsureCorrect(v, n, Parent(s));
      LastEnough(Ensure(v, n, Parent(s)), n, s);
    }
  }

  lemma DepthUp(s: Slot)
    requires !s.Top?
    ensures Depth(s) == Depth(Parent(s)) + 1
  {
  }

  lemma LastEnough(w: Volume, n: nat, s: Slot)
    requires Inv(w) && n < |w.inodes| && Proper(s) && (!s.Top? ==> Value(w, n, Parent(s)) != 0) && FreeZones(w.used) > 0
    ensures var r := if Value(w, n, s) != 0 then w else Fill(w, n, s);
            !r.full && FreeZones(w.used) <= FreeZones(r.used) + 1
  {
    hide Value; hide Fill; hide FreeZones;
    if Value(w, n, s) == 0 {
      FillEnough(w, n, s);
    }
  }
}
