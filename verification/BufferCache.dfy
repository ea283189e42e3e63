/** The block buffer cache (src/kernel/buffer.c), one call per step. A buffer is named by its number in the pool. */
module BufferCache {
  import opened Lists

  const BUCKETS: nat := 31
  const EOF: bv32 := 0xffff_ffff

  type Data = seq<bv8>

  datatype Key = Key(dev: bv32, block: bv32)

  datatype Buffer = Buffer(key: Key, count: nat, dirty: bool, valid: bool, data: Data)

  /** `limit` is how many buffers the pool can hold; `disk` is what the devices hold. */
  datatype Cache = Cache(bufs: seq<Buffer>, limit: nat, table: seq<seq<nat>>, free: seq<nat>, disk: map<Key, Data>)

  function Hash(k: Key): (h: nat)
    ensures h < BUCKETS
  {
    ((k.dev ^ k.block) as nat) % BUCKETS
  }

  function OnDisk(disk: map<Key, Data>, k: Key): Data {
    if k in disk then disk[k] else []
  }

  // ---- the pool ----

  /** get_new_buffer's test: descriptors grow from the start of the area, data blocks down from its end. */
  predicate HasRoom(size: nat, descriptor: nat, block: nat, used: nat)
    requires block * (used + 1) <= size
  {
    used * descriptor + descriptor < size - block * (used + 1)
  }

  /** Descriptor `i` ends before data block `j` begins. */
  predicate Clear(size: nat, descriptor: nat, block: nat, i: nat, j: nat) {
    (i + 1) * descriptor < size - block * (j + 1)
  }

  /** The test passes exactly when, with one more buffer, every descriptor ends before every data block; the data
      blocks lie apart from each other. */
  lemma PoolApart(size: nat, descriptor: nat, block: nat, used: nat)
    requires block * (used + 1) <= size
    ensures HasRoom(size, descriptor, block, used) <==>
            forall i: nat, j: nat | i <= used && j <= used :: Clear(size, descriptor, block, i, j)
    ensures forall i: nat, j: nat | i < j <= used :: DataApart(size, block, i, j)
  {
    forall i: nat, j: nat | i <= used && j <= used && HasRoom(size, descriptor, block, used)
      ensures Clear(size, descriptor, block, i, j)
    {
      assert (i + 1) * descriptor <= (used + 1) * descriptor;
      assert block * (j + 1) <= block * (used + 1);
    }
    forall i: nat, j: nat | i < j <= used ensures DataApart(size, block, i, j) {
      assert block * (i + 1) + block == block * (i + 2) <= block * (j + 1);
    }
    assert Clear(size, descriptor, block, used, used) <==> HasRoom(size, descriptor, block, used) by {
      assert (used + 1) * descriptor == used * descriptor + descriptor;
    }
  }

  /** Data block `j` ends where data block `i` begins, or before. */
  predicate DataApart(size: nat, block: nat, i: nat, j: nat) {
    size - block * (j + 1) + block <= size - block * (i + 1)
  }

  // ---- the operations ----

  datatype Found = None | At(i: nat)

  /** get_from_hash_table's search of one bucket. */
  function Search(bufs: seq<Buffer>, list: seq<nat>, k: Key): (r: Found)
    requires forall j | 0 <= j < |list| :: list[j] < |bufs|
    ensures r.At? ==> r.i in list && r.i < |bufs| && bufs[r.i].key == k
    ensures r.None? ==> forall j | 0 <= j < |list| :: bufs[list[j]].key != k
    decreases |list|
  {
    if list == [] then None else if bufs[list[0]].key == k then At(list[0]) else Search(bufs, list[1..], k)
  }

  /** get_free_buffer: a new buffer while the pool has room, else the one released longest ago; None blocks. */
  function GetFree(c: Cache): (r: (Cache, Found))
    ensures r.1.At? ==> r.1.i < |r.0.bufs| || (c.free != [] && r.1.i == c.free[|c.free| - 1])
    ensures r.1.None? ==> r.0 == c
  {
    if |c.bufs| < c.limit then (c.(bufs := c.bufs + [Buffer(Key(EOF, 0), 0, false, false, [])]), At(|c.bufs|))
    else if c.free != [] then (c.(free := c.free[..|c.free| - 1]), At(c.free[|c.free| - 1]))
    else (c, None)
  }

  /** bread on a miss, for a buffer that is free: into the table, then filled from the device. */
  function Fill(c: Cache, i: nat, k: Key): Cache
    requires i < |c.bufs| && |c.table| == BUCKETS
  {
    c.(bufs := c.bufs[i := Buffer(k, 1, false, true, OnDisk(c.disk, k))],
       table := c.table[Hash(k) := [i] + c.table[Hash(k)]])
  }

  /** bread; None while every buffer is in use. */
  function Bread(c: Cache, k: Key): (Cache, Found)
    requires Inv(c)
  {
    TableBound(c, Hash(k));
    var hit := Search(c.bufs, c.table[Hash(k)], k);
    if hit.At? then (c.(bufs := c.bufs[hit.i := c.bufs[hit.i].(count := c.bufs[hit.i].count + 1)]), hit)
    else
      FreeBound(c);
      var (d, f) := GetFree(c);
      if f.None? then (c, None) else (Fill(d, f.i, k), f)
  }

  function Bwrite(c: Cache, i: nat): Cache
    requires i < |c.bufs|
  {
    c.(disk := c.disk[c.bufs[i].key := c.bufs[i].data])
  }

  function Brelease(c: Cache, i: nat): Cache
    requires i < |c.bufs| && |c.table| == BUCKETS && c.bufs[i].count > 0
  {
    var b := c.bufs[i];
    if b.count > 1 then c.(bufs := c.bufs[i := b.(count := b.count - 1)])
    else
      var h := Hash(b.key);
      c.(bufs := c.bufs[i := Buffer(Key(EOF, 0), 0, false, false, b.data)],
         table := c.table[h := Without(c.table[h], i)],
         disk := if b.dirty then c.disk[b.key := b.data] else c.disk,
         free := [i] + c.free)
  }

  /** What a client does with a buffer it holds: it changes the data and marks the buffer. */
  function Poke(c: Cache, i: nat, data: Data): Cache
    requires i < |c.bufs|
  {
    c.(bufs := c.bufs[i := c.bufs[i].(data := data, dirty := true)])
  }

  /** What reckon does at its end: it clears the mark and writes the buffer. */
  function Sync(c: Cache, i: nat): Cache
    requires i < |c.bufs|
  {
    Bwrite(c.(bufs := c.bufs[i := c.bufs[i].(dirty := false)]), i)
  }

  /** What balloc and bfree do with a map block: they change it and write it at once, without a mark. */
  function Overwrite(c: Cache, i: nat, data: Data): Cache
    requires i < |c.bufs|
  {
    Bwrite(c.(bufs := c.bufs[i := c.bufs[i].(data := data)]), i)
  }

  // ---- invariants ----

  /** A bucket holds buffers in use whose key hashes to it, each once. */
  ghost predicate Bucket(c: Cache, h: nat)
    requires h < |c.table|
  {
    Distinct(c.table[h]) && forall i | i in c.table[h] ::
      i < |c.bufs| && c.bufs[i].count > 0 && Hash(c.bufs[i].key) == h
  }

  ghost predicate FreeList(c: Cache) {
    Distinct(c.free) && forall i | i in c.free :: i < |c.bufs| && c.bufs[i].count == 0
  }

  /** In use: valid, in its own bucket, and equal to the disk unless marked. Free: clean, invalid, on the free list. */
  ghost predicate Placed(c: Cache, i: nat)
    requires i < |c.bufs| && |c.table| == BUCKETS
  {
    var b := c.bufs[i];
    if b.count > 0 then b.valid && i in c.table[Hash(b.key)] && (!b.dirty ==> b.data == OnDisk(c.disk, b.key))
    else !b.valid && !b.dirty && i in c.free
  }

  ghost predicate Inv(c: Cache) {
    && |c.table| == BUCKETS && |c.bufs| <= c.limit
    && (forall h | 0 <= h < BUCKETS :: Bucket(c, h))
    && FreeList(c)
    && (forall i | 0 <= i < |c.bufs| :: Placed(c, i))
    && (forall i, j | 0 <= i < j < |c.bufs| && c.bufs[i].count > 0 && c.bufs[j].count > 0 ::
      c.bufs[i].key != c.bufs[j].key)
  }

  lemma TableBound(c: Cache, h: nat)
    requires Inv(c) && h < BUCKETS
    ensures |c.table| == BUCKETS && forall j | 0 <= j < |c.table[h]| :: c.table[h][j] < |c.bufs|
  {
    assert Bucket(c, h);
    assert forall j | 0 <= j < |c.table[h]| :: c.table[h][j] in c.table[h];
  }

  lemma FreeBound(c: Cache)
    requires Inv(c)
    ensures |c.table| == BUCKETS && forall j | 0 <= j < |c.free| :: c.free[j] < |c.bufs|
  {
    assert forall j | 0 <= j < |c.free| :: c.free[j] in c.free;
  }

  // ---- the disk a client sees ----

  ghost predicate Cached(c: Cache, k: Key, i: nat) {
    i < |c.bufs| && c.bufs[i].count > 0 && c.bufs[i].key == k
  }

  /** The cached data where there is some, else the device's. */
  ghost function View(c: Cache, k: Key): Data {
    if exists i: nat :: Cached(c, k, i) then
      var i: nat :| Cached(c, k, i); c.bufs[i].data
    else OnDisk(c.disk, k)
  }

  lemma ViewCached(c: Cache, k: Key, i: nat)
    requires Inv(c) && Cached(c, k, i)
    ensures View(c, k) == c.bufs[i].data
  {
    hide Hash;
    var j: nat :| Cached(c, k, j) && View(c, k) == c.bufs[j].data;
  }

  lemma ViewDisk(c: Cache, k: Key)
    requires forall i: nat :: !Cached(c, k, i)
    ensures View(c, k) == OnDisk(c.disk, k)
  {
  }

  /** The table finds a buffer exactly when the block is cached. */
  lemma SearchExact(c: Cache, k: Key)
    requires Inv(c)
    ensures |c.table| == BUCKETS && (forall j | 0 <= j < |c.table[Hash(k)]| :: c.table[Hash(k)][j] < |c.bufs|)
    ensures match Search(c.bufs, c.table[Hash(k)], k)
            case At(i) => Cached(c, k, i)
            case None => forall i: nat :: !Cached(c, k, i)
  {
    hide Hash;
    TableBound(c, Hash(k));
    assert Bucket(c, Hash(k));
    forall i: nat | Cached(c, k, i) ensures Search(c.bufs, c.table[Hash(k)], k).At? {
      assert Placed(c, i);
    }
  }

  // ---- one buffer changes its data, marks or count while it stays in use ----

  ghost predicate Adjusted(c: Cache, d: Cache, i: nat) {
    && i < |c.bufs| && c.bufs[i].count > 0 && |d.bufs| == |c.bufs| && d.limit == c.limit && d.table == c.table
      && d.free == c.free
    && d.bufs == c.bufs[i := d.bufs[i]] && d.bufs[i].key == c.bufs[i].key && d.bufs[i].count > 0
      && d.bufs[i].valid == c.bufs[i].valid
    && (d.disk == c.disk || d.disk == c.disk[c.bufs[i].key := d.bufs[i].data])
    && (!d.bufs[i].dirty ==> d.bufs[i].data == OnDisk(d.disk, d.bufs[i].key))
  }

  lemma AdjustedInv(c: Cache, d: Cache, i: nat)
    requires Inv(c) && Adjusted(c, d, i)
    ensures Inv(d)
  {
    hide Hash;
    forall h | 0 <= h < BUCKETS ensures Bucket(d, h) {
      assert Bucket(c, h);
    }
    forall j | 0 <= j < |d.bufs| ensures Placed(d, j) {
      assert Placed(c, j) && Placed(c, i);
    }
  }

  /** Its block alone may look different; with the same data not even that. */
  lemma AdjustedView(c: Cache, d: Cache, i: nat, k: Key)
    requires Inv(c) && Adjusted(c, d, i)
    ensures View(d, k) == if k == c.bufs[i].key then d.bufs[i].data else View(c, k)
  {
    hide Inv; hide View;
    AdjustedInv(c, d, i);
    if k == c.bufs[i].key {
      ViewCached(d, k, i);
    } else if exists j: nat :: Cached(c, k, j) {
      var j: nat :| Cached(c, k, j);
      ViewCached(c, k, j);
      ViewCached(d, k, j);
    } else {
      assert forall j: nat :: Cached(d, k, j) ==> Cached(c, k, j);
      ViewDisk(c, k);
      ViewDisk(d, k);
    }
  }

  // ---- bread ----

  /** A free buffer to fill: it is in no list any more. */
  ghost predicate Spare(c: Cache, i: nat) {
    && |c.table| == BUCKETS && |c.bufs| <= c.limit && i < |c.bufs| && c.bufs[i].count == 0
    && (forall h | 0 <= h < BUCKETS :: Bucket(c, h))
    && FreeList(c) && i !in c.free
    && (forall j | 0 <= j < |c.bufs| && j != i :: Placed(c, j))
    && (forall j, l | 0 <= j < l < |c.bufs| && c.bufs[j].count > 0 && c.bufs[l].count > 0 ::
      c.bufs[j].key != c.bufs[l].key)
  }

  lemma NewBufferSpare(c: Cache)
    requires Inv(c) && |c.bufs| < c.limit
    ensures Spare(GetFree(c).0, |c.bufs|) && GetFree(c).0.disk == c.disk
  {
    hide Hash;
    var d := GetFree(c).0;
    forall h | 0 <= h < BUCKETS ensures Bucket(d, h) {
      assert Bucket(c, h);
    }
    forall j | 0 <= j < |c.bufs| ensures Placed(d, j) {
      assert Placed(c, j);
    }
  }

  lemma LastFree(list: seq<nat>)
    requires list != [] && Distinct(list)
    ensures var n := |list| - 1;
            Distinct(list[..n]) && list[n] !in list[..n] && forall x | x in list :: x in list[..n] || x == list[n]
  {
    assert list == list[..|list| - 1] + [list[|list| - 1]];
  }

  lemma OldBufferSpare(c: Cache)
    requires Inv(c) && |c.bufs| >= c.limit && c.free != []
    ensures Spare(GetFree(c).0, c.free[|c.free| - 1]) && GetFree(c).0.disk == c.disk
  {
    hide Hash; hide Distinct;
    var d, i := GetFree(c).0, c.free[|c.free| - 1];
    LastFree(c.free);
    assert i in c.free && c.bufs[i].count == 0;
    assert d.free == c.free[..|c.free| - 1] && d.bufs == c.bufs;
    assert FreeList(d) by {
      forall x | x in d.free ensures x in c.free {
      }
    }
    forall h | 0 <= h < BUCKETS ensures Bucket(d, h) {
      assert Bucket(c, h);
    }
    forall j | 0 <= j < |c.bufs| && j != i ensures Placed(d, j) {
      assert Placed(c, j);
      assert j in c.free ==> j in d.free;
    }
  }

  /** Popping a free buffer or making a new one does not touch what is in use. */
  lemma GetFreeSame(c: Cache, k: Key)
    requires Inv(c) && GetFree(c).1.At?
    ensures forall j: nat :: Cached(GetFree(c).0, k, j) <==> Cached(c, k, j)
    ensures forall j: nat :: Cached(c, k, j) ==> GetFree(c).0.bufs[j].data == c.bufs[j].data
    ensures Spare(GetFree(c).0, GetFree(c).1.i) && GetFree(c).0.disk == c.disk
  {
    hide Inv; hide Spare;
    if |c.bufs| < c.limit {
      NewBufferSpare(c);
    } else {
      OldBufferSpare(c);
    }
  }

  lemma FillInv(c: Cache, i: nat, k: Key)
    requires Spare(c, i) && forall j: nat :: !Cached(c, k, j)
    ensures Inv(Fill(c, i, k)) && Cached(Fill(c, i, k), k, i)
    ensures forall l: Key, j: nat :: l != k ==> (Cached(Fill(c, i, k), l, j) <==> Cached(c, l, j))
  {
    hide Hash;
    var d := Fill(c, i, k);
    forall h | 0 <= h < BUCKETS ensures Bucket(d, h) {
      assert Bucket(c, h);
    }
    forall j | 0 <= j < |d.bufs| ensures Placed(d, j) {
      if j != i {
        assert Placed(c, j);
      }
    }
    forall j | 0 <= j < |d.bufs| && j != i && d.bufs[j].count > 0 ensures d.bufs[j].key != k {
      assert !Cached(c, k, j);
    }
  }

  /** bread keeps the invariant and the disk its clients see, and returns a buffer that shows the block asked for. */
  lemma BreadCorrect(c: Cache, k: Key, l: Key)
    requires Inv(c)
    ensures var (d, f) := Bread(c, k);
            Inv(d) && View(d, l) == View(c, l)
            && (f.At? ==> Cached(d, k, f.i) && d.bufs[f.i].data == View(c, k))
            && (f.None? <==> (forall i: nat :: !Cached(c, k, i)) && |c.bufs| >= c.limit && c.free == [])
  {
    hide Inv; hide View; hide Hash; hide Fill; hide GetFree; hide Spare; hide Search;
    SearchExact(c, k);
    var hit := Search(c.bufs, c.table[Hash(k)], k);
    var d := Bread(c, k).0;
    if hit.At? {
      Bumped(c, hit.i);
      AdjustedInv(c, d, hit.i);
      AdjustedView(c, d, hit.i, l);
      ViewCached(c, k, hit.i);
    } else {
      Missed(c, k, l);
    }
  }

  lemma Bumped(c: Cache, i: nat)
    requires Inv(c) && i < |c.bufs| && c.bufs[i].count > 0
    ensures Adjusted(c, c.(bufs := c.bufs[i := c.bufs[i].(count := c.bufs[i].count + 1)]), i)
  {
    assert Placed(c, i);
  }

  lemma FreeOutcome(c: Cache)
    requires Inv(c)
    ensures GetFree(c).1.None? <==> |c.bufs| >= c.limit && c.free == []
  {
  }

  lemma Missed(c: Cache, k: Key, l: Key)
    requires Inv(c) && forall i: nat :: !Cached(c, k, i)
    ensures var (d, f) := Bread(c, k);
            Inv(d) && View(d, l) == View(c, l) && (f.At? ==> Cached(d, k, f.i) && d.bufs[f.i].data == View(c, k))
            && (f.None? <==> |c.bufs| >= c.limit && c.free == [])
  {
    hide Inv; hide View; hide Hash; hide GetFree; hide Spare; hide Search;
    SearchExact(c, k);
    FreeOutcome(c);
    var (e, f) := GetFree(c);
    if f.At? {
      GetFreeSame(c, k);
      GetFreeSame(c, l);
      SpareBound(e, f.i);
      FillInv(e, f.i, k);
      var d := Fill(e, f.i, k);
      assert Bread(c, k) == (d, f);
      ViewCached(d, k, f.i);
      ViewDisk(c, k);
      if l != k {
        if exists j: nat :: Cached(c, l, j) {
          var j: nat :| Cached(c, l, j);
          ViewCached(c, l, j);
          ViewCached(d, l, j);
        } else {
          ViewDisk(c, l);
          ViewDisk(d, l);
        }
      }
    }
  }

  lemma SpareBound(c: Cache, i: nat)
    requires Spare(c, i)
    ensures i < |c.bufs| && |c.table| == BUCKETS && c.bufs[i].count == 0
  {
  }

  // ---- bwrite, brelease and the clients ----

  /** bwrite brings the disk up to date and changes nothing that clients see. */
  lemma BwriteCorrect(c: Cache, i: nat, k: Key)
    requires Inv(c) && i < |c.bufs| && c.bufs[i].count > 0
    ensures Inv(Bwrite(c, i)) && View(Bwrite(c, i), k) == View(c, k)
    ensures OnDisk(Bwrite(c, i).disk, c.bufs[i].key) == c.bufs[i].data
  {
    hide View; hide Inv;
    BwriteAdjusts(c, i);
    AdjustedInv(c, Bwrite(c, i), i);
    AdjustedView(c, Bwrite(c, i), i, k);
    ViewCached(c, c.bufs[i].key, i);
  }

  lemma BwriteAdjusts(c: Cache, i: nat)
    requires Inv(c) && i < |c.bufs| && c.bufs[i].count > 0
    ensures Adjusted(c, Bwrite(c, i), i)
  {
    assert Placed(c, i);
  }

  /** A marked change is seen at once, at its own block only. */
  lemma PokeCorrect(c: Cache, i: nat, data: Data, k: Key)
    requires Inv(c) && i < |c.bufs| && c.bufs[i].count > 0
    ensures Inv(Poke(c, i, data))
    ensures View(Poke(c, i, data), k) == if k == c.bufs[i].key then data else View(c, k)
  {
    hide View;
    assert Adjusted(c, Poke(c, i, data), i);
    AdjustedInv(c, Poke(c, i, data), i);
    AdjustedView(c, Poke(c, i, data), i, k);
  }

  /** Clearing the mark and writing changes nothing that clients see. */
  lemma SyncCorrect(c: Cache, i: nat, k: Key)
    requires Inv(c) && i < |c.bufs| && c.bufs[i].count > 0
    ensures Inv(Sync(c, i)) && View(Sync(c, i), k) == View(c, k)
    ensures !Sync(c, i).bufs[i].dirty && OnDisk(Sync(c, i).disk, c.bufs[i].key) == c.bufs[i].data
  {
    hide View; hide Inv;
    assert Adjusted(c, Sync(c, i), i);
    AdjustedInv(c, Sync(c, i), i);
    AdjustedView(c, Sync(c, i), i, k);
    ViewCached(c, c.bufs[i].key, i);
  }

  /** An unmarked change that is written at once is seen, at its own block only, and is on the device. */
  lemma OverwriteCorrect(c: Cache, i: nat, data: Data, k: Key)
    requires Inv(c) && i < |c.bufs| && c.bufs[i].count > 0
    ensures Inv(Overwrite(c, i, data)) && OnDisk(Overwrite(c, i, data).disk, c.bufs[i].key) == data
    ensures View(Overwrite(c, i, data), k) == if k == c.bufs[i].key then data else View(c, k)
  {
    hide View; hide Inv;
    assert Adjusted(c, Overwrite(c, i, data), i);
    AdjustedInv(c, Overwrite(c, i, data), i);
    AdjustedView(c, Overwrite(c, i, data), i, k);
  }

  /** Without the mark the change is lost when the buffer is released. */
  lemma UnmarkedLost(c: Cache, i: nat, data: Data)
    requires Inv(c) && i < |c.bufs| && c.bufs[i].count == 1 && !c.bufs[i].dirty && data != c.bufs[i].data
    ensures var d := c.(bufs := c.bufs[i := c.bufs[i].(data := data)]);
            !Inv(d) && |d.table| == BUCKETS && OnDisk(Brelease(d, i).disk, c.bufs[i].key) == c.bufs[i].data != data
  {
    assert Placed(c, i);
    var d := c.(bufs := c.bufs[i := c.bufs[i].(data := data)]);
    assert !Placed(d, i);
  }

  lemma LastReleaseInv(c: Cache, i: nat)
    requires Inv(c) && i < |c.bufs| && c.bufs[i].count == 1
    ensures Inv(Brelease(c, i))
  {
    hide Hash;
    var d, h := Brelease(c, i), Hash(c.bufs[i].key);
    assert Bucket(c, h);
    WithoutDistinct(c.table[h], i);
    forall g | 0 <= g < BUCKETS ensures Bucket(d, g) {
      assert Bucket(c, g);
    }
    assert i !in c.free;
    forall j | 0 <= j < |d.bufs| ensures Placed(d, j) {
      assert Placed(c, j);
    }
  }

  /** brelease keeps the invariant and the disk its clients see, whoever lets go of what. */
  lemma BreleaseCorrect(c: Cache, i: nat, k: Key)
    requires Inv(c) && i < |c.bufs| && c.bufs[i].count > 0
    ensures |c.table| == BUCKETS && Inv(Brelease(c, i)) && View(Brelease(c, i), k) == View(c, k)
  {
    hide View; hide Hash; hide Without; hide Bucket; hide FreeList;
    var d := Brelease(c, i);
    assert Placed(c, i);
    if c.bufs[i].count > 1 {
      assert Adjusted(c, d, i);
      AdjustedInv(c, d, i);
      AdjustedView(c, d, i, k);
      ViewCached(c, c.bufs[i].key, i);
    } else {
      LastReleaseInv(c, i);
      ReleasedView(c, i, k);
    }
  }

  lemma ReleasedView(c: Cache, i: nat, k: Key)
    requires Inv(c) && i < |c.bufs| && c.bufs[i].count == 1 && Inv(Brelease(c, i))
    ensures View(Brelease(c, i), k) == View(c, k)
  {
    hide View; hide Hash; hide Without; hide Bucket; hide FreeList;
    var d := Brelease(c, i);
    assert Placed(c, i);
    if k == c.bufs[i].key {
      ViewCached(c, k, i);
      forall j: nat ensures !Cached(d, k, j) {
        assert Cached(c, k, j) ==> j == i;
      }
      ViewDisk(d, k);
    } else if exists j: nat :: Cached(c, k, j) {
      var j: nat :| Cached(c, k, j);
      ViewCached(c, k, j);
      ViewCached(d, k, j);
    } else {
      assert forall j: nat :: Cached(d, k, j) ==> Cached(c, k, j);
      ViewDisk(c, k);
      ViewDisk(d, k);
    }
  }

  // ---- runs: the cache is a disk ----

  datatype Action =
    | Read(key: Key)
    | Write(i: nat)
    | Change(i: nat, data: Data)      // marked
    | WriteClean(i: nat)              // the mark is cleared, then bwrite
    | Replace(i: nat, data: Data)     // changed without a mark, then bwrite
    | Release(i: nat)

  /** Clients write, change and release only buffers that are in use. */
  ghost function Apply(c: Cache, a: Action): Cache
    requires Inv(c)
  {
    match a
    case Read(k) => Bread(c, k).0
    case Write(i) => if i < |c.bufs| && c.bufs[i].count > 0 then Bwrite(c, i) else c
    case Change(i, data) => if i < |c.bufs| && c.bufs[i].count > 0 then Poke(c, i, data) else c
    case WriteClean(i) => if i < |c.bufs| && c.bufs[i].count > 0 then Sync(c, i) else c
    case Replace(i, data) => if i < |c.bufs| && c.bufs[i].count > 0 then Overwrite(c, i, data) else c
    case Release(i) => if i < |c.bufs| && c.bufs[i].count > 0 then Brelease(c, i) else c
  }

  /** The same action on a plain disk: only a change of a buffer in use changes a block, the one it holds. */
  function OnPlainDisk(c: Cache, a: Action, k: Key, was: Data): Data {
    if (a.Change? || a.Replace?) && a.i < |c.bufs| && c.bufs[a.i].count > 0 && c.bufs[a.i].key == k then a.data else was
  }

  lemma ApplyCorrect(c: Cache, a: Action, k: Key)
    requires Inv(c)
    ensures Inv(Apply(c, a)) && View(Apply(c, a), k) == OnPlainDisk(c, a, k, View(c, k))
  {
    hide Inv; hide View; hide Bread; hide Brelease; hide Bwrite; hide Poke; hide Sync; hide Overwrite; hide Cached;
    match a
    case Read(l) =>
      BreadCorrect(c, l, k);
    case Write(i) =>
      if i < |c.bufs| && c.bufs[i].count > 0 {
        BwriteCorrect(c, i, k);
      }
    case Change(i, data) =>
      if i < |c.bufs| && c.bufs[i].count > 0 {
        PokeCorrect(c, i, data, k);
      }
    case WriteClean(i) =>
      if i < |c.bufs| && c.bufs[i].count > 0 {
        SyncCorrect(c, i, k);
      }
    case Replace(i, data) =>
      if i < |c.bufs| && c.bufs[i].count > 0 {
        OverwriteCorrect(c, i, data, k);
      }
    case Release(i) =>
      if i < |c.bufs| && c.bufs[i].count > 0 {
        BreleaseCorrect(c, i, k);
      }
  }

  ghost function Run(c: Cache, run: seq<Action>): (r: Cache)
    requires Inv(c)
    ensures Inv(r)
    decreases |run|
  {
    if run == [] then c
    else
      var d := Run(c, run[..|run| - 1]);
      ApplyCorrect(d, run[|run| - 1], Key(0, 0));
      Apply(d, run[|run| - 1])
  }

  /** The plain disk after the same run. */
  ghost function PlainDisk(c: Cache, run: seq<Action>, k: Key): Data
    requires Inv(c)
    decreases |run|
  {
    if run == [] then OnDisk(c.disk, k)
    else OnPlainDisk(Run(c, run[..|run| - 1]), run[|run| - 1], k, PlainDisk(c, run[..|run| - 1], k))
  }

  function Start(limit: nat, disk: map<Key, Data>): Cache {
    Cache([], limit, seq(BUCKETS, i => []), [], disk)
  }

  lemma StartInv(limit: nat, disk: map<Key, Data>)
    ensures Inv(Start(limit, disk))
  {
  }

  /** Over every run the cache shows its clients what a plain disk would. */
  lemma {:induction false} CacheIsDisk(limit: nat, disk: map<Key, Data>, run: seq<Action>, k: Key)
    requires Inv(Start(limit, disk))
    ensures View(Run(Start(limit, disk), run), k) == PlainDisk(Start(limit, disk), run, k)
    decreases |run|
  {
    hide Inv; hide View; hide Apply; hide OnPlainDisk; hide Cached;
    if run == [] {
      StartView(limit, disk, k);
    } else {
      CacheIsDisk(limit, disk, run[..|run| - 1], k);
      ApplyCorrect(Run(Start(limit, disk), run[..|run| - 1]), run[|run| - 1], k);
    }
  }

  lemma StartView(limit: nat, disk: map<Key, Data>, k: Key)
    ensures View(Start(limit, disk), k) == OnDisk(disk, k)
  {
    ViewDisk(Start(limit, disk), k);
  }

  /** And once every buffer has been released the device itself holds it. */
  lemma AllReleased(c: Cache, k: Key)
    requires Inv(c) && forall i | 0 <= i < |c.bufs| :: c.bufs[i].count == 0
    ensures View(c, k) == OnDisk(c.disk, k)
    ensures forall i | 0 <= i < |c.bufs| :: i in c.free
  {
    hide Hash;
    ViewDisk(c, k);
    forall i | 0 <= i < |c.bufs| ensures i in c.free {
      assert Placed(c, i);
    }
  }
}
