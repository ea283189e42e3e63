/** What each call of the buffer cache does to counts, lists and the device, and what the counts mean over a run. */
module BufferCounts {
  import opened Lists
  import opened BufferCache

  // ---- one call ----

  /** bread: the buffer returned is for the block asked for. One that was cached has one user more and is otherwise as
      it was; any other is clean, valid, shows the device's data and has one user. No other buffer and no device block
      changes; without a buffer to return nothing does. */
  lemma BreadExact(c: Cache, k: Key)
    requires Inv(c)
    ensures var (d, f) := Bread(c, k);
            && d.disk == c.disk && d.limit == c.limit && (f.None? ==> d == c)
            && (f.At? ==>
                  && f.i < |d.bufs| == |c.bufs| + (if f.i == |c.bufs| then 1 else 0)
                  && (forall j | 0 <= j < |c.bufs| && j != f.i :: d.bufs[j] == c.bufs[j])
                  && (if exists i: nat :: Cached(c, k, i) then
                        Cached(c, k, f.i) && |d.bufs| == |c.bufs| && d.free == c.free
                        && d.bufs[f.i] == Buffer(k, c.bufs[f.i].count + 1, c.bufs[f.i].dirty, true, c.bufs[f.i].data)
                      else
                        d.bufs[f.i] == Buffer(k, 1, false, true, OnDisk(c.disk, k))
                        && (f.i < |c.bufs| ==> c.bufs[f.i].count == 0)))
  {
    hide Hash;
    SearchExact(c, k);
    var hit := Search(c.bufs, c.table[Hash(k)], k);
    if hit.At? {
      assert Placed(c, hit.i);
    } else {
      FreeBound(c);
      assert c.free != [] ==> c.free[|c.free| - 1] in c.free;
    }
  }

  /** A new buffer is made while the pool has room; after that the one that was released longest ago is taken. */
  lemma BreadTakes(c: Cache, k: Key)
    requires Inv(c) && forall i: nat :: !Cached(c, k, i)
    ensures var (d, f) := Bread(c, k);
            if |c.bufs| < c.limit then f == At(|c.bufs|) && |d.bufs| == |c.bufs| + 1 && d.free == c.free
            else if c.free != [] then
              f == At(c.free[|c.free| - 1]) && |d.bufs| == |c.bufs| && d.free == c.free[..|c.free| - 1]
            else f == None
  {
    hide Hash; hide Fill;
    SearchExact(c, k);
    FreeBound(c);
    FillKeeps(c, k);
  }

  lemma FillKeeps(c: Cache, k: Key)
    requires |c.table| == BUCKETS
    ensures forall d: Cache, i: nat | |d.table| == BUCKETS && i < |d.bufs| ::
              Fill(d, i, k).free == d.free && |Fill(d, i, k).bufs| == |d.bufs|
  {
  }

  /** brelease by one of several users takes one off the count and does nothing else. */
  lemma BreleaseShared(c: Cache, i: nat)
    requires Inv(c) && i < |c.bufs| && c.bufs[i].count > 1
    ensures |c.table| == BUCKETS
    ensures var d := Brelease(c, i);
            d == c.(bufs := c.bufs[i := Buffer(c.bufs[i].key, c.bufs[i].count - 1, c.bufs[i].dirty, c.bufs[i].valid,
                                               c.bufs[i].data)])
  {
  }

  /** brelease by the last user: the block is no longer cached, the buffer goes to the front of the free list, a marked
      one is written back first, and nothing else changes. */
  lemma BreleaseLast(c: Cache, i: nat)
    requires Inv(c) && i < |c.bufs| && c.bufs[i].count == 1
    ensures |c.table| == BUCKETS
    ensures var d, b := Brelease(c, i), c.bufs[i];
            && |d.bufs| == |c.bufs| && (forall j | 0 <= j < |c.bufs| && j != i :: d.bufs[j] == c.bufs[j])
            && d.bufs[i].count == 0 && !d.bufs[i].valid && !d.bufs[i].dirty
            && d.free == [i] + c.free && d.limit == c.limit
            && (forall j: nat :: !Cached(d, b.key, j))
            && OnDisk(d.disk, b.key) == b.data
            && (forall k | k != b.key :: OnDisk(d.disk, k) == OnDisk(c.disk, k))
  {
    hide Hash; hide Without;
    assert Placed(c, i);
  }

  /** bwrite touches its own block of the device and nothing else. */
  lemma BwriteExact(c: Cache, i: nat, k: Key)
    requires i < |c.bufs|
    ensures var d := Bwrite(c, i);
            && d.bufs == c.bufs && d.table == c.table && d.free == c.free && d.limit == c.limit
            && OnDisk(d.disk, k) == if k == c.bufs[i].key then c.bufs[i].data else OnDisk(c.disk, k)
  {
  }

  // ---- counts over a run ----

  ghost predicate Present(c: Cache, k: Key) {
    exists i: nat :: Cached(c, k, i)
  }

  /** How many users the block has. */
  ghost function Users(c: Cache, k: Key): nat {
    if Present(c, k) then
      var i: nat :| Cached(c, k, i); c.bufs[i].count
    else 0
  }

  lemma UsersAt(c: Cache, k: Key, i: nat)
    requires Inv(c) && Cached(c, k, i)
    ensures Present(c, k) && Users(c, k) == c.bufs[i].count > 0
  {
    hide Hash;
    var j: nat :| Cached(c, k, j) && Users(c, k) == c.bufs[j].count;
  }

  /** What one action of a run adds to the number of users: a read that returns a buffer one, a release of a buffer of
      the block minus one, anything else nothing. */
  ghost function Change(c: Cache, a: Action, k: Key): int
    requires Inv(c)
  {
    if a.Read? && a.key == k && Bread(c, k).1.At? then 1
    else if a.Release? && Cached(c, k, a.i) then -1
    else 0
  }

  /** Reads of the block so far minus its releases. */
  ghost function Balance(c: Cache, run: seq<Action>, k: Key): int
    requires Inv(c)
    decreases |run|
  {
    if run == [] then 0
    else Balance(c, run[..|run| - 1], k) + Change(Run(c, run[..|run| - 1]), run[|run| - 1], k)
  }

  /** The same buffers hold the same blocks for the same number of users. */
  ghost predicate SameUse(c: Cache, d: Cache) {
    && |d.bufs| == |c.bufs|
    && forall j | 0 <= j < |c.bufs| :: d.bufs[j].key == c.bufs[j].key && d.bufs[j].count == c.bufs[j].count
  }

  lemma SameUsers(c: Cache, d: Cache, k: Key)
    requires Inv(c) && Inv(d) && SameUse(c, d)
    ensures Users(d, k) == Users(c, k)
  {
    hide Inv;
    if Present(c, k) {
      var i: nat :| Cached(c, k, i);
      UsersAt(c, k, i);
      UsersAt(d, k, i);
    } else {
      forall i: nat ensures !Cached(d, k, i) {
        assert !Cached(c, k, i);
      }
    }
  }

  /** A block keeps its users when its buffer, if it has one, stays, and no other buffer takes it on. */
  lemma OtherUsers(c: Cache, d: Cache, k: Key, i: nat)
    requires Inv(c) && Inv(d) && !Cached(c, k, i) && !Cached(d, k, i)
    requires |d.bufs| == |c.bufs| || (|d.bufs| == |c.bufs| + 1 && i == |c.bufs|)
    requires forall j | 0 <= j < |c.bufs| && j != i :: d.bufs[j] == c.bufs[j]
    ensures Users(d, k) == Users(c, k)
  {
    hide Inv;
    if Present(c, k) {
      var j: nat :| Cached(c, k, j);
      assert Cached(d, k, j);
      UsersAt(c, k, j);
      UsersAt(d, k, j);
    } else {
      forall j: nat ensures !Cached(d, k, j) {
        assert !Cached(c, k, j);
      }
    }
  }

  lemma NoUsers(c: Cache, k: Key)
    requires !Present(c, k)
    ensures Users(c, k) == 0
  {
  }

  lemma ReadUsers(c: Cache, l: Key, k: Key)
    requires Inv(c)
    ensures Inv(Bread(c, l).0) && Users(Bread(c, l).0, k) == Users(c, k) + Change(c, Read(l), k)
  {
    hide Inv; hide Bread;
    BreadCorrect(c, l, l);
    BreadExact(c, l);
    var (d, f) := Bread(c, l);
    if f.At? {
      if l == k {
        UsersAt(d, k, f.i);
        if Present(c, k) {
          UsersAt(c, k, f.i);
        } else {
          NoUsers(c, k);
        }
      } else {
        OtherUsers(c, d, k, f.i);
      }
    }
  }

  lemma ReleaseUsers(c: Cache, i: nat, k: Key)
    requires Inv(c) && i < |c.bufs| && c.bufs[i].count > 0
    ensures |c.table| == BUCKETS && Inv(Brelease(c, i))
    ensures Users(Brelease(c, i), k) == Users(c, k) + Change(c, Release(i), k)
  {
    hide Inv; hide Brelease;
    BreleaseCorrect(c, i, k);
    if c.bufs[i].count > 1 {
      BreleaseShared(c, i);
    } else {
      BreleaseLast(c, i);
    }
    var d := Brelease(c, i);
    if Cached(c, k, i) {
      UsersAt(c, k, i);
      if c.bufs[i].count > 1 {
        UsersAt(d, k, i);
      } else {
        NoUsers(d, k);
      }
    } else {
      OtherUsers(c, d, k, i);
    }
  }

  lemma ApplyUsers(c: Cache, a: Action, k: Key)
    requires Inv(c)
    ensures Inv(Apply(c, a)) && Users(Apply(c, a), k) == Users(c, k) + Change(c, a, k)
  {
    hide Inv; hide Bread; hide Brelease; hide Users;
    ApplyCorrect(c, a, k);
    match a
    case Read(l) => ReadUsers(c, l, k);
    case Release(i) =>
      if i < |c.bufs| && c.bufs[i].count > 0 {
        ReleaseUsers(c, i, k);
      }
    case _ => SameUsers(c, Apply(c, a), k);
  }

  lemma StartUsers(limit: nat, disk: map<Key, Data>, k: Key)
    ensures Users(Start(limit, disk), k) == 0
  {
  }

  /** Over every run the count of a block's buffer is the number of its reads minus the number of its releases. */
  lemma {:induction false} CountIsBalance(limit: nat, disk: map<Key, Data>, run: seq<Action>, k: Key)
    requires Inv(Start(limit, disk))
    ensures Users(Run(Start(limit, disk), run), k) == Balance(Start(limit, disk), run, k)
    decreases |run|
  {
    hide Inv; hide Apply; hide Change; hide Users; hide Start;
    if run == [] {
      StartUsers(limit, disk, k);
    } else {
      CountIsBalance(limit, disk, run[..|run| - 1], k);
      ApplyUsers(Run(Start(limit, disk), run[..|run| - 1]), run[|run| - 1], k);
    }
  }

  /** So a block that has been read more often than released is cached in a valid buffer that is not on the free list,
      and it is cached only then. */
  lemma HeldIsCached(limit: nat, disk: map<Key, Data>, run: seq<Action>, k: Key)
    requires Inv(Start(limit, disk))
    ensures var c := Run(Start(limit, disk), run);
            && (Balance(Start(limit, disk), run, k) > 0 <==> Present(c, k))
            && (Present(c, k) ==> exists i: nat :: Cached(c, k, i) && c.bufs[i].valid && i !in c.free
                                                  && c.bufs[i].count == Balance(Start(limit, disk), run, k))
  {
    hide Run; hide Balance; hide Hash; hide Start;
    CountIsBalance(limit, disk, run, k);
    var c := Run(Start(limit, disk), run);
    if Present(c, k) {
      var i: nat :| Cached(c, k, i);
      UsersAt(c, k, i);
      assert Placed(c, i);
    } else {
      NoUsers(c, k);
    }
  }
}
