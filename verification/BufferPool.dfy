/** The buffers, hash buckets and free list as bread, bwrite and brelease update them in place. Every method refines
    BufferCache. */
module BufferPool {
  import opened BufferCache
  import opened Lists

  class BufferPool {
    const pool: array<Buffer>
    var used: nat
    var table: seq<seq<nat>>
    var free: seq<nat>
    var disk: map<Key, Data>

    ghost function Abs(): Cache
      requires used <= pool.Length
      reads this, pool
    {
      Cache(pool[..used], pool.Length, table, free, disk)
    }

    ghost predicate Valid()
      reads this, pool
    {
      used <= pool.Length && Inv(Abs())
    }

    /** buffer_init, on a pool area that has room for `limit` buffers. */
    constructor (limit: nat, disk: map<Key, Data>)
      ensures Valid() && fresh(pool) && Abs() == Start(limit, disk)
    {
      pool := new Buffer[limit](i => Buffer(Key(EOF, 0), 0, false, false, []));
      used, table, free, this.disk := 0, seq(BUCKETS, i => []), [], disk;
      new;
      assert pool[..used] == [];
      StartInv(limit, disk);
    }

    method GetFromHashTable(k: Key) returns (f: Found)
      requires Valid() && |table| == BUCKETS && forall j | 0 <= j < |table[Hash(k)]| :: table[Hash(k)][j] < used
      ensures f == Search(Abs().bufs, table[Hash(k)], k)
    {
      hide Hash;
      ghost var bufs := Abs().bufs;
      var list := table[Hash(k)];
      var n := 0;
      while n < |list|
        invariant 0 <= n <= |list| && Search(bufs, list, k) == Search(bufs, list[n..], k)
      {
        assert bufs[list[n]] == pool[list[n]];
        if pool[list[n]].key == k {
          return At(list[n]);
        }
        assert list[n..][1..] == list[n + 1..];
        n := n + 1;
      }
      return None;
    }

    method GetFreeBuffer() returns (f: Found)
      requires Valid()
      modifies this`used, this`free, pool
      ensures used <= pool.Length && (Abs(), f) == GetFree(old(Abs()))
      ensures f.At? ==> f.i < used
    {
      FreeBound(Abs());
      if used < pool.Length {
        ghost var bufs := pool[..used];
        pool[used] := Buffer(Key(EOF, 0), 0, false, false, []);
        used := used + 1;
        assert pool[..used] == bufs + [pool[used - 1]];
        return At(used - 1);
      }
      if free != [] {
        var i := free[|free| - 1];
        free := free[..|free| - 1];
        return At(i);
      }
      return None;
    }

    /** bread; None means the caller blocks until a buffer is released. */
    method Bread(k: Key) returns (f: Found)
      requires Valid()
      modifies this, pool
      ensures Valid() && (Abs(), f) == BufferCache.Bread(old(Abs()), k)
    {
      hide Hash; hide Inv; hide Search; hide GetFree;
      ghost var c := Abs();
      BreadCorrect(c, k, k);
      TableBound(c, Hash(k));
      f := GetFromHashTable(k);
      if f.At? {
        ValidHit(c, k);
        assert pool[f.i].valid && pool[f.i].count > 0;
        pool[f.i] := pool[f.i].(count := pool[f.i].count + 1);
        assert pool[..used] == c.bufs[f.i := pool[f.i]];
        return;
      }
      f := GetFreeBuffer();
      if f.None? {
        return;
      }
      ghost var d := Abs();
      pool[f.i] := Buffer(k, 1, false, true, OnDisk(disk, k));
      table := table[Hash(k) := [f.i] + table[Hash(k)]];
      assert pool[..used] == d.bufs[f.i := pool[f.i]];
    }

    /** bread's assertion: what the table finds is valid and in use. */
    lemma ValidHit(c: Cache, k: Key)
      requires Inv(c)
      ensures |c.table| == BUCKETS && (forall j | 0 <= j < |c.table[Hash(k)]| :: c.table[Hash(k)][j] < |c.bufs|)
      ensures var f := Search(c.bufs, c.table[Hash(k)], k); f.At? ==> c.bufs[f.i].valid && c.bufs[f.i].count > 0
    {
      SearchExact(c, k);
      var f := Search(c.bufs, c.table[Hash(k)], k);
      if f.At? {
        assert Placed(c, f.i);
      }
    }

    method Bwrite(i: nat)
      requires Valid() && i < used && pool[i].count > 0
      modifies this`disk
      ensures Valid() && Abs() == BufferCache.Bwrite(old(Abs()), i)
    {
      BwriteCorrect(Abs(), i, pool[i].key);
      disk := disk[pool[i].key := pool[i].data];
    }

    method Brelease(i: nat)
      requires Valid() && i < used && pool[i].count > 0
      modifies this, pool
      ensures Valid() && |old(table)| == BUCKETS && Abs() == BufferCache.Brelease(old(Abs()), i)
    {
      hide Hash; hide Inv; hide Without;
      ghost var c := Abs();
      BreleaseCorrect(c, i, pool[i].key);
      var b := pool[i];
      pool[i] := b.(count := b.count - 1);
      if pool[i].count > 0 {
        assert pool[..used] == c.bufs[i := pool[i]];
        return;
      }
      table := table[Hash(b.key) := Without(table[Hash(b.key)], i)];
      if b.dirty {
        disk := disk[b.key := b.data];
      }
      pool[i] := Buffer(Key(EOF, 0), 0, false, false, b.data);
      free := [i] + free;
      assert pool[..used] == c.bufs[i := pool[i]];
    }
  }
}
