/** Counting the keys of a finite map that hold a given value. */
module Counting {

  ghost function Holders<K>(m: map<K, nat>, f: nat): set<K> {
    set k | k in m && m[k] == f
  }

  /** How many keys of `m` hold `f`. */
  ghost function Uses<K>(m: map<K, nat>, f: nat): nat {
    |Holders(m, f)|
  }

  lemma UsesDrop<K>(m: map<K, nat>, k: K, f: nat)
    ensures Uses(m - {k}, f) == Uses(m, f) - if k in m && m[k] == f then 1 else 0
  {
    assert Holders(m - {k}, f) == Holders(m, f) - {k};
  }

  lemma UsesPut<K>(m: map<K, nat>, k: K, g: nat, f: nat)
    ensures Uses(m[k := g], f) == Uses(m - {k}, f) + if g == f then 1 else 0
  {
    if g == f {
      assert Holders(m[k := g], f) == Holders(m - {k}, f) + {k};
    } else {
      assert Holders(m[k := g], f) == Holders(m - {k}, f);
    }
  }

  lemma UsesAdd<K>(m: map<K, nat>, k: K, g: nat, f: nat)
    requires k !in m
    ensures Uses(m[k := g], f) == Uses(m, f) + if g == f then 1 else 0
  {
    UsesPut(m, k, g, f);
    UsesDrop(m, k, f);
  }

  /** A key that holds `f` makes the count positive; two distinct ones make it at least two. */
  lemma UsesSome<K>(m: map<K, nat>, k: K)
    requires k in m
    ensures Uses(m, m[k]) >= 1
    ensures Uses(m, m[k]) == 1 ==> forall j | j in m && m[j] == m[k] :: j == k
  {
    assert k in Holders(m, m[k]);
    forall j | j in m && m[j] == m[k] && j != k
      ensures Uses(m, m[k]) != 1
    {
      UsesDrop(m, k, m[k]);
      assert j in Holders(m - {k}, m[k]);
    }
  }

  lemma UsesNone<K>(m: map<K, nat>, f: nat)
    requires Uses(m, f) == 0
    ensures forall k | k in m :: m[k] != f
  {
    forall k | k in m
      ensures m[k] != f
    {
      if m[k] == f {
        UsesSome(m, k);
      }
    }
  }

  ghost function Zeros(counts: seq<nat>): set<nat> {
    set f: nat | f < |counts| && counts[f] == 0
  }

  lemma ZerosPut(counts: seq<nat>, f: nat, c: nat)
    requires f < |counts|
    ensures |Zeros(counts[f := c])| == |Zeros(counts)| - (if counts[f] == 0 then 1 else 0) + (if c == 0 then 1 else 0)
  {
    var was, now := Zeros(counts), Zeros(counts[f := c]);
    assert now - {f} == was - {f} by {
      forall g: nat | g < |counts| && g != f
        ensures g in now <==> g in was
      {
        assert counts[f := c][g] == counts[g];
      }
    }
    assert f in now <==> c == 0;
    assert f in was <==> counts[f] == 0;
    SizeWithout(now, f);
    SizeWithout(was, f);
  }

  lemma SizeWithout(s: set<nat>, f: nat)
    ensures |s - {f}| == |s| - if f in s then 1 else 0
  {
  }

  /** A map from `A` into `B` that is one-to-one on `a` bounds the size of `a` by that of `b`. */
  lemma InjectionBound<A, B>(a: set<A>, b: set<B>, key: A -> B)
    requires forall x | x in a :: key(x) in b
    requires forall x, y | x in a && y in a && key(x) == key(y) :: x == y
    ensures |a| <= |b|
  {
    if a != {} {
      var x :| x in a;
      InjectionBound(a - {x}, b - {key(x)}, key);
    }
  }

  /** A set of naturals below `n` has at most `n` elements. */
  lemma SmallSet(s: set<nat>, n: nat)
    requires forall x | x in s :: x < n
    ensures |s| <= n
  {
    if n > 0 {
      SmallSet(s - {n - 1}, n - 1);
    } else {
      assert s == {};
    }
  }
}
