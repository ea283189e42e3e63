/** Bytes as array indices. */
module Bytes {
  function Index(b: bv8): (i: nat)
    ensures i < 256
  {
    b as int
  }

  /** The byte of value `i`. */
  function At(i: nat): bv8
    requires i < 256
  {
    if i == 0 then 0 else At(i - 1) + 1
  }

  lemma Successor(b: bv8)
    requires b != 0xff
    ensures (b + 1) as int == b as int + 1
  {
  }

  lemma Injective(a: bv8, b: bv8)
    requires a as int == b as int
    ensures a == b
  {
  }

  lemma {:induction false} IndexAt(i: nat)
    requires i < 256
    ensures Index(At(i)) == i
  {
    if i > 0 {
      IndexAt(i - 1);
      Successor(At(i - 1));
    }
  }

  lemma AtIndex(b: bv8)
    ensures At(Index(b)) == b
  {
    IndexAt(Index(b));
    Injective(At(Index(b)), b);
  }

  lemma ByteAt(i: nat)
    requires i < 256
    ensures Index(At(i)) == i && forall b: bv8 :: Index(b) == i ==> b == At(i)
  {
    hide Index; hide At;
    IndexAt(i);
    forall b: bv8 | Index(b) == i ensures b == At(i) {
      AtIndex(b);
    }
  }
}
