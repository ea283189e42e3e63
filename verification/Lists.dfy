/** Lists of numbers without repetition. */
module Lists {

  function Without(list: seq<nat>, a: nat): (r: seq<nat>)
    ensures forall x :: x in r <==> x in list && x != a
    ensures a !in list ==> r == list
    decreases |list|
  {
    if list == [] then [] else if list[0] == a then Without(list[1..], a) else [list[0]] + Without(list[1..], a)
  }

  ghost predicate Distinct(list: seq<nat>) {
    forall i, j | 0 <= i < j < |list| :: list[i] != list[j]
  }

  lemma {:induction false} WithoutDistinct(list: seq<nat>, a: nat)
    requires Distinct(list)
    ensures Distinct(Without(list, a))
    decreases |list|
  {
    if list != [] {
      WithoutDistinct(list[1..], a);
      assert forall j | 0 < j < |list| :: list[0] != list[j];
      var r := Without(list[1..], a);
      assert forall i | 0 <= i < |r| :: r[i] in list[1..];
    }
  }

  lemma {:induction false} WithoutAt(list: seq<nat>, k: nat)
    requires k < |list| && Distinct(list)
    ensures Without(list, list[k]) == list[..k] + list[k + 1..]
    decreases |list|
  {
    var t := list[1..];
    assert forall i | 0 <= i < |t| :: t[i] == list[i + 1];
    if k == 0 {
      assert list[0] !in t;
    } else {
      WithoutAt(t, k - 1);
      assert t[..k - 1] + t[k..] == list[1..k] + list[k + 1..];
      assert list[..k] == [list[0]] + list[1..k];
    }
  }
}
