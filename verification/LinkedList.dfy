/** The kernel's doubly linked list with head and tail sentinels (src/lib/list.c). */
module LinkedList {
  /** How a 32-bit word reads as an `int`: list_insert_sort compares keys signed. */
  function Signed(x: nat): int
    requires x < 0x1_0000_0000
  {
    if x < 0x8000_0000 then x else x - 0x1_0000_0000
  }

  /** The position list_insert_sort chooses: before the first key greater than `key`, else at the end. */
  function Place(keys: seq<int>, key: int): (k: nat)
    ensures k <= |keys|
    ensures forall i | 0 <= i < k :: keys[i] <= key
    ensures k < |keys| ==> key < keys[k]
    decreases |keys|
  {
    if keys == [] || keys[0] > key then 0 else 1 + Place(keys[1..], key)
  }

  lemma PlaceUnique(keys: seq<int>, key: int, k: nat)
    requires k <= |keys| && (forall i | 0 <= i < k :: keys[i] <= key) && (k < |keys| ==> key < keys[k])
    ensures k == Place(keys, key)
  {
  }

  function InsertAt<T>(s: seq<T>, k: nat, x: T): (r: seq<T>)
    requires k <= |s|
    ensures |r| == |s| + 1
    ensures forall i | 0 <= i < |r| :: r[i] == if i < k then s[i] else if i == k then x else s[i - 1]
  {
    s[..k] + [x] + s[k..]
  }

  function DeleteAt<T>(s: seq<T>, k: nat): (r: seq<T>)
    requires k < |s|
    ensures |r| == |s| - 1
    ensures forall i | 0 <= i < |r| :: r[i] == if i < k then s[i] else s[i + 1]
  {
    s[..k] + s[k + 1..]
  }

  ghost predicate Sorted(keys: seq<int>) {
    forall i, j | 0 <= i < j < |keys| :: keys[i] <= keys[j]
  }

  /** Insertion keeps the order, and equal keys stay in order of arrival. */
  lemma InsertKeepsSorted(keys: seq<int>, key: int)
    requires Sorted(keys)
    ensures Sorted(InsertAt(keys, Place(keys, key), key))
    ensures forall i | 0 <= i < |keys| && keys[i] == key :: i < Place(keys, key)
  {
    var k := Place(keys, key);
    assert forall j | k <= j < |keys| :: key < keys[j];
  }

  lemma DeleteKeepsSorted(keys: seq<int>, k: nat)
    requires Sorted(keys) && k < |keys|
    ensures Sorted(DeleteAt(keys, k))
  {
  }

  /** Chains are determined place by place. */
  lemma InsertedChain<T>(head: T, nodes: seq<T>, tail: T, k: nat, x: T)
    requires k <= |nodes|
    ensures [head] + InsertAt(nodes, k, x) + [tail] == InsertAt([head] + nodes + [tail], k + 1, x)
  {
  }

  lemma DeletedChain<T>(head: T, nodes: seq<T>, tail: T, k: nat)
    requires k < |nodes|
    ensures [head] + DeleteAt(nodes, k) + [tail] == DeleteAt([head] + nodes + [tail], k + 1)
  {
  }

  class Node {
    var prev: Node?
    var next: Node?
    const key: int

    constructor (key: int)
      ensures prev == next == null && this.key == key
    {
      this.key := key;
      prev, next := null, null;
    }
  }

  ghost predicate Distinct(c: seq<Node>) {
    forall i, j | 0 <= i < j < |c| :: c[i] != c[j]
  }

  lemma InsertDistinct(c: seq<Node>, k: nat, x: Node)
    requires Distinct(c) && k <= |c| && x !in c
    ensures Distinct(InsertAt(c, k, x))
  {
  }

  lemma DeleteDistinct(c: seq<Node>, k: nat)
    requires Distinct(c) && k < |c|
    ensures Distinct(DeleteAt(c, k))
  {
  }

  lemma OnlyAt(c: seq<Node>, k: nat)
    requires Distinct(c) && k < |c|
    ensures forall i | 0 <= i < |c| && i != k :: c[i] != c[k]
  {
  }

  class List {
    const head: Node
    const tail: Node
    ghost var nodes: seq<Node>

    /** The sentinels and everything between them. */
    ghost function Chain(): (c: seq<Node>)
      reads this
      ensures |c| == |nodes| + 2
    {
      [head] + nodes + [tail]
    }

    ghost predicate Linked(c: seq<Node>)
      reads c
    {
      forall i | 0 <= i < |c| - 1 :: c[i].next == c[i + 1] && c[i + 1].prev == c[i]
    }

    ghost predicate Valid()
      reads this, head, tail, nodes
    {
      && Distinct(Chain())
      && Linked(Chain()) && head.prev == null && tail.next == null
    }

    ghost function Keys(): (k: seq<int>)
      reads this
      ensures |k| == |nodes|
    {
      seq(|nodes|, i requires 0 <= i < |nodes| reads this => nodes[i].key)
    }

    /** The tail sentinel ends the chain and occurs nowhere before. */
    lemma OnlyTail(k: nat)
      requires Valid() && k <= |nodes|
      ensures Chain()[k + 1] == tail <==> k == |nodes|
    {
      assert Chain()[|nodes| + 1] == tail;
      assert k < |nodes| ==> Chain()[k + 1] != Chain()[|nodes| + 1];
    }

    constructor ()
      ensures Valid() && nodes == [] && fresh(head) && fresh(tail)
    {
      head := new Node(0);
      tail := new Node(0);
      nodes := [];
      new;
      head.next := tail;
      tail.prev := head;
    }

    /** list_insert_before: `anchor` is at place `k + 1` of the chain. */
    method InsertBefore(anchor: Node, node: Node, ghost k: nat)
      requires Valid() && k <= |nodes| && anchor == Chain()[k + 1] && node !in Chain()
      modifies this`nodes, Chain(), node
      ensures Valid() && nodes == InsertAt(old(nodes), k, node)
    {
      hide Distinct;
      ghost var c := Chain();
      OnlyAt(c, k);
      OnlyAt(c, k + 1);
      InsertDistinct(c, k + 1, node);
      assert c[k].next == anchor && anchor.prev == c[k];
      node.next := anchor;
      anchor.prev.next := node;
      node.prev := anchor.prev;
      anchor.prev := node;
      assert forall i | 0 <= i < |c| && i != k :: c[i].next == old(c[i].next);
      assert forall i | 0 <= i < |c| && i != k + 1 :: c[i].prev == old(c[i].prev);
      ghost var d := InsertAt(c, k + 1, node);
      forall i | 0 <= i < |d| - 1 ensures d[i].next == d[i + 1] && d[i + 1].prev == d[i] {
        assert d[i] == if i <= k then c[i] else if i == k + 1 then node else c[i - 1];
        assert d[i + 1] == if i < k then c[i + 1] else if i == k then node else c[i];
      }
      InsertedChain(head, nodes, tail, k, node);
      nodes := InsertAt(nodes, k, node);
    }

    /** list_insert_after: `anchor` is at place `k` of the chain. */
    method InsertAfter(anchor: Node, node: Node, ghost k: nat)
      requires Valid() && k <= |nodes| && anchor == Chain()[k] && node !in Chain()
      modifies this`nodes, Chain(), node
      ensures Valid() && nodes == InsertAt(old(nodes), k, node)
    {
      hide Distinct;
      ghost var c := Chain();
      OnlyAt(c, k);
      OnlyAt(c, k + 1);
      InsertDistinct(c, k + 1, node);
      assert anchor.next == c[k + 1];
      node.next := anchor.next;
      anchor.next := node;
      node.prev := anchor;
      var after := node.next;
      after.prev := node;
      assert forall i | 0 <= i < |c| && i != k :: c[i].next == old(c[i].next);
      assert forall i | 0 <= i < |c| && i != k + 1 :: c[i].prev == old(c[i].prev);
      ghost var d := InsertAt(c, k + 1, node);
      forall i | 0 <= i < |d| - 1 ensures d[i].next == d[i + 1] && d[i + 1].prev == d[i] {
        assert d[i] == if i <= k then c[i] else if i == k + 1 then node else c[i - 1];
        assert d[i + 1] == if i < k then c[i + 1] else if i == k then node else c[i];
      }
      InsertedChain(head, nodes, tail, k, node);
      nodes := InsertAt(nodes, k, node);
    }

    lemma LinkedAll(c: seq<Node>)
      requires Linked(c)
      ensures forall i | 0 <= i < |c| - 1 :: c[i].next == c[i + 1]
      ensures forall i | 0 < i < |c| :: c[i].prev == c[i - 1]
    {
      forall i | 0 < i < |c| ensures c[i].prev == c[i - 1] {
        assert c[i - 1].next == c[i];
      }
    }

    /** A chain that leads past one of its nodes. */
    lemma LinkedPast(c: seq<Node>, k: nat)
      requires k + 2 < |c| && c[k].next == c[k + 2] && c[k + 2].prev == c[k]
      requires forall i | 0 <= i < |c| - 1 && i != k && i != k + 1 :: c[i].next == c[i + 1]
      requires forall i | 0 < i < |c| && i != k + 1 && i != k + 2 :: c[i].prev == c[i - 1]
      ensures Linked(DeleteAt(c, k + 1))
    {
      ghost var d := DeleteAt(c, k + 1);
      forall i | 0 <= i < |d| - 1 ensures d[i].next == d[i + 1] && d[i + 1].prev == d[i] {
        assert d[i] == c[if i <= k then i else i + 1];
        assert d[i + 1] == c[if i < k then i + 1 else i + 2];
      }
    }

    /** list_remove: the node leaves with both pointers cleared. */
    method Remove(node: Node, ghost k: nat)
      requires Valid() && k < |nodes| && node == nodes[k]
      modifies this`nodes, Chain()
      ensures Valid() && nodes == DeleteAt(old(nodes), k)
      ensures node.prev == null && node.next == null
    {
      hide Distinct; hide Linked; hide DeleteAt;
      ghost var c := Chain();
      LinkedAll(c);
      OnlyAt(c, k);
      OnlyAt(c, k + 1);
      OnlyAt(c, k + 2);
      DeleteDistinct(c, k + 1);
      DeletedChain(head, nodes, tail, k);
      assert c[k + 1] == node && node.prev == c[k] && node.next == c[k + 2];
      node.prev.next := node.next;
      node.next.prev := node.prev;
      node.prev := null;
      node.next := null;
      LinkedPast(c, k);
      nodes := DeleteAt(nodes, k);
    }

    method Search(node: Node) returns (found: bool)
      requires Valid()
      ensures found <==> node in nodes
    {
      ghost var k := 0;
      assert Chain()[1] == if nodes == [] then tail else nodes[0];
      assert Chain()[0].next == Chain()[1];
      var next := head.next;
      while next != tail
        invariant 0 <= k <= |nodes| && next == Chain()[k + 1] && node !in nodes[..k]
        decreases |nodes| - k
      {
        assert next == nodes[k];
        if next == node {
          return true;
        }
        assert next.next == Chain()[k + 2];
        next := next.next;
        k := k + 1;
      }
      OnlyTail(k);
      return false;
    }

    method Empty() returns (empty: bool)
      requires Valid()
      ensures empty <==> nodes == []
    {
      assert Chain()[0].next == Chain()[1];
      assert nodes != [] ==> Chain()[1] == nodes[0] && Chain()[1] != Chain()[|nodes| + 1];
      return head.next == tail;
    }

    method Size() returns (size: nat)
      requires Valid()
      ensures size == |nodes|
    {
      assert Chain()[0].next == Chain()[1];
      var next := head.next;
      size := 0;
      while next != tail
        invariant 0 <= size <= |nodes| && next == Chain()[size + 1]
        decreases |nodes| - size
      {
        assert size < |nodes|;
        assert next.next == Chain()[size + 2];
        next := next.next;
        size := size + 1;
      }
      OnlyTail(size);
    }

    method Push(node: Node)
      requires Valid() && node !in Chain()
      modifies this`nodes, Chain(), node
      ensures Valid() && nodes == [node] + old(nodes)
    {
      InsertAfter(head, node, 0);
    }

    method PushBack(node: Node)
      requires Valid() && node !in Chain()
      modifies this`nodes, Chain(), node
      ensures Valid() && nodes == old(nodes) + [node]
    {
      InsertBefore(tail, node, |nodes|);
    }

    method Pop() returns (node: Node)
      requires Valid() && nodes != []
      modifies this`nodes, Chain()
      ensures Valid() && [node] + nodes == old(nodes) && node.prev == null && node.next == null
    {
      assert Chain()[0].next == Chain()[1] == nodes[0];
      node := head.next;
      Remove(node, 0);
    }

    method PopBack() returns (node: Node)
      requires Valid() && nodes != []
      modifies this`nodes, Chain()
      ensures Valid() && nodes + [node] == old(nodes) && node.prev == null && node.next == null
    {
      assert Chain()[|nodes|] == nodes[|nodes| - 1] && Chain()[|nodes|].next == Chain()[|nodes| + 1] == tail;
      node := tail.prev;
      Remove(node, |nodes| - 1);
    }

    /** list_insert_sort. */
    method InsertSort(node: Node)
      requires Valid() && node !in Chain()
      modifies this`nodes, Chain(), node
      ensures Valid() && nodes == InsertAt(old(nodes), Place(old(Keys()), node.key), node)
      ensures Keys() == InsertAt(old(Keys()), Place(old(Keys()), node.key), node.key)
    {
      var anchor := tail;
      ghost var k := 0;
      assert Chain()[0].next == Chain()[1];
      var ptr := head.next;
      while ptr != tail
        invariant 0 <= k <= |nodes| && ptr == Chain()[k + 1] && anchor == tail
        invariant forall i | 0 <= i < k :: Keys()[i] <= node.key
        decreases |nodes| - k
      {
        assert ptr == nodes[k] by {
          assert k < |nodes|;
        }
        if ptr.key > node.key {
          anchor := ptr;
          break;
        }
        assert ptr.next == Chain()[k + 2];
        ptr := ptr.next;
        k := k + 1;
      }
      OnlyTail(k);
      PlaceUnique(Keys(), node.key, k);
      InsertBefore(anchor, node, k);
    }
  }
}
