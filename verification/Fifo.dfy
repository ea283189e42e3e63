/** The byte ring of pipes and character devices (src/lib/fifo.c). One cell stays unused: head and tail point at the
    last cell read and the last cell written. */
module Fifo {
  type Byte = bv8

  function Next(length: nat, pos: nat): (r: nat)
    requires pos < length
    ensures r == if pos + 1 == length then 0 else pos + 1
  {
    (pos + 1) % length
  }

  /** How many bytes lie between head and tail. */
  function Held(length: nat, head: nat, tail: nat): (r: nat)
    requires head < length && tail < length
    ensures r < length
  {
    if head <= tail then tail - head else tail + length - head
  }

  /** Full and empty as fifo_full and fifo_empty test them, in terms of the number of bytes held. */
  lemma FullEmpty(length: nat, head: nat, tail: nat)
    requires head < length && tail < length
    ensures Next(length, tail) == head <==> Held(length, head, tail) == length - 1
    ensures head == tail <==> Held(length, head, tail) == 0
  {
  }

  /** The cell of the i-th byte held. */
  function Cell(length: nat, head: nat, i: nat): (r: nat)
    requires head < length && i < length
    ensures r < length
  {
    if head + 1 + i < length then head + 1 + i else head + 1 + i - length
  }

  /** The bytes held, oldest first. */
  function Window(cells: seq<Byte>, head: nat, tail: nat): (s: seq<Byte>)
    requires head < |cells| && tail < |cells|
    ensures |s| == Held(|cells|, head, tail) < |cells|
  {
    var n := Held(|cells|, head, tail);
    seq(n, i requires 0 <= i < n => cells[Cell(|cells|, head, i)])
  }

  lemma WindowGet(cells: seq<Byte>, head: nat, tail: nat)
    requires head < |cells| && tail < |cells| && head != tail
    ensures var h := Next(|cells|, head); Window(cells, head, tail) == [cells[h]] + Window(cells, h, tail)
  {
    hide Next;
    var h := Next(|cells|, head);
    assert forall i | 0 <= i < Held(|cells|, h, tail) :: Cell(|cells|, h, i) == Cell(|cells|, head, i + 1);
  }

  lemma WindowPut(cells: seq<Byte>, head: nat, tail: nat, byte: Byte)
    requires head < |cells| && tail < |cells| && Next(|cells|, tail) != head
    ensures var t := Next(|cells|, tail); Window(cells[t := byte], head, t) == Window(cells, head, tail) + [byte]
  {
    hide Next;
    var n, t := Held(|cells|, head, tail), Next(|cells|, tail);
    assert Held(|cells|, head, t) == n + 1 && Cell(|cells|, head, n) == t;
    assert forall i | 0 <= i < n :: Cell(|cells|, head, i) != t;
  }

  class Fifo {
    const buf: array<Byte>
    var head: nat
    var tail: nat

    ghost predicate Valid()
      reads this
    {
      head < buf.Length && tail < buf.Length
    }

    ghost function Contents(): (s: seq<Byte>)
      requires Valid()
      reads this, buf
      ensures |s| == Held(buf.Length, head, tail) < buf.Length
    {
      Window(buf[..], head, tail)
    }

    constructor (length: nat)
      requires length > 0
      ensures Valid() && fresh(buf) && buf.Length == length && Contents() == []
    {
      buf := new Byte[length];
      head, tail := 0, 0;
    }

    predicate Full()
      requires Valid()
      reads this
      ensures Full() <==> Held(buf.Length, head, tail) == buf.Length - 1
    {
      FullEmpty(buf.Length, head, tail);
      Next(buf.Length, tail) == head
    }

    predicate Empty()
      requires Valid()
      reads this
      ensures Empty() <==> Held(buf.Length, head, tail) == 0
    {
      head == tail
    }

    method Get() returns (byte: Byte)
      requires Valid() && Contents() != []
      modifies this`head
      ensures Valid() && [byte] + Contents() == old(Contents())
    {
      WindowGet(buf[..], head, tail);
      head := Next(buf.Length, head);
      byte := buf[head];
    }

    /** A full ring first drops its oldest byte. A ring of one cell is full and empty at once: dropping fails the
        assertion of fifo_get, and nothing is stored. */
    method Put(byte: Byte) returns (stored: bool)
      requires Valid()
      modifies this`head, this`tail, buf
      ensures Valid() && stored == (buf.Length > 1)
      ensures !stored ==> Contents() == old(Contents())
      ensures stored ==>
                var kept := if old(|Contents()|) == buf.Length - 1 then old(Contents())[1..] else old(Contents());
                Contents() == kept + [byte]
    {
      ghost var s := Contents();
      while Full()
        invariant Valid() && (Contents() == s || (|s| == buf.Length - 1 && Contents() == s[1..]))
        invariant tail == old(tail)
        modifies this`head
        decreases |Contents()|
      {
        if Empty() {
          return false;
        }
        var oldest := Get();
      }
      WindowPut(buf[..], head, tail, byte);
      tail := Next(buf.Length, tail);
      buf[tail] := byte;
      assert buf[..] == old(buf[..])[tail := byte];
      return true;
    }
  }
}
