/** Pipes with one reader and one writer (src/fs/pipe.c). A step is one pass of the loop in pipe_read or pipe_write,
    which runs without interruption up to the point where the task blocks; the passes of the two sides may
    interleave in any way. */
module Pipe {
  import Fifo

  type Byte = Fifo.Byte

  /** Outside the call, in its loop, blocked in it, or woken and about to go on after task_block. */
  datatype Side = Idle | Busy | Blocked | Woken

  /** `failed` is set by an assertion that does not hold. `sent`, `written` and `got` are what all pipe_write calls
      were given, what reached fifo_put and what fifo_get returned. */
  datatype Pipe = Pipe(
    queue: seq<Byte>, capacity: nat,
    reader: Side, toRead: nat, rxwaiter: bool,
    writer: Side, toWrite: seq<Byte>, txwaiter: bool,
    sent: seq<Byte>, written: seq<Byte>, got: seq<Byte>, failed: bool)

  /** fifo_put: a full ring drops its oldest byte. */
  function Push(queue: seq<Byte>, capacity: nat, byte: Byte): seq<Byte> {
    (if |queue| == capacity && capacity > 0 then queue[1..] else queue) + [byte]
  }

  // ---- steps ----

  /** The rest of a pass of pipe_read: take a byte, wake the writer. */
  function Take(p: Pipe): Pipe {
    if p.queue == [] then p.(failed := true)
    else
      p.(queue := p.queue[1..], got := p.got + [p.queue[0]], reader := Busy,
         toRead := if p.toRead > 0 then p.toRead - 1 else 0,
         writer := if p.txwaiter then Woken else p.writer, txwaiter := false)
  }

  function ReadPass(p: Pipe): Pipe {
    match p.reader
    case Busy =>
      if p.toRead == 0 then p.(reader := Idle)
      else if p.queue == [] then p.(failed := p.failed || p.rxwaiter, rxwaiter := true, reader := Blocked)
      else Take(p)
    case Woken => Take(p)
    case _ => p
  }

  /** The rest of a pass of pipe_write: put a byte, wake the reader. */
  function Give(p: Pipe): Pipe {
    if p.toWrite == [] then p.(failed := true)
    else
      p.(queue := Push(p.queue, p.capacity, p.toWrite[0]), written := p.written + [p.toWrite[0]], writer := Busy,
         toWrite := p.toWrite[1..], reader := if p.rxwaiter then Woken else p.reader, rxwaiter := false)
  }

  function WritePass(p: Pipe): Pipe {
    match p.writer
    case Busy =>
      if p.toWrite == [] then p.(writer := Idle)
      else if |p.queue| == p.capacity then p.(failed := p.failed || p.txwaiter, txwaiter := true, writer := Blocked)
      else Give(p)
    case Woken => Give(p)
    case _ => p
  }

  /** Of any state, reachable or not: the flag is set exactly by a side that would block where one is blocked already,
      and by a read that goes on with an empty ring. */
  lemma AssertionsChecked(p: Pipe)
    ensures p.reader.Busy? && p.toRead > 0 ==> (ReadPass(p).failed <==> p.failed || (|p.queue| == 0 && p.rxwaiter))
    ensures p.reader.Woken? ==> (ReadPass(p).failed <==> p.failed || |p.queue| == 0)
    ensures p.writer.Busy? && |p.toWrite| > 0 ==>
              (WritePass(p).failed <==> p.failed || (|p.queue| == p.capacity && p.txwaiter))
  {
  }

  datatype Action = CallRead(count: nat) | CallWrite(data: seq<Byte>) | Reader | Writer

  function Apply(p: Pipe, a: Action): Pipe {
    match a
    case CallRead(count) => if p.reader.Idle? then p.(reader := Busy, toRead := count) else p
    case CallWrite(data) => if p.writer.Idle? then p.(writer := Busy, toWrite := data, sent := p.sent + data) else p
    case Reader => ReadPass(p)
    case Writer => WritePass(p)
  }

  function Run(p: Pipe, run: seq<Action>): Pipe {
    if run == [] then p else Apply(Run(p, run[..|run| - 1]), run[|run| - 1])
  }

  function Start(capacity: nat): Pipe {
    Pipe([], capacity, Idle, 0, false, Idle, [], false, [], [], [], false)
  }

  // ---- the invariant ----

  ghost predicate Inv(p: Pipe) {
    && p.capacity >= 1 && |p.queue| <= p.capacity && !p.failed
    && p.got + p.queue == p.written && p.written + p.toWrite == p.sent
    && (p.reader.Blocked? <==> p.rxwaiter) && (p.writer.Blocked? <==> p.txwaiter)
    && (p.reader.Blocked? ==> p.queue == []) && (p.writer.Blocked? ==> |p.queue| == p.capacity)
    && (p.reader.Woken? ==> p.queue != []) && (p.writer.Woken? ==> |p.queue| < p.capacity)
    && (p.reader.Blocked? || p.reader.Woken? ==> p.toRead > 0)
    && (p.writer.Blocked? || p.writer.Woken? ==> p.toWrite != [])
    && (p.writer.Idle? ==> p.toWrite == [])
  }

  lemma TakeInv(p: Pipe)
    requires Inv(p) && (p.reader.Woken? || (p.reader.Busy? && p.toRead > 0 && p.queue != []))
    ensures Inv(Take(p))
  {
    assert p.got + [p.queue[0]] + p.queue[1..] == p.got + p.queue;
  }

  lemma GiveInv(p: Pipe)
    requires Inv(p) && (p.writer.Woken? || (p.writer.Busy? && p.toWrite != [] && |p.queue| < p.capacity))
    ensures Inv(Give(p))
  {
    var byte := p.toWrite[0];
    assert p.got + (p.queue + [byte]) == p.written + [byte];
    assert p.written + [byte] + p.toWrite[1..] == p.written + p.toWrite;
  }

  lemma ApplyInv(p: Pipe, a: Action)
    requires Inv(p)
    ensures Inv(Apply(p, a))
  {
    if a.Reader? && (p.reader.Woken? || (p.reader.Busy? && p.toRead > 0 && p.queue != [])) {
      TakeInv(p);
    } else if a.Writer? && (p.writer.Woken? || (p.writer.Busy? && p.toWrite != [] && |p.queue| < p.capacity)) {
      GiveInv(p);
    } else if a.CallWrite? && p.writer.Idle? {
      assert p.written + a.data == p.sent + a.data;
    }
  }

  lemma {:induction false} RunInv(capacity: nat, run: seq<Action>)
    requires capacity >= 1
    ensures var p := Run(Start(capacity), run); Inv(p) && p.capacity == capacity
    decreases |run|
  {
    hide Apply; hide Inv;
    if run == [] {
      StartInv(capacity);
    } else {
      RunInv(capacity, run[..|run| - 1]);
      ApplyInv(Run(Start(capacity), run[..|run| - 1]), run[|run| - 1]);
      KeepsCapacity(Run(Start(capacity), run[..|run| - 1]), run[|run| - 1]);
    }
  }

  lemma StartInv(capacity: nat)
    requires capacity >= 1
    ensures Inv(Start(capacity))
  {
  }

  /** Over every interleaving: what was read, then what is in flight, then what is still to be written is what was
      sent; at most `capacity` bytes are in flight; no assertion fails, so fifo_get never meets an empty ring and
      fifo_put never discards; and the two sides are never blocked at once. */
  lemma Reachable(capacity: nat, run: seq<Action>)
    requires capacity >= 1
    ensures var p := Run(Start(capacity), run);
            p.got + p.queue + p.toWrite == p.sent && p.got <= p.sent && |p.queue| <= capacity && !p.failed
            && !(p.reader.Blocked? && p.writer.Blocked?)
  {
    hide Run; hide Apply;
    RunInv(capacity, run);
  }

  lemma KeepsCapacity(p: Pipe, a: Action)
    ensures Apply(p, a).capacity == p.capacity
  {
  }

  /** A blocked side is woken by the next byte that the other side moves, and then never blocks again first. */
  lemma BlockedIsWoken(p: Pipe)
    requires Inv(p)
    ensures p.reader.Blocked? && p.writer.Busy? && p.toWrite != [] ==>
              var q := WritePass(p); q.reader.Woken? && |ReadPass(q).got| == |p.got| + 1
    ensures p.writer.Blocked? && p.reader.Busy? && p.toRead > 0 ==>
              var q := ReadPass(p); q.writer.Woken? && |WritePass(q).written| == |p.written| + 1
  {
  }

  /** Blocking is for a reason only: the ring is empty, or it is full. */
  lemma BlocksExactly(p: Pipe)
    requires Inv(p)
    ensures p.reader.Busy? ==> (ReadPass(p).reader.Blocked? <==> p.toRead > 0 && p.queue == [])
    ensures p.writer.Busy? ==> (WritePass(p).writer.Blocked? <==> p.toWrite != [] && |p.queue| == p.capacity)
  {
  }

  /** A ring of one cell has no capacity, and a writer and a reader block at once. */
  lemma OneCellDeadlock(byte: Byte)
    ensures var p := Run(Start(0), [CallWrite([byte]), Writer, CallRead(1), Reader]);
            p.reader.Blocked? && p.writer.Blocked?
  {
    var run := [CallWrite([byte]), Writer, CallRead(1), Reader];
    var p1 := Apply(Run(Start(0), []), run[0]);
    assert run[..1][..0] == [] && Run(Start(0), run[..1]) == p1;
    assert run[..2][..1] == run[..1] && Run(Start(0), run[..2]) == Apply(p1, run[1]);
    assert run[..3][..2] == run[..2] && Run(Start(0), run[..3]) == Apply(Apply(p1, run[1]), run[2]);
    assert run[..3] == run[..|run| - 1];
  }

  /** What the passes may rely on: the source's assertions, and no byte where none is left. */
  lemma PassFacts(p: Pipe)
    requires Inv(p)
    ensures !p.failed && p.capacity >= 1
    ensures p.reader.Busy? ==> !p.rxwaiter
    ensures p.reader.Woken? ==> p.queue != [] && p.toRead > 0
    ensures p.writer.Busy? ==> !p.txwaiter
    ensures p.writer.Woken? ==> |p.queue| < p.capacity && p.toWrite != []
  {
  }

  // ---- the inode that carries the pipe ----

  /** The pipe inode with its ring and the two waiters; the sides and the byte counts are the two tasks' own. */
  class PipeInode {
    const fifo: Fifo.Fifo
    var rxwaiter: bool
    var txwaiter: bool
    var reader: Side
    var toRead: nat
    var writer: Side
    var toWrite: seq<Byte>
    ghost var sent: seq<Byte>
    ghost var written: seq<Byte>
    ghost var got: seq<Byte>

    ghost function Abs(): Pipe
      requires fifo.Valid()
      reads this, fifo, fifo.buf
    {
      Pipe(fifo.Contents(), fifo.buf.Length - 1, reader, toRead, rxwaiter, writer, toWrite, txwaiter, sent, written,
        got, false)
    }

    ghost predicate Valid()
      reads this, fifo, fifo.buf
    {
      fifo.Valid() && Inv(Abs())
    }

    constructor (length: nat)
      requires length >= 2
      ensures Valid() && fresh(fifo) && fresh(fifo.buf) && Abs() == Start(length - 1)
    {
      fifo := new Fifo.Fifo(length);
      rxwaiter, txwaiter, reader, toRead, writer, toWrite := false, false, Idle, 0, Idle, [];
      sent, written, got := [], [], [];
    }

    method Read()
      requires Valid()
      modifies this, fifo
      ensures Valid() && Abs() == ReadPass(old(Abs()))
    {
      hide Inv;
      PassFacts(Abs());
      ApplyInv(Abs(), Reader);
      ghost var p := Abs();
      if reader.Busy? {
        if toRead == 0 {
          reader := Idle;
          return;
        }
        if fifo.Empty() {
          assert !rxwaiter;
          rxwaiter, reader := true, Blocked;
          return;
        }
      } else if !reader.Woken? {
        return;
      }
      var byte := fifo.Get();
      assert p.queue[0] == byte && p.queue[1..] == fifo.Contents();
      got, reader, toRead := got + [byte], Busy, toRead - 1;
      if txwaiter {
        writer, txwaiter := Woken, false;
      }
    }

    method Write()
      requires Valid()
      modifies this, fifo, fifo.buf
      ensures Valid() && Abs() == WritePass(old(Abs()))
    {
      hide Inv;
      PassFacts(Abs());
      ApplyInv(Abs(), Writer);
      if writer.Busy? {
        if toWrite == [] {
          writer := Idle;
          return;
        }
        if fifo.Full() {
          assert !txwaiter;
          txwaiter, writer := true, Blocked;
          return;
        }
      } else if !writer.Woken? {
        return;
      }
      var stored := fifo.Put(toWrite[0]);
      written, writer, toWrite := written + [toWrite[0]], Busy, toWrite[1..];
      if rxwaiter {
        reader, rxwaiter := Woken, false;
      }
    }
  }
}
