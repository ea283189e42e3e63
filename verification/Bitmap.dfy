/** Byte-array bitmaps (src/lib/bitmap.c): the page and zone allocators' free maps.
    The specification works on the sequence of bits; the class keeps them in bytes. */
module Bitmaps {

  /** `count` consecutive clear bits start at `i`. */
  predicate ClearRun(bits: seq<bool>, i: nat, count: nat) {
    i + count <= |bits| && forall k | i <= k < i + count :: !bits[k]
  }

  datatype Found = NotFound | At(start: nat)

  /** First fit: the least position at or after `from` where `count` clear bits start. */
  function FirstRun(bits: seq<bool>, count: nat, from: nat): (r: Found)
    ensures r.At? ==> from <= r.start && ClearRun(bits, r.start, count)
    ensures r.At? ==> forall j | from <= j < r.start :: !ClearRun(bits, j, count)
    ensures r.NotFound? ==> forall j | from <= j :: !ClearRun(bits, j, count)
    decreases |bits| - from
  {
    if from + count > |bits| then NotFound
    else if ClearRun(bits, from, count) then At(from)
    else if from == |bits| then NotFound
    else FirstRun(bits, count, from + 1)
  }

  function SetRange(bits: seq<bool>, start: nat, count: nat, value: bool): (r: seq<bool>)
    requires start + count <= |bits|
    ensures |r| == |bits|
    ensures forall k | 0 <= k < |bits| :: r[k] == if start <= k < start + count then value else bits[k]
  {
    seq(|bits|, k requires 0 <= k < |bits| => if start <= k < start + count then value else bits[k])
  }

  lemma SetRangeStep(bits: seq<bool>, start: nat, count: nat, value: bool)
    requires start + count < |bits|
    ensures SetRange(bits, start, count, value)[start + count := value] == SetRange(bits, start, count + 1, value)
  {
  }

  /** Claiming a clear run and then releasing it restores the map bit for bit. */
  lemma ReleaseUndoesClaim(bits: seq<bool>, start: nat, count: nat)
    requires ClearRun(bits, start, count)
    ensures SetRange(SetRange(bits, start, count, true), start, count, false) == bits
  {
    assert |SetRange(bits, start, count, true)| == |bits|;
  }

  // ---- the byte representation ----

  function Mask(b: nat): (m: bv8)
    requires b < 8
  {
    (1 as bv8) << b
  }

  predicate BitOf(byte: bv8, b: nat)
    requires b < 8
  {
    byte & Mask(b) != 0
  }

  lemma MaskTable()
    ensures Mask(0) == 1 && Mask(1) == 2 && Mask(2) == 4 && Mask(3) == 8
    ensures Mask(4) == 16 && Mask(5) == 32 && Mask(6) == 64 && Mask(7) == 128
  {
  }

  lemma SetBit(byte: bv8, b: nat, c: nat)
    requires b < 8 && c < 8
    ensures BitOf(byte | Mask(b), c) == (b == c || BitOf(byte, c))
  {
    MaskTable();
  }

  lemma ClearBit(byte: bv8, b: nat, c: nat)
    requires b < 8 && c < 8
    ensures BitOf(byte & !Mask(b), c) == (b != c && BitOf(byte, c))
  {
    MaskTable();
  }

  /** The bits of a byte sequence, low bit of byte 0 first. */
  function BitsOf(bytes: seq<bv8>): (s: seq<bool>)
    ensures |s| == 8 * |bytes|
  {
    seq(8 * |bytes|, i requires 0 <= i < 8 * |bytes| => BitOf(bytes[i / 8], i % 8))
  }

  predicate Replaces(old_: bv8, new_: bv8, b: nat, value: bool) {
    forall c | 0 <= c < 8 :: BitOf(new_, c) == if b == c then value else BitOf(old_, c)
  }

  lemma BitsOfUpdate(bytes: seq<bv8>, idx: nat, byte: bv8, value: bool)
    requires idx < 8 * |bytes|
    requires Replaces(bytes[idx / 8], byte, idx % 8, value)
    ensures BitsOf(bytes[idx / 8 := byte]) == BitsOf(bytes)[idx := value]
  {
    var now, want := BitsOf(bytes[idx / 8 := byte]), BitsOf(bytes)[idx := value];
    forall i | 0 <= i < |now|
      ensures now[i] == want[i]
    {
      if i / 8 == idx / 8 {
        assert BitOf(byte, i % 8) == if idx % 8 == i % 8 then value else BitOf(bytes[idx / 8], i % 8);
      }
    }
  }

  lemma BitWritten(byte: bv8, b: nat)
    requires b < 8
    ensures Replaces(byte, byte | Mask(b), b, true)
    ensures Replaces(byte, byte & !Mask(b), b, false)
  {
    forall c | 0 <= c < 8
      ensures BitOf(byte | Mask(b), c) == (b == c || BitOf(byte, c))
      ensures BitOf(byte & !Mask(b), c) == (b != c && BitOf(byte, c))
    {
      SetBit(byte, b, c);
      ClearBit(byte, b, c);
    }
  }

  /** The byte that bitmap_set writes. */
  function Written(byte: bv8, b: nat, value: bool): bv8
    requires b < 8
  {
    if value then byte | Mask(b) else byte & !Mask(b)
  }

  lemma BitsWritten(bytes: seq<bv8>, idx: nat, value: bool)
    requires idx < 8 * |bytes|
    ensures BitsOf(bytes[idx / 8 := Written(bytes[idx / 8], idx % 8, value)]) == BitsOf(bytes)[idx := value]
  {
    hide BitsOf; hide BitOf; hide Mask; hide Replaces;
    BitWritten(bytes[idx / 8], idx % 8);
    BitsOfUpdate(bytes, idx, Written(bytes[idx / 8], idx % 8, value), value);
  }

  class Bitmap {
    var bits: array<bv8>
    var offset: nat

    /** The map as a sequence of bits, relative to `offset`. */
    ghost function Bits(): (s: seq<bool>)
      reads this, bits
      ensures |s| == 8 * bits.Length
    {
      BitsOf(bits[..])
    }

    /** bitmap_init: an all-clear map. */
    constructor (length: nat, offset: nat)
      ensures fresh(bits) && bits.Length == length && this.offset == offset
      ensures forall i | 0 <= i < 8 * length :: !Bits()[i]
    {
      this.bits := new bv8[length](_ => 0);
      this.offset := offset;
    }

    method Test(index: nat) returns (r: bool)
      requires offset <= index < offset + 8 * bits.Length
      ensures r == Bits()[index - offset]
    {
      var idx := index - offset;
      r := bits[idx / 8] & ((1 as bv8) << (idx % 8)) != 0;
    }

    method Set(index: nat, value: bool)
      requires offset <= index < offset + 8 * bits.Length
      modifies bits
      ensures Bits() == old(Bits())[index - offset := value]
    {
      hide BitsOf; hide Written;
      var idx := index - offset;
      ghost var bytes := bits[..];
      BitsWritten(bytes, idx, value);
      bits[idx / 8] := Written(bits[idx / 8], idx % 8, value);
      assert bits[..] == bytes[idx / 8 := Written(bytes[idx / 8], idx % 8, value)];
    }

    /** The search loop of bitmap_scan. */
    method FindRun(count: nat) returns (found: bool, start: nat)
      requires count > 0
      ensures FirstRun(Bits(), count, 0) == if found then At(start) else NotFound
    {
      hide BitsOf; hide BitOf; hide Mask; hide FirstRun;
      ghost var s := Bits();
      var bitsLeft := bits.Length * 8;
      var counter, next := 0, 0;
      while next < bitsLeft
        invariant counter <= next <= bitsLeft == |s| && counter < count
        invariant forall k | next - counter <= k < next :: !s[k]
        invariant forall j | 0 <= j < next - counter :: !ClearRun(s, j, count)
      {
        var taken := Test(offset + next);
        if !taken {
          counter := counter + 1;
        } else {
          RunsEndBefore(s, count, next, next - counter);
          counter := 0;
        }
        if counter == count {
          FirstRunIs(s, count, 0, next - count + 1);
          return true, next - count + 1;
        }
        next := next + 1;
      }
      NoRun(s, count, 0);
      return false, 0;
    }

    /** bitmap_scan: claims the first run of `count` clear bits, or fails and changes nothing. */
    method Scan(count: nat) returns (found: bool, index: nat)
      requires count > 0
      modifies bits
      ensures match FirstRun(old(Bits()), count, 0)
              case NotFound => !found && Bits() == old(Bits())
              case At(start) => found && index == offset + start && Bits() == SetRange(old(Bits()), start, count, true)
    {
      var start;
      found, start := FindRun(count);
      index := 0;
      if found {
        index := offset + start;
        ghost var was := Bits();
        assert SetRange(was, start, 0, true) == was;
        var k := 0;
        while k < count
          invariant 0 <= k <= count && start + count <= |was|
          invariant Bits() == SetRange(was, start, k, true)
        {
          Set(offset + start + k, true);
          SetRangeStep(was, start, k, true);
          k := k + 1;
        }
      }
    }
  }

  lemma RunsEndBefore(bits: seq<bool>, count: nat, next: nat, from: int)
    requires 0 <= from <= next < |bits| && next - from < count && bits[next]
    requires forall j | 0 <= j < from :: !ClearRun(bits, j, count)
    ensures forall j | 0 <= j < next + 1 :: !ClearRun(bits, j, count)
  {
    forall j: nat | from <= j <= next
      ensures !ClearRun(bits, j, count)
    {
      assert bits[next] && j <= next < j + count;
    }
  }

  lemma FirstRunIs(bits: seq<bool>, count: nat, from: nat, start: nat)
    requires from <= start && ClearRun(bits, start, count)
    requires forall j | from <= j < start :: !ClearRun(bits, j, count)
    ensures FirstRun(bits, count, from) == At(start)
  {
    var r := FirstRun(bits, count, from);
    assert r.At?;
    assert r.start == start;
  }

  lemma NoRun(bits: seq<bool>, count: nat, from: nat)
    requires forall j | from <= j :: !ClearRun(bits, j, count)
    ensures FirstRun(bits, count, from) == NotFound
  {
  }
}
