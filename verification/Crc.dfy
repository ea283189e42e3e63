/** The table-driven CRC-32 (bochs/bochs-2.6.11/crc.cc) against division of polynomials over GF(2). */
module Crc {
  import opened Bytes

  const POLY: bv32 := 0x04c1_1db7
  const TOP: bv32 := 0x8000_0000
  const ONES: bv32 := 0xffff_ffff

  // ---- the code ----

  predicate TopBit(w: bv32) {
    w & TOP != 0
  }

  function Twice(w: bv32): bv32 {
    w << 1
  }

  function Plus(a: bv32, b: bv32): bv32 {
    a ^ b
  }

  function Up(w: bv32): bv32 {
    w << 8
  }

  /** One turn of the inner loop of init_crc32. */
  function ShiftBit(c: bv32): bv32 {
    if TopBit(c) then Twice(c) ^ POLY else Twice(c)
  }

  function ShiftBits(c: bv32, n: nat): bv32
    decreases n
  {
    if n == 0 then c else ShiftBits(ShiftBit(c), n - 1)
  }

  function Place(b: bv8): bv32 {
    (b as bv32) << 24
  }

  function High(c: bv32): bv8 {
    (c >> 24) as bv8
  }

  function Entry(i: bv8): bv32 {
    ShiftBits(Place(i), 8)
  }

  /** The table index: the byte that leaves the register, added to the next one. */
  function Address(c: bv32, b: bv8): bv8 {
    High(c) ^ b
  }

  function StepByte(c: bv32, b: bv8): bv32 {
    Plus(Up(c), Entry(Address(c, b)))
  }

  /** The register after the bytes of `buf`. */
  function Register(c: bv32, buf: seq<bv8>): bv32 {
    if buf == [] then c else StepByte(Register(c, buf[..|buf| - 1]), buf[|buf| - 1])
  }

  function Crc32(buf: seq<bv8>): bv32 {
    !Register(ONES, buf)
  }

  // ---- polynomials: highest coefficient first ----

  function Xor(a: seq<bool>, b: seq<bool>): (r: seq<bool>)
    requires |a| == |b|
    ensures |r| == |a| && forall i | 0 <= i < |a| :: r[i] == (a[i] != b[i])
  {
    seq(|a|, i requires 0 <= i < |a| => a[i] != b[i])
  }

  function Zeros(n: nat): (r: seq<bool>)
    ensures |r| == n && forall i | 0 <= i < n :: !r[i]
  {
    seq(n, i => false)
  }

  /** The `n` highest bits of a word. */
  function Top(w: bv32, n: nat): (r: seq<bool>)
    ensures |r| == n
    decreases n
  {
    if n == 0 then [] else [TopBit(w)] + Top(Twice(w), n - 1)
  }

  function Word(w: bv32): (r: seq<bool>)
    ensures |r| == 32
  {
    Top(w, 32)
  }

  /** x^32 + POLY. */
  function Generator(): (r: seq<bool>)
    ensures |r| == 33
  {
    [true] + Word(POLY)
  }

  /** The generator or nothing, as the leading part of `n` coefficients. */
  function Scaled(bit: bool, n: nat): (r: seq<bool>)
    requires n >= 33
    ensures |r| == n && r[0] == bit
  {
    if bit then Generator() + Zeros(n - 33) else Zeros(n)
  }

  /** One line of long division: the generator is subtracted if the leading coefficient is one, which then goes. */
  function Reduce(z: seq<bool>): (r: seq<bool>)
    requires |z| > 32
    ensures |r| == |z| - 1
  {
    Xor(z, Scaled(z[0], |z|))[1..]
  }

  function Remainder(z: seq<bool>): (r: seq<bool>)
    requires |z| >= 32
    ensures |r| == 32
    decreases |z|
  {
    if |z| == 32 then z else Remainder(Reduce(z))
  }

  /** The product of `q` and the generator. */
  function Times(q: seq<bool>): (r: seq<bool>)
    ensures |r| == |q| + 32
    decreases |q|
  {
    if q == [] then Zeros(32) else Xor(Scaled(q[0], |q| + 32), [false] + Times(q[1..]))
  }

  function Quotient(z: seq<bool>): (q: seq<bool>)
    requires |z| >= 32
    ensures |q| == |z| - 32
    decreases |z|
  {
    if |z| == 32 then [] else [z[0]] + Quotient(Reduce(z))
  }

  /** `n` zeros in front. */
  function Pad(n: nat, r: seq<bool>): (p: seq<bool>)
    ensures |p| == n + |r|
    ensures forall i | 0 <= i < |p| :: p[i] == (i >= n && r[i - n])
  {
    Zeros(n) + r
  }

  lemma XorAssociates(a: seq<bool>, b: seq<bool>, c: seq<bool>)
    requires |a| == |b| == |c|
    ensures Xor(Xor(a, b), c) == Xor(a, Xor(b, c))
  {
  }

  lemma PadXor(n: nat, a: seq<bool>, b: seq<bool>)
    requires |a| == |b|
    ensures Pad(n, Xor(a, b)) == Xor(Pad(n, a), Pad(n, b))
  {
  }

  lemma Reduced(z: seq<bool>)
    requires |z| > 32
    ensures z == Xor(Scaled(z[0], |z|), Pad(1, Reduce(z)))
  {
    hide Scaled;
  }

  lemma PadPad(n: nat, r: seq<bool>)
    ensures Pad(n + 1, r) == Pad(1, Pad(n, r))
  {
  }

  /** Division is exact: dividend = quotient * generator + remainder. */
  lemma {:induction false} Division(z: seq<bool>)
    requires |z| >= 32
    ensures z == Xor(Times(Quotient(z)), Pad(|z| - 32, Remainder(z)))
    decreases |z|
  {
    hide Pad; hide Scaled; hide Xor; hide Reduce;
    if |z| == 32 {
      NoQuotient(z);
    } else {
      var r, n := Reduce(z), |z| - 33;
      var q := Quotient(r);
      Division(r);
      Reduced(z);
      PadXor(1, Times(q), Pad(n, Remainder(r)));
      PadPad(n, Remainder(r));
      XorAssociates(Scaled(z[0], |z|), Pad(1, Times(q)), Pad(1, Pad(n, Remainder(r))));
      TimesStep(z[0], q);
    }
  }

  lemma NoQuotient(z: seq<bool>)
    requires |z| == 32
    ensures z == Xor(Times([]), Pad(0, z))
  {
  }

  lemma PadOne(r: seq<bool>)
    ensures [false] + r == Pad(1, r)
  {
  }

  lemma Consed(bit: bool, q: seq<bool>)
    ensures |[bit] + q| == |q| + 1 && ([bit] + q)[0] == bit && ([bit] + q)[1..] == q
  {
  }

  lemma TimesStep(bit: bool, q: seq<bool>)
    ensures Times([bit] + q) == Xor(Scaled(bit, |q| + 33), Pad(1, Times(q)))
  {
    hide Scaled; hide Xor; hide Pad; hide Zeros;
    Consed(bit, q);
    PadOne(Times(q));
  }

  /** A multiple of the generator whose quotient part vanishes is zero. */
  lemma {:induction false} ShortMultiple(q: seq<bool>)
    requires forall i | 0 <= i < |q| :: !Times(q)[i]
    ensures Times(q) == Zeros(|q| + 32)
    decreases |q|
  {
    hide Scaled;
    if q != [] {
      assert Times(q)[0] == q[0];
      assert Scaled(q[0], |q| + 32) == Zeros(|q| + 32) by {
        ScaledZero(|q| + 32);
      }
      forall i | 0 <= i < |q| - 1 ensures !Times(q[1..])[i] {
        assert Times(q)[i + 1] == Times(q[1..])[i];
      }
      ShortMultiple(q[1..]);
    }
  }

  lemma ScaledZero(n: nat)
    requires n >= 33
    ensures Scaled(false, n) == Zeros(n)
  {
  }

  lemma ScaledAdds(a: bool, b: bool, n: nat)
    requires n >= 33
    ensures Scaled(a != b, n) == Xor(Scaled(a, n), Scaled(b, n))
  {
  }

  lemma {:induction false} TimesAdds(p: seq<bool>, q: seq<bool>)
    requires |p| == |q|
    ensures Times(Xor(p, q)) == Xor(Times(p), Times(q))
    decreases |p|
  {
    hide Scaled;
    if p == [] {
      assert Xor(p, q) == [];
    } else {
      assert Xor(p, q)[1..] == Xor(p[1..], q[1..]);
      TimesAdds(p[1..], q[1..]);
      ScaledAdds(p[0], q[0], |p| + 32);
    }
  }

  lemma XorCancels(z: seq<bool>, a: seq<bool>, b: seq<bool>, c: seq<bool>, d: seq<bool>)
    requires |z| == |a| == |b| == |c| == |d| && z == Xor(a, b) && z == Xor(c, d)
    ensures Xor(a, c) == Xor(b, d)
  {
    forall i | 0 <= i < |z| ensures Xor(a, c)[i] == Xor(b, d)[i] {
      assert Xor(a, b)[i] == Xor(c, d)[i];
    }
  }

  /** The remainder is the only word that differs from the dividend by a multiple of the generator. */
  lemma RemainderUnique(z: seq<bool>, q: seq<bool>, r: seq<bool>)
    requires |z| >= 32 && |q| == |z| - 32 && |r| == 32
    requires z == Xor(Times(q), Pad(|q|, r))
    ensures r == Remainder(z)
  {
    hide Times; hide Quotient; hide Remainder; hide Xor; hide Pad; hide Zeros;
    Division(z);
    var p, s := Quotient(z), Remainder(z);
    TimesAdds(p, q);
    XorCancels(z, Times(p), Pad(|q|, s), Times(q), Pad(|q|, r));
    ShortMultiple(Xor(p, q));
    forall i | 0 <= i < 32 ensures r[i] == s[i] {
      assert Xor(Pad(|q|, s), Pad(|q|, r))[|q| + i] == (Pad(|q|, s)[|q| + i] != Pad(|q|, r)[|q| + i]);
    }
  }

  // ---- bits of words ----

  lemma XorBits(a: bv32, b: bv32)
    ensures TopBit(Plus(a, b)) == (TopBit(a) != TopBit(b)) && Twice(Plus(a, b)) == Plus(Twice(a), Twice(b))
  {
  }

  lemma {:induction false} TopXor(a: bv32, b: bv32, n: nat)
    ensures Top(Plus(a, b), n) == Xor(Top(a, n), Top(b, n))
    decreases n
  {
    hide TopBit; hide Twice; hide Plus;
    if n > 0 {
      XorBits(a, b);
      TopXor(Twice(a), Twice(b), n - 1);
    }
  }

  function ShiftLeft(w: bv32, n: nat): bv32
    decreases n
  {
    if n == 0 then w else ShiftLeft(Twice(w), n - 1)
  }

  lemma TwiceEight(w: bv32)
    ensures Twice(Twice(Twice(Twice(Twice(Twice(Twice(Twice(w)))))))) == Up(w)
  {
  }

  lemma ShiftLeftByte(w: bv32, n: nat)
    ensures ShiftLeft(w, n + 8) == ShiftLeft(Up(w), n)
  {
    hide Twice; hide Up;
    TwiceEight(w);
    var w4 := Twice(Twice(Twice(Twice(w))));
    assert ShiftLeft(w, n + 8) == ShiftLeft(Twice(Twice(w)), n + 6) == ShiftLeft(w4, n + 4);
    assert ShiftLeft(w4, n + 4) == ShiftLeft(Twice(Twice(w4)), n + 2) == ShiftLeft(Twice(Twice(Twice(Twice(w4)))), n);
  }

  lemma AllOut(w: bv32)
    ensures Up(Up(Up(Up(w)))) == 0
  {
  }

  lemma ShiftedOut(w: bv32)
    ensures ShiftLeft(w, 32) == 0
  {
    hide Twice; hide Up;
    AllOut(w);
    ShiftLeftByte(w, 24);
    ShiftLeftByte(Up(w), 16);
    ShiftLeftByte(Up(Up(w)), 8);
    ShiftLeftByte(Up(Up(Up(w))), 0);
  }

  lemma {:induction false} TopLast(w: bv32, n: nat)
    ensures Top(w, n + 1) == Top(w, n) + [TopBit(ShiftLeft(w, n))]
    decreases n
  {
    hide Twice; hide TopBit;
    if n > 0 {
      TopLast(Twice(w), n - 1);
    }
  }

  /** Shifting a word moves its bits up and brings in a zero. */
  lemma WordShift(w: bv32)
    ensures Word(Twice(w)) == Word(w)[1..] + [false]
  {
    hide Twice;
    TopLast(Twice(w), 31);
    ShiftedOut(w);
    assert ShiftLeft(w, 32) == ShiftLeft(Twice(w), 31);
  }

  // ---- one bit at a time ----

  function Bit(b: bool): bv32 {
    if b then TOP else 0
  }

  /** The shift register fed bit by bit, high bit first. */
  function Serial(c: bv32, bits: seq<bool>): bv32
    decreases |bits|
  {
    if bits == [] then c else Serial(ShiftBit(Plus(c, Bit(bits[0]))), bits[1..])
  }

  lemma Sums(x: bv32, y: bv32, p: bv32)
    ensures Plus(Plus(x, p), y) == Plus(Plus(x, y), p)
    ensures Plus(x, Plus(y, p)) == Plus(Plus(x, y), p)
    ensures Plus(Plus(x, p), Plus(y, p)) == Plus(x, y)
  {
  }

  lemma BitFacts(u: bv32, b: bool)
    ensures TopBit(Bit(b)) == b && Twice(Bit(b)) == 0 && Plus(u, 0) == u
  {
  }

  lemma BitStep(c: bv32, u: bv32)
    ensures Plus(ShiftBit(Plus(c, Bit(TopBit(u)))), Twice(u)) == ShiftBit(Plus(c, u))
  {
    hide Plus; hide TopBit; hide Twice; hide Bit;
    var b := Bit(TopBit(u));
    BitFacts(Twice(c), TopBit(u));
    XorBits(c, b);
    XorBits(c, u);
    Sums(Twice(c), Twice(u), POLY);
    ShiftForm(Plus(c, b));
    ShiftForm(Plus(c, u));
  }

  lemma ShiftForm(c: bv32)
    ensures ShiftBit(c) == if TopBit(c) then Plus(Twice(c), POLY) else Twice(c)
  {
  }

  lemma Undo(a: bv32, b: bv32)
    ensures Plus(Plus(a, b), b) == a && Plus(a, b) == Plus(b, a) && Plus(a, 0) == a
  {
  }

  /** The first `n` bits of `u` may be added to the register at once. */
  lemma {:induction false} SerialWord(c: bv32, u: bv32, n: nat)
    ensures Plus(Serial(c, Top(u, n)), ShiftLeft(u, n)) == ShiftBits(Plus(c, u), n)
    decreases n
  {
    hide Twice; hide Plus; hide TopBit; hide Bit; hide ShiftBit;
    if n > 0 {
      BitStep(c, u);
      var d := ShiftBit(Plus(c, Bit(TopBit(u))));
      assert Top(u, n)[1..] == Top(Twice(u), n - 1);
      SerialWord(d, Twice(u), n - 1);
    }
  }

  lemma StepAdds(a: bv32, b: bv32)
    ensures ShiftBit(Plus(a, b)) == Plus(ShiftBit(a), ShiftBit(b))
  {
    hide Plus; hide TopBit; hide Twice; hide ShiftBit;
    XorBits(a, b);
    Sums(Twice(a), Twice(b), POLY);
    ShiftForm(a);
    ShiftForm(b);
    ShiftForm(Plus(a, b));
  }

  /** The register is linear. */
  lemma {:induction false} ShiftBitsAdd(a: bv32, b: bv32, n: nat)
    ensures ShiftBits(Plus(a, b), n) == Plus(ShiftBits(a, n), ShiftBits(b, n))
    decreases n
  {
    hide ShiftBit; hide Plus;
    if n > 0 {
      StepAdds(a, b);
      ShiftBitsAdd(ShiftBit(a), ShiftBit(b), n - 1);
    }
  }

  function Low(c: bv32): bv32 {
    c & 0x00ff_ffff
  }

  lemma Split(c: bv32, b: bv8)
    ensures Plus(c, Place(b)) == Plus(Low(c), Place(High(c) ^ b))
    ensures Up(Low(c)) == Up(c)
  {
  }

  lemma LowShifts(c: bv32)
    ensures ShiftBit(Low(c)) == Twice(Low(c))
    ensures ShiftBit(ShiftBit(Low(c))) == Twice(Twice(Low(c)))
    ensures ShiftBit(Twice(Twice(Low(c)))) == Twice(Twice(Twice(Low(c))))
    ensures var d := Twice(Twice(Twice(Low(c))));
            ShiftBit(d) == Twice(d) && ShiftBit(Twice(d)) == Twice(Twice(d))
              && ShiftBit(Twice(Twice(d))) == Twice(Twice(Twice(d)))
    ensures var e := Twice(Twice(Twice(Twice(Twice(Twice(Low(c)))))));
            ShiftBit(e) == Twice(e) && ShiftBit(Twice(e)) == Twice(Twice(e))
  {
  }

  lemma LowEight(c: bv32)
    ensures ShiftBits(Low(c), 8) == Up(c)
  {
    hide Twice; hide ShiftBit; hide Low; hide Up;
    LowShifts(c);
    TwiceEight(Low(c));
    Split(c, 0);
    var d := Twice(Twice(Twice(Low(c))));
    assert ShiftBits(Low(c), 8) == ShiftBits(ShiftBit(ShiftBit(ShiftBit(Low(c)))), 5) == ShiftBits(d, 5);
    assert ShiftBits(d, 5) == ShiftBits(Twice(Twice(Twice(d))), 2);
  }

  /** A table step is eight steps of the shift register, for every register and byte. */
  lemma ByteStep(c: bv32, b: bv8)
    ensures StepByte(c, b) == ShiftBits(Plus(c, Place(b)), 8)
  {
    hide ShiftBits; hide Place; hide High; hide Low; hide Up; hide Plus;
    Split(c, b);
    LowEight(c);
    ShiftBitsAdd(Low(c), Place(High(c) ^ b), 8);
  }

  function Bits(b: bv8): (r: seq<bool>)
    ensures |r| == 8
  {
    Top(Place(b), 8)
  }

  /** The bits of the buffer, high bit of each byte first. */
  function Message(buf: seq<bv8>): (r: seq<bool>)
    ensures |r| == 8 * |buf|
  {
    if buf == [] then [] else Message(buf[..|buf| - 1]) + Bits(buf[|buf| - 1])
  }

  lemma PlacedOut(b: bv8, c: bv32)
    ensures Up(Place(b)) == 0 && Plus(c, 0) == c
  {
  }

  lemma SerialByte(c: bv32, b: bv8)
    ensures Serial(c, Bits(b)) == StepByte(c, b)
  {
    hide Plus; hide Place; hide Up; hide ShiftBits; hide Top; hide StepByte;
    SerialWord(c, Place(b), 8);
    ByteStep(c, b);
    ShiftLeftByte(Place(b), 0);
    PlacedOut(b, Serial(c, Bits(b)));
    assert ShiftLeft(Up(Place(b)), 0) == 0;
  }

  lemma {:induction false} SerialAppend(c: bv32, a: seq<bool>, b: seq<bool>)
    ensures Serial(c, a + b) == Serial(Serial(c, a), b)
    decreases |a|
  {
    hide ShiftBit; hide Plus; hide Bit;
    if a == [] {
      assert a + b == b;
    } else {
      assert (a + b)[1..] == a[1..] + b;
      SerialAppend(ShiftBit(Plus(c, Bit(a[0]))), a[1..], b);
    }
  }

  /** Byte at a time through the table is bit at a time through the register. */
  lemma {:induction false} RegisterIsSerial(c: bv32, buf: seq<bv8>)
    ensures Register(c, buf) == Serial(c, Message(buf))
    decreases |buf|
  {
    hide StepByte; hide Bits; hide Serial;
    if buf == [] {
      SerialNone(c);
    } else {
      var init, b := buf[..|buf| - 1], buf[|buf| - 1];
      RegisterIsSerial(c, init);
      SerialByte(Register(c, init), b);
      SerialAppend(c, Message(init), Bits(b));
    }
  }

  lemma SerialNone(c: bv32)
    ensures Serial(c, []) == c
  {
  }

  // ---- the register is a division ----

  /** `m` followed by 32 zeros, with `c` added to the first 32 coefficients. */
  function Dividend(c: bv32, m: seq<bool>): (z: seq<bool>)
    ensures |z| == |m| + 32
  {
    Xor(m + Zeros(32), Word(c) + Zeros(|m|))
  }

  lemma DividendBits(c: bv32, m: seq<bool>, i: nat)
    requires i < |m| + 32
    ensures Dividend(c, m)[i] == ((i < |m| && m[i]) != (i < 32 && Word(c)[i]))
  {
    hide Word;
  }

  lemma WordXor(a: bv32, b: bv32)
    ensures Word(Plus(a, b)) == Xor(Word(a), Word(b))
  {
    hide Top; hide Plus;
    TopXor(a, b, 32);
  }

  lemma WordTop(c: bv32)
    ensures Word(c)[0] == TopBit(c)
  {
    hide TopBit; hide Twice;
  }

  lemma ScaledBits(bit: bool, n: nat, i: nat)
    requires n >= 33 && 0 < i < n
    ensures Scaled(bit, n)[i] == (bit && i < 33 && Word(POLY)[i - 1])
  {
    hide Word;
  }

  /** Feeding a bit to the register is reducing the dividend by one line. */
  lemma Line(c: bv32, m: seq<bool>)
    requires m != []
    ensures Reduce(Dividend(c, m)) == Dividend(ShiftBit(Plus(c, Bit(m[0]))), m[1..])
  {
    hide Word; hide Scaled; hide Bit; hide Plus; hide Twice; hide TopBit; hide ShiftBit; hide Dividend;
    var z, d := Dividend(c, m), ShiftBit(Plus(c, Bit(m[0])));
    var out := TopBit(c) != m[0];
    DividendBits(c, m, 0);
    WordTop(c);
    assert z[0] == out;
    BitShifted(c, m[0]);
    WordShift(c);
    WordXor(Twice(c), POLY);
    forall i | 0 <= i < |m| + 31 ensures Reduce(z)[i] == Dividend(d, m[1..])[i] {
      DividendBits(c, m, i + 1);
      DividendBits(d, m[1..], i);
      ScaledBits(out, |z|, i + 1);
    }
  }

  lemma BitShifted(c: bv32, b: bool)
    ensures ShiftBit(Plus(c, Bit(b))) == if TopBit(c) != b then Plus(Twice(c), POLY) else Twice(c)
  {
    hide TopBit; hide Twice; hide Plus; hide Bit; hide ShiftBit;
    XorBits(c, Bit(b));
    BitFacts(Twice(c), b);
    ShiftForm(Plus(c, Bit(b)));
  }

  lemma {:induction false} SerialDivides(c: bv32, m: seq<bool>)
    ensures Word(Serial(c, m)) == Remainder(Dividend(c, m))
    decreases |m|
  {
    hide Word; hide ShiftBit; hide Plus; hide Bit; hide Reduce; hide Xor;
    if m == [] {
      DividendNone(c);
    } else {
      Line(c, m);
      SerialDivides(ShiftBit(Plus(c, Bit(m[0]))), m[1..]);
    }
  }

  lemma DividendNone(c: bv32)
    ensures Dividend(c, []) == Word(c)
  {
    hide Word;
  }

  /** The standard's procedure (section 3.2.9 of IEEE 802.3): the first 32 bits of the message are complemented, 32
      zeros are appended, and the complement of the remainder by the generator is sent. */
  lemma CrcIsRemainder(buf: seq<bv8>)
    ensures Word(!Crc32(buf)) == Remainder(Dividend(ONES, Message(buf)))
  {
    hide Word; hide Dividend; hide Remainder; hide Message; hide Register;
    RegisterIsSerial(ONES, buf);
    SerialDivides(ONES, Message(buf));
    NotNot(Register(ONES, buf));
  }

  lemma NotNot(c: bv32)
    ensures !!c == c
  {
  }

  /** Four steps along the bits of a word. */
  lemma TopFour(a: bv32, b: bv32, c: bv32, d: bv32, e: bv32, n: nat)
    requires n >= 4 && b == Twice(a) && c == Twice(b) && d == Twice(c) && e == Twice(d)
    ensures Top(a, n) == [TopBit(a), TopBit(b), TopBit(c), TopBit(d)] + Top(e, n - 4)
  {
    hide Top; hide TopBit; hide Twice;
    TopOne(a, n);
    TopOne(b, n - 1);
    TopOne(c, n - 2);
    TopOne(d, n - 3);
    FourJoined(TopBit(a), TopBit(b), TopBit(c), TopBit(d), Top(e, n - 4));
  }

  lemma FourJoined(a: bool, b: bool, c: bool, d: bool, rest: seq<bool>)
    ensures [a] + ([b] + ([c] + ([d] + rest))) == [a, b, c, d] + rest
  {
  }

  lemma TopOne(w: bv32, n: nat)
    requires n >= 1
    ensures Top(w, n) == [TopBit(w)] + Top(Twice(w), n - 1)
  {
  }

  lemma Joined(a: seq<bool>, b: seq<bool>, c: seq<bool>, d: seq<bool>, rest: seq<bool>)
    ensures a + (b + (c + (d + rest))) == a + b + c + d + rest
  {
  }

  lemma PolyHigh()
    ensures Top(0x04c1_1db7, 32) == [
              false, false, false, false, false, true, false, false,
              true, true, false, false, false, false, false, true
            ] + Top(0x1db7_0000, 16)
  {
    hide Top;
    TopFour(0x04c1_1db7, 0x0982_3b6e, 0x1304_76dc, 0x2608_edb8, 0x4c11_db70, 32);
    TopFour(0x4c11_db70, 0x9823_b6e0, 0x3047_6dc0, 0x608e_db80, 0xc11d_b700, 28);
    TopFour(0xc11d_b700, 0x823b_6e00, 0x0476_dc00, 0x08ed_b800, 0x11db_7000, 24);
    TopFour(0x11db_7000, 0x23b6_e000, 0x476d_c000, 0x8edb_8000, 0x1db7_0000, 20);
    Joined([false, false, false, false], [false, true, false, false],
      [true, true, false, false], [false, false, false, true], Top(0x1db7_0000, 16));
  }

  lemma PolyLow()
    ensures Top(0x1db7_0000, 16) == [
              false, false, false, true, true, true, false, true,
              true, false, true, true, false, true, true, true
            ] + Top(0x0000_0000, 0)
  {
    hide Top;
    TopFour(0x1db7_0000, 0x3b6e_0000, 0x76dc_0000, 0xedb8_0000, 0xdb70_0000, 16);
    TopFour(0xdb70_0000, 0xb6e0_0000, 0x6dc0_0000, 0xdb80_0000, 0xb700_0000, 12);
    TopFour(0xb700_0000, 0x6e00_0000, 0xdc00_0000, 0xb800_0000, 0x7000_0000, 8);
    TopFour(0x7000_0000, 0xe000_0000, 0xc000_0000, 0x8000_0000, 0x0000_0000, 4);
    Joined([false, false, false, true], [true, true, false, true],
      [true, false, true, true], [false, true, true, true], Top(0x0000_0000, 0));
  }

  lemma PolyBits()
    ensures Word(POLY) == [
              false, false, false, false, false, true, false, false,
              true, true, false, false, false, false, false, true,
              false, false, false, true, true, true, false, true,
              true, false, true, true, false, true, true, true
            ]
  {
    hide Top;
    PolyHigh();
    PolyLow();
    TopNone(0);
  }

  lemma TopNone(w: bv32)
    ensures Top(w, 0) == []
  {
  }

  /** The generator is that of the standard: x^32 + x^26 + x^23 + x^22 + x^16 + x^12 + x^11 + x^10 + x^8 + x^7 + x^5
      + x^4 + x^2 + x + 1. */
  lemma GeneratorTerms(k: nat)
    requires k <= 32
    ensures Generator()[32 - k] <==> k in {0, 1, 2, 4, 5, 7, 8, 10, 11, 12, 16, 22, 23, 26, 32}
  {
    hide Word;
    PolyBits();
  }

  /** Adding ONES to the first 32 bits complements them. */
  lemma FirstBitsComplemented(m: seq<bool>, i: nat)
    requires i < |m| + 32
    ensures Dividend(ONES, m)[i] == if i < 32 then !(m + Zeros(32))[i] else (m + Zeros(32))[i]
  {
    hide Dividend; hide Word;
    DividendBits(ONES, m, i);
    if i < 32 {
      OnesWord(i);
    }
  }

  lemma {:induction false} TopIndex(w: bv32, n: nat, i: nat)
    requires i < n
    ensures Top(w, n)[i] == TopBit(ShiftLeft(w, i))
    decreases i
  {
    hide Twice; hide TopBit;
    if i > 0 {
      TopIndex(Twice(w), n - 1, i - 1);
    }
  }

  /** Leading ones survive doubling, one less each time. */
  lemma LeadingOnes(w: bv32)
    requires w & 0xff00_0000 == 0xff00_0000
    ensures TopBit(w) && TopBit(Twice(w)) && TopBit(Twice(Twice(w))) && TopBit(Twice(Twice(Twice(w))))
    ensures var v := Twice(Twice(Twice(Twice(w))));
            TopBit(v) && TopBit(Twice(v)) && TopBit(Twice(Twice(v))) && TopBit(Twice(Twice(Twice(v))))
  {
  }

  lemma EightOnes(w: bv32, j: nat)
    requires w & 0xff00_0000 == 0xff00_0000 && j < 8
    ensures TopBit(ShiftLeft(w, j))
  {
    hide TopBit; hide Twice;
    LeadingOnes(w);
    var v := Twice(Twice(Twice(Twice(w))));
    if j >= 4 {
      assert ShiftLeft(w, j) == ShiftLeft(Twice(Twice(w)), j - 2) == ShiftLeft(v, j - 4);
      assert ShiftLeft(v, j - 4) == if j == 4 then v else if j == 5 then Twice(v)
                                    else if j == 6 then Twice(Twice(v)) else ShiftLeft(Twice(Twice(v)), 1);
    } else {
      assert ShiftLeft(w, j) == if j == 0 then w else if j == 1 then Twice(w)
                                else if j == 2 then Twice(Twice(w)) else ShiftLeft(Twice(Twice(w)), 1);
    }
  }

  lemma OnesUp()
    ensures ONES & 0xff00_0000 == Up(ONES) & 0xff00_0000 == Up(Up(ONES)) & 0xff00_0000
            == Up(Up(Up(ONES))) & 0xff00_0000 == 0xff00_0000
  {
  }

  lemma OnesWord(i: nat)
    requires i < 32
    ensures Word(ONES)[i]
  {
    hide TopBit; hide Twice; hide Up; hide Top;
    TopIndex(ONES, 32, i);
    OnesUp();
    if i < 8 {
      EightOnes(ONES, i);
    } else if i < 16 {
      ShiftLeftByte(ONES, i - 8);
      EightOnes(Up(ONES), i - 8);
    } else if i < 24 {
      ShiftLeftByte(ONES, i - 8);
      ShiftLeftByte(Up(ONES), i - 16);
      EightOnes(Up(Up(ONES)), i - 16);
    } else {
      ShiftLeftByte(ONES, i - 8);
      ShiftLeftByte(Up(ONES), i - 16);
      ShiftLeftByte(Up(Up(ONES)), i - 24);
      EightOnes(Up(Up(Up(ONES))), i - 24);
    }
  }

  // ---- what the check detects ----

  predicate Odd(w: bv32) {
    w & 1 == 1
  }

  /** The generator ends in one, so the last bit of a shifted word tells what went out at the top. */
  lemma LastBit(c: bv32)
    ensures Odd(Plus(Twice(c), POLY)) && !Odd(Twice(c))
  {
  }

  lemma TwiceInjective(a: bv32, b: bv32)
    requires Twice(a) == Twice(b) && TopBit(a) == TopBit(b)
    ensures a == b
  {
  }

  lemma BitInjective(a: bv32, b: bv32)
    requires ShiftBit(a) == ShiftBit(b)
    ensures a == b
  {
    hide ShiftBit; hide Plus; hide Twice; hide TopBit; hide Odd;
    ShiftForm(a);
    ShiftForm(b);
    LastBit(a);
    LastBit(b);
    if TopBit(a) && TopBit(b) {
      PlusInjective(Twice(a), Twice(b), POLY);
    }
    TwiceInjective(a, b);
  }

  lemma {:induction false} ShiftBitsInjective(a: bv32, b: bv32, n: nat)
    requires ShiftBits(a, n) == ShiftBits(b, n)
    ensures a == b
    decreases n
  {
    hide ShiftBit;
    if n > 0 {
      ShiftBitsInjective(ShiftBit(a), ShiftBit(b), n - 1);
      BitInjective(a, b);
    }
  }

  lemma PlusInjective(a: bv32, b: bv32, c: bv32)
    requires Plus(a, c) == Plus(b, c)
    ensures a == b
  {
  }

  /** A common tail cannot make different registers equal. */
  lemma {:induction false} SerialInjective(c: bv32, d: bv32, m: seq<bool>)
    requires Serial(c, m) == Serial(d, m)
    ensures c == d
    decreases |m|
  {
    hide ShiftBit; hide Plus; hide Bit;
    if m != [] {
      SerialInjective(ShiftBit(Plus(c, Bit(m[0]))), ShiftBit(Plus(d, Bit(m[0]))), m[1..]);
      BitInjective(Plus(c, Bit(m[0])), Plus(d, Bit(m[0])));
      PlusInjective(c, d, Bit(m[0]));
    }
  }

  /** The low 32 - k bits. */
  function LowBits(k: nat): bv32
    decreases k
  {
    if k == 0 then ONES else Half(LowBits(k - 1))
  }

  function Half(w: bv32): bv32 {
    w >> 1
  }

  predicate Apart(a: bv32, b: bv32) {
    a & b == 0
  }

  predicate Run(w: bv32) {
    w & (w + 1) == 0
  }

  lemma RunHalf(w: bv32)
    requires Run(w)
    ensures Run(Half(w)) && (w != 0 ==> Odd(w)) && Half(0) == 0
  {
  }

  lemma {:induction false} LowBitsRun(k: nat)
    ensures Run(LowBits(k))
    decreases k
  {
    hide Half; hide Run;
    if k == 0 {
      assert Run(ONES) by {
        RunOnes();
      }
    } else {
      LowBitsRun(k - 1);
      RunHalf(LowBits(k - 1));
    }
  }

  lemma RunOnes()
    ensures Run(ONES)
  {
  }

  lemma HalfEight(w: bv32)
    ensures Half(Half(Half(Half(Half(Half(Half(Half(w)))))))) == w >> 8
  {
  }

  lemma LowBitsEight(k: nat)
    ensures LowBits(k + 8) == LowBits(k) >> 8
  {
    hide Half;
    HalfEight(LowBits(k));
    assert LowBits(k + 2) == Half(Half(LowBits(k)));
    assert LowBits(k + 4) == Half(Half(LowBits(k + 2)));
    assert LowBits(k + 6) == Half(Half(LowBits(k + 4)));
    assert LowBits(k + 8) == Half(Half(LowBits(k + 6)));
  }

  lemma EightLeft()
    ensures ((ONES >> 8) >> 8) >> 8 == 0xff
  {
  }

  lemma LowBits24()
    ensures LowBits(24) == 0xff
  {
    LowBitsEight(0);
    LowBitsEight(8);
    LowBitsEight(16);
    EightLeft();
    assert LowBits(0) == ONES;
  }

  /** The lowest bit is among the low 32 - k bits for k below 32. */
  lemma LowestKept(k: nat)
    requires k < 32
    ensures Odd(LowBits(k))
  {
    hide Half; hide Run; hide Odd;
    LowBitsRun(k);
    RunHalf(LowBits(k));
    LowBits31();
    if LowBits(k) == 0 {
      StaysZero(k, 31 - k);
    }
  }

  lemma {:induction false} StaysZero(k: nat, n: nat)
    requires LowBits(k) == 0
    ensures LowBits(k + n) == 0
    decreases n
  {
    hide Half;
    if n > 0 {
      StaysZero(k, n - 1);
      HalfZero();
    }
  }

  lemma HalfZero()
    ensures Half(0) == 0
  {
  }

  lemma SevenHalves()
    ensures Half(Half(Half(Half(Half(Half(Half(0xff))))))) == 1
  {
  }

  lemma LowBits31()
    ensures LowBits(31) == 1
  {
    hide Half;
    LowBits24();
    SevenHalves();
    assert LowBits(26) == Half(Half(LowBits(24)));
    assert LowBits(28) == Half(Half(LowBits(26)));
    assert LowBits(30) == Half(Half(LowBits(28)));
    assert LowBits(31) == Half(LowBits(30));
  }

  lemma BackStep(c: bv32, d: bv32, a: bool, b: bool, low: bv32)
    requires Odd(low) && Apart(Plus(ShiftBit(Plus(c, Bit(a))), ShiftBit(Plus(d, Bit(b)))), low)
    ensures Apart(Plus(c, d), Half(low))
  {
    var e := Plus(Plus(c, Bit(a)), Plus(d, Bit(b)));
    StepAdds(Plus(c, Bit(a)), Plus(d, Bit(b)));
    BackShift(e, low);
    BackBits(c, d, Bit(a), Bit(b), low);
  }

  lemma BackShift(e: bv32, low: bv32)
    requires Odd(low) && Apart(ShiftBit(e), low)
    ensures Apart(e, Half(low))
  {
  }

  lemma BackBits(c: bv32, d: bv32, a: bv32, b: bv32, low: bv32)
    requires (a == 0 || a == TOP) && (b == 0 || b == TOP) && Apart(Plus(Plus(c, a), Plus(d, b)), Half(low))
    ensures Apart(Plus(c, d), Half(low))
  {
  }

  lemma SameWord(c: bv32)
    ensures Apart(Plus(c, c), LowBits(0))
  {
  }

  /** Registers that k bits can bring together agree in their low 32 - k bits. */
  lemma {:induction false} Meet(c: bv32, d: bv32, x: seq<bool>, y: seq<bool>)
    requires |x| == |y| <= 32 && Serial(c, x) == Serial(d, y)
    ensures Apart(Plus(c, d), LowBits(|x|))
    decreases |x|
  {
    hide ShiftBit; hide Plus; hide Bit; hide Half; hide Apart; hide Odd;
    if x == [] {
      SameWord(c);
    } else {
      var k := |x| - 1;
      Meet(ShiftBit(Plus(c, Bit(x[0]))), ShiftBit(Plus(d, Bit(y[0]))), x[1..], y[1..]);
      LowestKept(k);
      BackStep(c, d, x[0], y[0], LowBits(k));
    }
  }

  lemma FirstDifference(c: bv32, a: bool, b: bool)
    requires a != b
    ensures Odd(Plus(ShiftBit(Plus(c, Bit(a))), ShiftBit(Plus(c, Bit(b)))))
  {
  }

  lemma LowestOf(w: bv32, low: bv32)
    requires Odd(w) && Odd(low)
    ensures !Apart(w, low)
  {
  }

  /** Two different bursts of at most 32 bits never lead one register to the same value. */
  lemma {:induction false} BurstsDiffer(c: bv32, x: seq<bool>, y: seq<bool>)
    requires |x| == |y| <= 32 && x != y
    ensures Serial(c, x) != Serial(c, y)
    decreases |x|
  {
    hide ShiftBit; hide Plus; hide Bit; hide Apart; hide Odd; hide LowBits;
    var cx, cy := ShiftBit(Plus(c, Bit(x[0]))), ShiftBit(Plus(c, Bit(y[0])));
    if x[0] == y[0] {
      assert x == [x[0]] + x[1..] && y == [y[0]] + y[1..];
      BurstsDiffer(cx, x[1..], y[1..]);
    } else if Serial(c, x) == Serial(c, y) {
      Meet(cx, cy, x[1..], y[1..]);
      FirstDifference(c, x[0], y[0]);
      LowestKept(|x| - 1);
      LowestOf(Plus(cx, cy), LowBits(|x| - 1));
    }
  }

  /** Two messages of one length that differ only inside a window of 32 bits never have the same CRC. */
  lemma BurstDetected(a: seq<bv8>, b: seq<bv8>, p: seq<bool>, x: seq<bool>, y: seq<bool>, s: seq<bool>)
    requires Message(a) == p + x + s && Message(b) == p + y + s && |x| == |y| <= 32 && x != y
    ensures Crc32(a) != Crc32(b)
  {
    hide Register; hide Message; hide Serial;
    RegisterIsSerial(ONES, a);
    RegisterIsSerial(ONES, b);
    SerialAppend(ONES, p + x, s);
    SerialAppend(ONES, p + y, s);
    SerialAppend(ONES, p, x);
    SerialAppend(ONES, p, y);
    BurstsDiffer(Serial(ONES, p), x, y);
    if Crc32(a) == Crc32(b) {
      NotNot(Register(ONES, a));
      NotNot(Register(ONES, b));
      SerialInjective(Serial(ONES, p + x), Serial(ONES, p + y), s);
    }
  }

  lemma {:induction false} MessageAppend(a: seq<bv8>, b: seq<bv8>)
    ensures Message(a + b) == Message(a) + Message(b)
    decreases |b|
  {
    hide Bits;
    if b == [] {
      assert a + b == a;
    } else {
      var n := |b| - 1;
      assert (a + b)[..|a| + n] == a + b[..n];
      MessageAppend(a, b[..n]);
    }
  }

  lemma PlaceInjective(a: bv8, b: bv8)
    requires a != b
    ensures Place(a) != Place(b)
  {
  }

  /** Different bytes have different bits: their table entries differ. */
  lemma BitsInjective(a: bv8, b: bv8)
    requires a != b
    ensures Bits(a) != Bits(b)
  {
    hide Bits; hide StepByte; hide Place; hide ShiftBits; hide Plus;
    SerialByte(0, a);
    SerialByte(0, b);
    ByteStep(0, a);
    ByteStep(0, b);
    Undo(0, Place(a));
    Undo(0, Place(b));
    PlaceInjective(a, b);
    if Bits(a) == Bits(b) {
      ShiftBitsInjective(Plus(0, Place(a)), Plus(0, Place(b)), 8);
      PlusZero(Place(a));
      PlusZero(Place(b));
    }
  }

  lemma PlusZero(a: bv32)
    ensures Plus(0, a) == a
  {
  }

  lemma {:induction false} MessageInjective(x: seq<bv8>, y: seq<bv8>)
    requires |x| == |y| && x != y
    ensures Message(x) != Message(y)
    decreases |x|
  {
    hide Bits;
    var n := |x| - 1;
    if x[n] != y[n] {
      BitsInjective(x[n], y[n]);
      assert Message(x)[8 * n..] == Bits(x[n]) && Message(y)[8 * n..] == Bits(y[n]);
    } else {
      assert x == x[..n] + [x[n]] && y == y[..n] + [y[n]];
      MessageInjective(x[..n], y[..n]);
      assert Message(x)[..8 * n] == Message(x[..n]) && Message(y)[..8 * n] == Message(y[..n]);
    }
  }

  /** Buffers of one length that differ only within four consecutive bytes never collide. */
  lemma FourBytesDetected(p: seq<bv8>, x: seq<bv8>, y: seq<bv8>, s: seq<bv8>)
    requires |x| == |y| <= 4 && x != y
    ensures Crc32(p + x + s) != Crc32(p + y + s)
  {
    hide Message; hide Crc32;
    MessageAppend(p + x, s);
    MessageAppend(p, x);
    MessageAppend(p + y, s);
    MessageAppend(p, y);
    MessageInjective(x, y);
    BurstDetected(p + x + s, p + y + s, Message(p), Message(x), Message(y), Message(s));
  }

  // ---- the table in memory ----

  class CrcTable {
    const table: array<bv32>

    ghost predicate Built()
      reads this, table
    {
      table.Length == 256 && forall b: bv8 :: table[Index(b)] == Entry(b)
    }

    ghost predicate Blank()
      reads this, table
    {
      table.Length == 256 && forall b: bv8 :: table[Index(b)] == 0
    }

    constructor ()
      ensures Blank() && fresh(table)
    {
      table := new bv32[256](i => 0);
    }

    /** init_crc32. */
    method Init()
      requires table.Length == 256
      modifies table
      ensures Built()
    {
      hide ShiftBit; hide ShiftBits; hide Place; hide Index; hide At;
      var i := 0;
      while i < 256
        invariant 0 <= i <= 256
        invariant forall b: bv8 :: Index(b) < i ==> table[Index(b)] == Entry(b)
      {
        ByteAt(i);
        var c := Place(At(i));
        var j := 8;
        while j > 0
          invariant 0 <= j <= 8 && ShiftBits(c, j) == Entry(At(i))
          modifies {}
        {
          ShiftBitsStep(c, j);
          c := ShiftBit(c);
          j := j - 1;
        }
        ShiftBitsNone(c);
        table[i] := c;
        i := i + 1;
      }
    }

    /** crc32: the table is built on first use, recognised by its entry for 1. */
    method Checksum(buf: seq<bv8>) returns (crc: bv32)
      requires Built() || Blank()
      modifies table
      ensures Built() && crc == Crc32(buf)
    {
      hide StepByte; hide Entry; hide Index; hide Plus; hide Up; hide Address;
      EntryOne();
      OneIndex();
      if table[1] == 0 {
        Init();
      }
      crc := ONES;
      var k := 0;
      while k < |buf|
        invariant 0 <= k <= |buf| && Built() && crc == Register(ONES, buf[..k])
      {
        assert buf[..k + 1][..k] == buf[..k];
        StepForm(crc, buf[k]);
        crc := Plus(Up(crc), table[Index(Address(crc, buf[k]))]);
        k := k + 1;
      }
      assert buf[..k] == buf;
      return !crc;
    }
  }

  lemma ShiftBitsStep(c: bv32, j: nat)
    requires j > 0
    ensures ShiftBits(ShiftBit(c), j - 1) == ShiftBits(c, j)
  {
  }

  lemma ShiftBitsNone(c: bv32)
    ensures ShiftBits(c, 0) == c
  {
  }

  lemma OneIndex()
    ensures Index(1) == 1
  {
  }

  lemma StepForm(c: bv32, b: bv8)
    ensures StepByte(c, b) == Plus(Up(c), Entry(Address(c, b)))
  {
  }

  lemma ZeroSteps()
    ensures ShiftBits(0, 8) == 0 && Place(1) != 0
  {
    hide Place;
    ZeroShift();
    assert ShiftBits(0, 8) == ShiftBits(0, 6) == ShiftBits(0, 4) == ShiftBits(0, 2) == 0;
    PlaceInjective(0, 1);
    PlaceZero();
  }

  lemma PlaceZero()
    ensures Place(0) == 0
  {
  }

  lemma ZeroShift()
    ensures ShiftBit(0) == 0
  {
  }

  /** The entry for 1 is never zero, so a zero there means the table has not been built. */
  lemma EntryOne()
    ensures Entry(1) != 0
  {
    hide ShiftBits; hide Place;
    ZeroSteps();
    if Entry(1) == 0 {
      ShiftBitsInjective(Place(1), 0, 8);
    }
  }
}
