/** The 32-bit cyclic redundancy check: a table-driven form that takes a byte at a time, against
    a shift register that divides by the polynomial one bit at a time, high bit first.  A word
    is the list of its 32 bits, the most significant first. */
module Crc {
  type Word = w: seq<bool> | |w| == 32 witness seq(32, _ => false)

  /** n in k binary digits. */
  function ToBits(n: nat, k: nat): (b: seq<bool>)
    ensures |b| == k
  {
    if k == 0 then [] else ToBits(n / 2, k - 1) + [n % 2 == 1]
  }

  function Value(b: seq<bool>): nat {
    if b == [] then 0 else 2 * Value(b[..|b| - 1]) + (if b[|b| - 1] then 1 else 0)
  }

  lemma {:induction false} ValueOfBits(b: seq<bool>)
    ensures ToBits(Value(b), |b|) == b
  {
    if b != [] { ValueOfBits(b[..|b| - 1]); }
  }

  lemma {:induction false} ValueBelow(b: seq<bool>, limit: nat)
    requires limit == Two(|b|)
    ensures Value(b) < limit
  {
    if b != [] { ValueBelow(b[..|b| - 1], Two(|b| - 1)); }
  }

  function Two(k: nat): nat {
    if k == 0 then 1 else 2 * Two(k - 1)
  }

  lemma ByteBelow(b: seq<bool>)
    requires |b| == 8
    ensures Value(b) < 256
  {
    assert Two(4) == 16;
    assert Two(8) == 2 * (2 * (2 * (2 * Two(4))));
    ValueBelow(b, Two(8));
  }

  const POLYNOMIAL: Word := ToBits(0x04c1_1db7, 32)

  function Zeros(k: nat): (z: seq<bool>)
    ensures |z| == k && forall i :: 0 <= i < k ==> !z[i]
  {
    seq(k, _ => false)
  }

  function Xor(a: seq<bool>, b: seq<bool>): (c: seq<bool>)
    requires |a| == |b|
    ensures |c| == |a| && forall i :: 0 <= i < |a| ==> c[i] == (a[i] != b[i])
  {
    seq(|a|, i requires 0 <= i < |a| => a[i] != b[i])
  }

  // ----- the reference: one bit at a time

  /** One step of polynomial division: shift out the top bit and, if it was set, subtract. */
  function Shift(a: Word): Word {
    var s := a[1..] + [false];
    if a[0] then Xor(s, POLYNOMIAL) else s
  }

  function ShiftBy(a: Word, n: nat): Word {
    if n == 0 then a else Shift(ShiftBy(a, n - 1))
  }

  /** A word with only bit i possibly set. */
  function At(i: nat, b: bool): Word
    requires i < 32
  {
    seq(32, k => k == i && b)
  }

  function Feed(a: Word, b: bool): Word {
    Shift(Xor(a, At(0, b)))
  }

  /** The register after a sequence of message bits. */
  function Divide(a: Word, bits: seq<bool>): Word {
    Fold(Feed, a, bits)
  }

  function Fold<S, T>(f: (S, T) -> S, a: S, xs: seq<T>): S {
    if xs == [] then a else f(Fold(f, a, xs[..|xs| - 1]), xs[|xs| - 1])
  }

  lemma {:induction false} FoldConcat<S, T>(f: (S, T) -> S, a: S, xs: seq<T>, ys: seq<T>)
    ensures Fold(f, a, xs + ys) == Fold(f, Fold(f, a, xs), ys)
  {
    if ys == [] {
      assert xs + ys == xs;
    } else {
      FoldConcat(f, a, xs, ys[..|ys| - 1]);
      assert (xs + ys)[..|xs + ys| - 1] == xs + ys[..|ys| - 1];
    }
  }

  /** The bytes of a word go in low byte first, each high bit first. */
  function WordBits(w: Word): seq<bool> {
    w[24..] + w[16..24] + w[8..16] + w[..8]
  }

  function MessageBits(ws: seq<Word>): seq<bool> {
    if ws == [] then [] else MessageBits(ws[..|ws| - 1]) + WordBits(ws[|ws| - 1])
  }

  // ----- the table-driven form

  function TableEntry(i: nat): Word
    requires i < 256
  {
    ShiftBy(ToBits(i, 8) + Zeros(24), 8)
  }

  function ByteStep(a: Word, data: seq<bool>): Word
    requires |data| == 8
  {
    var i := Value(Xor(a[..8], data));
    ByteBelow(Xor(a[..8], data));
    Xor(a[8..] + Zeros(8), TableEntry(i))
  }

  function Update(a: Word, w: Word): Word {
    ByteStep(ByteStep(ByteStep(ByteStep(a, w[24..]), w[16..24]), w[8..16]), w[..8])
  }

  function UpdateAll(a: Word, ws: seq<Word>): Word {
    if ws == [] then a else Update(UpdateAll(a, ws[..|ws| - 1]), ws[|ws| - 1])
  }

  // ----- linearity of the division step

  lemma ShiftLinear(a: Word, b: Word)
    ensures Shift(Xor(a, b)) == Xor(Shift(a), Shift(b))
  {
    var l, r := Shift(Xor(a, b)), Xor(Shift(a), Shift(b));
    forall i | 0 <= i < 32 ensures l[i] == r[i] {
      ShiftBit(a, i);
      ShiftBit(b, i);
      ShiftBit(Xor(a, b), i);
    }
  }

  lemma ShiftBit(a: Word, i: nat)
    requires i < 32
    ensures Shift(a)[i] == ((i < 31 && a[i + 1]) != (a[0] && POLYNOMIAL[i]))
  {
  }

  lemma {:induction false} ShiftByLinear(a: Word, b: Word, n: nat)
    ensures ShiftBy(Xor(a, b), n) == Xor(ShiftBy(a, n), ShiftBy(b, n))
  {
    if n > 0 {
      ShiftByLinear(a, b, n - 1);
      ShiftLinear(ShiftBy(a, n - 1), ShiftBy(b, n - 1));
    }
  }

  /** Leading zeros are shifted out without subtraction. */
  lemma {:induction false} ShiftZeros(a: Word, n: nat)
    requires n <= 32 && forall i :: 0 <= i < n ==> !a[i]
    ensures ShiftBy(a, n) == a[n..] + Zeros(n)
  {
    if n == 0 {
      assert a[0..] + Zeros(0) == a;
    } else {
      ShiftZeros(a, n - 1);
      var s := a[n - 1..] + Zeros(n - 1);
      assert !s[0];
      assert s[1..] + [false] == a[n..] + Zeros(n);
    }
  }

  /** Message bits lined up with the register. */
  function Padded(bits: seq<bool>): Word
    requires |bits| <= 32
  {
    bits + Zeros(32 - |bits|)
  }

  /** Feeding up to 32 bits one at a time is adding them all at once and shifting. */
  lemma {:induction false} DivideAtOnce(a: Word, bits: seq<bool>)
    requires |bits| <= 32
    ensures Divide(a, bits) == ShiftBy(Xor(a, Padded(bits)), |bits|)
  {
    var n := |bits|;
    if n == 0 {
      assert Xor(a, Padded([])) == a;
    } else {
      var fore, b := bits[..n - 1], bits[n - 1];
      DivideAtOnce(a, fore);
      FeedShifted(a, fore, b);
      assert fore + [b] == bits;
    }
  }

  lemma FeedShifted(a: Word, fore: seq<bool>, b: bool)
    requires |fore| < 32
    ensures Feed(ShiftBy(Xor(a, Padded(fore)), |fore|), b) == ShiftBy(Xor(a, Padded(fore + [b])), |fore| + 1)
  {
    var n := |fore|;
    OneBitShifted(n, b);
    ShiftByLinear(Xor(a, Padded(fore)), At(n, b), n);
    OneMoreBit(a, fore, b);
  }

  lemma OneBitShifted(i: nat, b: bool)
    requires i < 32
    ensures ShiftBy(At(i, b), i) == At(0, b)
  {
    ShiftZeros(At(i, b), i);
    assert At(i, b)[i..] + Zeros(i) == At(0, b);
  }

  lemma OneMoreBit(a: Word, fore: seq<bool>, b: bool)
    requires |fore| < 32
    ensures Xor(Xor(a, Padded(fore)), At(|fore|, b)) == Xor(a, Padded(fore + [b]))
  {
  }

  lemma XorSplit(a: Word, data: seq<bool>)
    requires |data| == 8
    ensures Xor(a, Padded(data)) == Xor(Xor(a[..8], data) + Zeros(24), Zeros(8) + a[8..])
  {
  }

  lemma XorCommutes(a: Word, b: Word)
    ensures Xor(a, b) == Xor(b, a)
  {
  }

  /** One table lookup does eight steps of division. */
  lemma ByteStepDivides(a: Word, data: seq<bool>)
    requires |data| == 8
    ensures ByteStep(a, data) == Divide(a, data)
  {
    var x := Xor(a[..8], data);
    DivideAtOnce(a, data);
    XorSplit(a, data);
    ShiftByLinear(x + Zeros(24), Zeros(8) + a[8..], 8);
    ShiftZeros(Zeros(8) + a[8..], 8);
    ValueOfBits(x);
    ByteBelow(x);
    assert (Zeros(8) + a[8..])[8..] == a[8..];
    XorCommutes(ShiftBy(x + Zeros(24), 8), a[8..] + Zeros(8));
  }

  lemma DivideConcat(a: Word, x: seq<bool>, y: seq<bool>)
    ensures Divide(a, x + y) == Divide(Divide(a, x), y)
  {
    FoldConcat(Feed, a, x, y);
  }

  lemma UpdateDivides(a: Word, w: Word)
    ensures Update(a, w) == Divide(a, WordBits(w))
  {
    var b0 := ByteStep(a, w[24..]);
    var b1 := ByteStep(b0, w[16..24]);
    var b2 := ByteStep(b1, w[8..16]);
    ByteStepDivides(a, w[24..]);
    ByteStepDivides(b0, w[16..24]);
    ByteStepDivides(b1, w[8..16]);
    ByteStepDivides(b2, w[..8]);
    DivideConcat(a, w[24..], w[16..24]);
    DivideConcat(a, w[24..] + w[16..24], w[8..16]);
    DivideConcat(a, w[24..] + w[16..24] + w[8..16], w[..8]);
  }

  /** Main result: the table-driven check over any sequence of words is bit-at-a-time division
      of the whole message. */
  lemma {:induction false} UpdateAllDivides(a: Word, ws: seq<Word>)
    ensures UpdateAll(a, ws) == Divide(a, MessageBits(ws))
  {
    if ws != [] {
      UpdateAllDivides(a, ws[..|ws| - 1]);
      UpdateDivides(UpdateAll(a, ws[..|ws| - 1]), ws[|ws| - 1]);
      DivideConcat(a, MessageBits(ws[..|ws| - 1]), WordBits(ws[|ws| - 1]));
    }
  }

  // ----- the polynomial as a number

  lemma {:induction false} BitsOfValue(n: nat, k: nat)
    requires n < Two(k)
    ensures Value(ToBits(n, k)) == n
  {
    if k > 0 { BitsOfValue(n / 2, k - 1); }
  }

  lemma {:induction false} TwoAdd(i: nat, j: nat)
    ensures Two(i + j) == Two(i) * Two(j)
  {
    if i > 0 {
      TwoAdd(i - 1, j);
      assert Two(i + j) == 2 * Two(i - 1 + j);
    }
  }

  lemma TwoTo32()
    ensures Two(32) == 0x1_0000_0000
  {
    assert Two(4) == 16;
    TwoAdd(4, 4);
    TwoAdd(8, 8);
    TwoAdd(16, 16);
  }

  /** From a clear register the byte 1 leaves the number 0x04c11db7. */
  lemma ByteOneLeaves()
    ensures Value(Divide(Zeros(32), Zeros(7) + [true])) == 0x04c1_1db7
  {
    DivideAtOnce(Zeros(32), Zeros(7) + [true]);
    var w := Xor(Zeros(32), Padded(Zeros(7) + [true]));
    ShiftZeros(w, 7);
    assert ShiftBy(w, 7)[0];
    assert Shift(ShiftBy(w, 7)) == POLYNOMIAL;
    TwoTo32();
    BitsOfValue(0x04c1_1db7, 32);
  }

  // ----- what the check detects

  /** The division step loses nothing: the low bit of the polynomial is set. */
  lemma ShiftInjective(a: Word, b: Word)
    requires Shift(a) == Shift(b)
    ensures a == b
  {
    PolynomialEndsInOne();
    ShiftBit(a, 31);
    ShiftBit(b, 31);
    forall i | 1 <= i < 32 ensures a[i] == b[i] {
      ShiftBit(a, i - 1);
      ShiftBit(b, i - 1);
    }
    SameBits(a, b);
  }

  lemma SameBits(a: Word, b: Word)
    requires a[0] == b[0] && forall i :: 1 <= i < 32 ==> a[i] == b[i]
    ensures a == b
  {
  }

  lemma PolynomialEndsInOne()
    ensures POLYNOMIAL[31]
  {
    LastBit(0x04c1_1db7, 32);
  }

  lemma LastBit(n: nat, k: nat)
    requires k > 0
    ensures ToBits(n, k)[k - 1] <==> n % 2 == 1
  {
  }

  lemma {:induction false} ShiftByInjective(a: Word, b: Word, n: nat)
    requires ShiftBy(a, n) == ShiftBy(b, n)
    ensures a == b
  {
    if n > 0 {
      ShiftInjective(ShiftBy(a, n - 1), ShiftBy(b, n - 1));
      ShiftByInjective(a, b, n - 1);
    }
  }

  /** Different registers stay different whatever message follows. */
  lemma {:induction false} DivideInjective(a: Word, b: Word, bits: seq<bool>)
    requires Divide(a, bits) == Divide(b, bits)
    ensures a == b
  {
    if bits != [] {
      var fore, t := bits[..|bits| - 1], At(0, bits[|bits| - 1]);
      ShiftInjective(Xor(Divide(a, fore), t), Xor(Divide(b, fore), t));
      XorInjective(Divide(a, fore), Divide(b, fore), t);
      DivideInjective(a, b, fore);
    }
  }

  lemma XorInjective(a: Word, b: Word, t: Word)
    requires Xor(a, t) == Xor(b, t)
    ensures a == b
  {
    forall i | 0 <= i < 32 ensures a[i] == b[i] {
      assert Xor(a, t)[i] == Xor(b, t)[i];
    }
  }

  /** Main result: any change confined to 32 consecutive message bits changes the check. */
  lemma BurstDetected(a: Word, before: seq<bool>, x: seq<bool>, y: seq<bool>, after: seq<bool>)
    requires |x| == |y| <= 32 && x != y
    ensures Divide(a, before + x + after) != Divide(a, before + y + after)
  {
    var r := Divide(a, before);
    DivideConcat(a, before, x);
    DivideConcat(a, before, y);
    DivideConcat(a, before + x, after);
    DivideConcat(a, before + y, after);
    if Divide(a, before + x + after) == Divide(a, before + y + after) {
      DivideInjective(Divide(r, x), Divide(r, y), after);
      DivideAtOnce(r, x);
      DivideAtOnce(r, y);
      ShiftByInjective(Xor(r, Padded(x)), Xor(r, Padded(y)), |x|);
      XorCommutes(r, Padded(x));
      XorCommutes(r, Padded(y));
      XorInjective(Padded(x), Padded(y), r);
      PaddedInjective(x, y);
    }
  }

  lemma PaddedInjective(x: seq<bool>, y: seq<bool>)
    requires |x| == |y| <= 32 && Padded(x) == Padded(y)
    ensures x == y
  {
    assert Padded(x)[..|x|] == x && Padded(y)[..|y|] == y;
  }

  // ----- the check in place

  /** Byte j of a word, counted from the low end. */
  function ByteOf(w: Word, j: nat): (b: seq<bool>)
    requires j < 4
    ensures |b| == 8
  {
    w[24 - 8 * j..32 - 8 * j]
  }

  /** The register after the first j bytes of a word. */
  function Bytes(a: Word, w: Word, j: nat): Word
    requires j <= 4
  {
    if j == 0 then a else ByteStep(Bytes(a, w, j - 1), ByteOf(w, j - 1))
  }

  lemma FourBytes(a: Word, w: Word)
    ensures Bytes(a, w, 4) == Update(a, w)
  {
    assert ByteOf(w, 0) == w[24..];
    assert ByteOf(w, 3) == w[..8];
    assert ByteOf(w, 1) == w[16..24] && ByteOf(w, 2) == w[8..16];
    assert Bytes(a, w, 0) == a;
    assert Bytes(a, w, 1) == ByteStep(a, ByteOf(w, 0));
    assert Bytes(a, w, 2) == ByteStep(Bytes(a, w, 1), ByteOf(w, 1));
    assert Bytes(a, w, 3) == ByteStep(Bytes(a, w, 2), ByteOf(w, 2));
  }

  class Checker {
    const table: array<Word>
    var ready: bool

    ghost predicate Valid()
      reads this, table
    {
      table.Length == 256 && (ready ==> forall i :: 0 <= i < 256 ==> table[i] == TableEntry(i))
    }

    constructor ()
      ensures Valid() && fresh(table)
    {
      table := new Word[256](_ => Zeros(32));
      ready := false;
    }

    /** Fills the table with the remainders of all bytes. */
    method GenTable()
      requires Valid()
      modifies this, table
      ensures Valid() && ready
    {
      ready := false;
      for i := 0 to 256
        invariant !ready && forall k :: 0 <= k < i ==> table[k] == TableEntry(k)
      {
        table[i] := Remainder(i);
      }
      ready := true;
    }

    /** The remainder of one byte, by eight shifts. */
    method Remainder(i: nat) returns (accum: Word)
      requires i < 256
      ensures accum == TableEntry(i)
    {
      accum := ToBits(i, 8) + Zeros(24);
      ghost var start := accum;
      for j := 0 to 8
        invariant accum == ShiftBy(start, j)
      {
        if accum[0] {
          accum := Xor(accum[1..] + [false], POLYNOMIAL);
        } else {
          accum := accum[1..] + [false];
        }
      }
    }

    /** Updates the check with one word. */
    method Check(a: Word, data: Word) returns (accum: Word)
      requires Valid()
      modifies this, table
      ensures Valid() && ready && accum == Update(a, data)
    {
      if !ready { GenTable(); }
      accum := a;
      for j := 0 to 4
        invariant Valid() && ready && accum == Bytes(a, data, j)
      {
        var byte := Xor(accum[..8], ByteOf(data, j));
        ByteBelow(byte);
        accum := Xor(accum[8..] + Zeros(8), table[Value(byte)]);
      }
      FourBytes(a, data);
    }
  }
}
