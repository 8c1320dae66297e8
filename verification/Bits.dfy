/** Bitwise arithmetic on natural numbers, as the C operators `&`, `|`, `^`, `<<` and `>>`
    act on unsigned words.  The operators are defined digit by digit; the lemmas tie the
    mask-and-shift idioms of the simulator to division and remainder. */
module Bits {

  /** Number of values of a 64-bit target address (md_addr_t). */
  const WORD64 := 0x1_0000_0000_0000_0000

  /** Number of values of a 32-bit word. */
  const WORD32 := 0x1_0000_0000

  function Pow2(n: nat): (r: nat)
    ensures r > 0
  {
    if n == 0 then 1 else 2 * Pow2(n - 1)
  }

  function And(a: nat, b: nat): (r: nat)
    ensures r <= a && r <= b
  {
    if a == 0 || b == 0 then 0
    else 2 * And(a / 2, b / 2) + (if a % 2 == 1 && b % 2 == 1 then 1 else 0)
  }

  function Or(a: nat, b: nat): nat
    decreases a + b
  {
    if a == 0 then b
    else if b == 0 then a
    else 2 * Or(a / 2, b / 2) + (if a % 2 == 1 || b % 2 == 1 then 1 else 0)
  }

  function Xor(a: nat, b: nat): nat
    decreases a + b
  {
    if a == 0 then b
    else if b == 0 then a
    else 2 * Xor(a / 2, b / 2) + (if a % 2 != b % 2 then 1 else 0)
  }

  lemma DivNonneg(a: nat, b: nat)
    requires b > 0
    ensures a / b >= 0
  {
  }

  function Shr(a: nat, n: nat): nat {
    DivNonneg(a, Pow2(n));
    a / Pow2(n)
  }

  /** Left shift of a 64-bit word: bits pushed past bit 63 are lost. */
  function Shl64(a: nat, n: nat): (r: nat)
    ensures r < WORD64
  {
    (a * Pow2(n)) % WORD64
  }

  /** Bitwise complement of a 64-bit word. */
  function Not64(a: nat): nat
    requires a < WORD64
  {
    WORD64 - 1 - a
  }

  /** The bit of weight 2^i. */
  function Bit(a: nat, i: nat): nat {
    if i == 0 then a % 2 else Bit(a / 2, i - 1)
  }

  lemma {:induction false} BitMeans(a: nat, i: nat)
    ensures Bit(a, i) == (a / Pow2(i)) % 2
  {
    if i > 0 {
      BitMeans(a / 2, i - 1);
      DivDiv(a, 2, Pow2(i - 1));
    }
  }

  lemma {:induction false} NoBits(i: nat)
    ensures Bit(0, i) == 0
  {
    if i > 0 { NoBits(i - 1); }
  }

  /** The operators act bit by bit. */
  lemma {:induction false} AndBits(a: nat, b: nat, i: nat)
    ensures Bit(And(a, b), i) == Bit(a, i) * Bit(b, i)
  {
    NoBits(i);
    if a != 0 && b != 0 && i > 0 { AndBits(a / 2, b / 2, i - 1); }
  }

  lemma {:induction false} OrBits(a: nat, b: nat, i: nat)
    ensures Bit(Or(a, b), i) == (if Bit(a, i) == 1 || Bit(b, i) == 1 then 1 else 0)
  {
    NoBits(i);
    BitIsBinary(a, i);
    BitIsBinary(b, i);
    if a != 0 && b != 0 && i > 0 { OrBits(a / 2, b / 2, i - 1); }
  }

  lemma {:induction false} XorBits(a: nat, b: nat, i: nat)
    ensures Bit(Xor(a, b), i) == (if Bit(a, i) != Bit(b, i) then 1 else 0)
  {
    NoBits(i);
    BitIsBinary(a, i);
    BitIsBinary(b, i);
    if a != 0 && b != 0 && i > 0 { XorBits(a / 2, b / 2, i - 1); }
  }

  lemma {:induction false} BitIsBinary(a: nat, i: nat)
    ensures Bit(a, i) < 2
  {
    if i > 0 { BitIsBinary(a / 2, i - 1); }
  }

  ghost predicate IsPow2(n: nat) {
    exists k: nat :: n == Pow2(k)
  }

  /** The exponent of a power of two (the simulator's log_base2). */
  function Log2(n: nat): (k: nat)
    requires n > 0
    ensures Pow2(k) <= n < 2 * Pow2(k)
  {
    if n == 1 then 0 else Log2(n / 2) + 1
  }

  lemma {:induction false} Pow2Add(m: nat, n: nat)
    ensures Pow2(m + n) == Pow2(m) * Pow2(n)
  {
    if m == 0 {
    } else {
      Pow2Add(m - 1, n);
      assert Pow2(m + n) == 2 * Pow2(m + n - 1) == 2 * (Pow2(m - 1) * Pow2(n));
    }
  }

  lemma {:induction false} Pow2Monotone(m: nat, n: nat)
    requires m <= n
    ensures Pow2(m) <= Pow2(n)
  {
    if m == n {
    } else {
      Pow2Monotone(m, n - 1);
    }
  }

  lemma {:induction false} Log2OfPow2(k: nat)
    ensures Log2(Pow2(k)) == k
  {
    if k == 0 {
    } else {
      Log2OfPow2(k - 1);
    }
  }

  lemma {:induction false} Pow2Of64()
    ensures Pow2(64) == WORD64
  {
    assert Pow2(8) == 256 by { assert Pow2(4) == 16; }
    Pow2Add(8, 8);
    Pow2Add(16, 16);
    Pow2Add(32, 32);
  }

  /** Dividing twice is dividing by the product. */
  lemma DivDiv(a: nat, b: nat, c: nat)
    requires b > 0 && c > 0
    ensures b * c > 0 && (a / b) / c == a / (b * c)
  {
    var q := a / b;
    var r := a % b;
    var q2 := q / c;
    var r2 := q % c;
    MulPos(b, c);
    assert a == b * q + r && q == c * q2 + r2;
    assert a == (b * c) * q2 + (b * r2 + r) by {
      calc {
        b * q + r;
        b * (c * q2 + r2) + r;
        { MulDistrib(b, c * q2, r2); MulAssoc(b, c, q2); }
        (b * c) * q2 + b * r2 + r;
      }
    }
    assert b * r2 + r < b * c by {
      MulMono(b, r2, c - 1);
      MulDistrib(b, c, -1);
    }
    DivUnique(a, b * c, q2, b * r2 + r);
  }

  lemma MulPos(a: nat, b: nat)
    requires a > 0 && b > 0
    ensures a * b > 0
  {
  }

  lemma MulAssoc(a: int, b: int, c: int)
    ensures a * (b * c) == (a * b) * c
  {
  }

  lemma MulDistrib(a: int, b: int, c: int)
    ensures a * (b + c) == a * b + a * c
  {
  }

  lemma {:induction false} MulMono(a: nat, b: int, c: int)
    requires b <= c
    ensures a * b <= a * c
  {
    MulDistrib(a, b, c - b);
    assert a * (c - b) >= 0;
  }

  /** Quotient and remainder are determined by the division equation. */
  lemma DivUnique(a: int, d: nat, q: int, r: nat)
    requires d > 0 && r < d && a == d * q + r
    ensures a / d == q && a % d == r
  {
    var q' := a / d;
    var r' := a % d;
    assert a == d * q' + r';
    if q' < q {
      MulMono(d, q' + 1, q);
      MulDistrib(d, q', 1);
      assert false;
    } else if q' > q {
      MulMono(d, q + 1, q');
      MulDistrib(d, q, 1);
      assert false;
    }
  }

  /** Masking with 2^k - 1 keeps the low k bits. */
  lemma {:induction false} AndMask(a: nat, k: nat)
    ensures And(a, Pow2(k) - 1) == a % Pow2(k)
  {
    if a == 0 || k == 0 {
    } else {
      var p := Pow2(k - 1);
      AndMask(a / 2, k - 1);
      AndOdd(a, p - 1);
      ModHalf(a, p);
    }
  }

  lemma AndOdd(a: nat, m: nat)
    ensures And(a, 2 * m + 1) == 2 * And(a / 2, m) + a % 2
  {
    assert (2 * m + 1) / 2 == m && (2 * m + 1) % 2 == 1;
  }

  lemma ModHalf(a: nat, p: nat)
    requires p > 0
    ensures a % (2 * p) == 2 * ((a / 2) % p) + a % 2
  {
    var q := (a / 2) / p;
    var r := (a / 2) % p;
    assert a / 2 == p * q + r;
    assert a == 2 * (p * q + r) + a % 2 == (2 * p) * q + (2 * r + a % 2);
    DivUnique(a, 2 * p, q, 2 * r + a % 2);
  }

  /** `|` of a multiple of 2^k with a value below 2^k is their sum. */
  lemma {:induction false} OrDisjoint(a: nat, b: nat, k: nat)
    requires b < Pow2(k)
    ensures Or(a * Pow2(k), b) == a * Pow2(k) + b
  {
    if k == 0 {
    } else {
      var p := Pow2(k - 1);
      var hi := a * Pow2(k);
      assert hi == 2 * (a * p) by { MulAssoc(2, a, p); MulAssoc(a, 2, p); }
      if a == 0 || b == 0 {
        if a != 0 { MulPos(a, Pow2(k)); } else { assert hi == 0; }
      } else {
        MulPos(a, Pow2(k));
        OrDisjoint(a, b / 2, k - 1);
        assert hi / 2 == a * p && hi % 2 == 0;
      }
    }
  }

  lemma AndDouble(a: nat, m: nat)
    ensures And(a, 2 * m) == 2 * And(a / 2, m)
  {
    if a == 0 || m == 0 {
    } else {
      assert (2 * m) / 2 == m && (2 * m) % 2 == 0;
    }
  }

  /** `a` rounded down to a multiple of `p`. */
  function RoundDown(a: nat, p: nat): (r: nat)
    requires p > 0
  {
    a - a % p
  }

  lemma RoundDownHalf(a: nat, p: nat)
    requires p > 0
    ensures RoundDown(a, 2 * p) == 2 * RoundDown(a / 2, p)
  {
    ModHalf(a, p);
  }

  /** Clearing the low k bits with `& ~(2^k - 1)` rounds down to a multiple of 2^k. */
  lemma {:induction false} AndNotMask(a: nat, k: nat, w: nat)
    requires k <= w && a < Pow2(w)
    ensures Pow2(k) <= Pow2(w)
    ensures And(a, Pow2(w) - Pow2(k)) == RoundDown(a, Pow2(k))
  {
    Pow2Monotone(k, w);
    if k == 0 {
      AndAllBits(a, w);
    } else {
      var p, q := Pow2(k - 1), Pow2(w - 1);
      AndNotMask(a / 2, k - 1, w - 1);
      AndDouble(a, q - p);
      RoundDownHalf(a, p);
      assert Pow2(w) - Pow2(k) == 2 * (q - p);
    }
  }

  lemma AndAllBits(a: nat, w: nat)
    requires a < Pow2(w)
    ensures And(a, Pow2(w) - 1) == a == RoundDown(a, 1)
  {
    AndMask(a, w);
    SmallMod(a, Pow2(w));
  }

  lemma SmallMod(a: nat, p: nat)
    requires a < p
    ensures a % p == a && a / p == 0
  {
  }

  /** The simulator's power-of-two test `(n & (n - 1)) == 0` is exact. */
  lemma {:induction false} PowerOfTwoTest(n: nat)
    requires n > 0
    ensures And(n, n - 1) == 0 <==> IsPow2(n)
  {
    if n == 1 {
      assert 1 == Pow2(0);
    } else if n % 2 == 0 {
      PowerOfTwoTest(n / 2);
      assert (n - 1) / 2 == n / 2 - 1;
      assert And(n, n - 1) == 2 * And(n / 2, n / 2 - 1);
      if IsPow2(n / 2) {
        var k: nat :| n / 2 == Pow2(k);
        assert n == Pow2(k + 1);
      }
      if IsPow2(n) {
        var k: nat :| n == Pow2(k);
        assert k > 0;
        assert n / 2 == Pow2(k - 1);
      }
    } else {
      assert (n - 1) / 2 == n / 2 && n / 2 > 0;
      AndSelf(n / 2);
    }
  }

  lemma {:induction false} AndSelf(n: nat)
    ensures And(n, n) == n
  {
    if n == 0 {
    } else {
      AndSelf(n / 2);
    }
  }

  /** A power of two divides every larger one. */
  lemma Pow2Divides(j: nat, k: nat)
    requires j <= k
    ensures Pow2(k) % Pow2(j) == 0 && Pow2(k) == Pow2(j) * Pow2(k - j)
  {
    Pow2Add(j, k - j);
    DivUnique(Pow2(k), Pow2(j), Pow2(k - j), 0);
  }

  /** The C int with a given 32-bit pattern. */
  function Signed32(w: nat): int
    requires w < WORD32
  {
    if w < 0x8000_0000 then w else w - WORD32
  }

  /** A product of two ints as the hardware leaves it. */
  function IntProduct(a: nat, b: nat): int {
    Signed32((a * b) % WORD32)
  }

  lemma Pow2Of16()
    ensures Pow2(16) == 0x1_0000 && IsPow2(0x1_0000)
  {
    assert Pow2(8) == 0x100;
    Pow2Add(8, 8);
  }

  lemma Pow2Of32()
    ensures Pow2(31) == 0x8000_0000 && Pow2(32) == WORD32
  {
    Pow2Of16();
    Pow2Add(16, 16);
    assert Pow2(32) == 2 * Pow2(31);
  }

  /** The product of two powers of two is right in an int exactly when it is below 2^31; from
      there on it comes out negative or zero. */
  lemma IntProductExact(a: nat, b: nat)
    requires IsPow2(a) && IsPow2(b)
    ensures IntProduct(a, b) == a * b <==> a * b < 0x8000_0000
    ensures IntProduct(a, b) > 0 <==> a * b < 0x8000_0000
    ensures IntProduct(a, b) == 0 <==> a * b >= WORD32
  {
    var j: nat :| a == Pow2(j);
    var k: nat :| b == Pow2(k);
    Pow2Add(j, k);
    PowerAsInt(j + k);
  }

  lemma PowerAsInt(n: nat)
    ensures Signed32(Pow2(n) % WORD32) == Pow2(n) <==> Pow2(n) < 0x8000_0000
    ensures Signed32(Pow2(n) % WORD32) > 0 <==> Pow2(n) < 0x8000_0000
    ensures Signed32(Pow2(n) % WORD32) == 0 <==> Pow2(n) >= WORD32
  {
    Pow2Of32();
    if n <= 30 {
      Pow2Monotone(n, 30);
    } else if n >= 32 {
      Pow2Divides(32, n);
      Pow2Monotone(32, n);
    }
  }

  /** 65536 times 65536 is zero in an int. */
  lemma IntProductVanishes()
    ensures IsPow2(65536) && IntProduct(65536, 65536) == 0
  {
    Pow2Of16();
    IntProductExact(65536, 65536);
  }
}
