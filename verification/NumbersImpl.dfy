/** The integer conversions of the formatter and the two parsers as loops over buffers and
    strings, in the machine's arithmetic, proved to do what module Numbers says. */
module NumbersImpl {
  import opened Bits
  import opened Numbers

  const MAXDIGS := 22

  /** A value cut to a signed 32-bit int. */
  function Int32(x: int): int {
    (x + 0x8000_0000) % WORD32 - 0x8000_0000
  }

  /** The digit step computes in 32 bits however large the value is; the wrap-around cancels. */
  lemma DigitStep(q: nat)
    ensures Int32(Int32(q) - Int32(Int32(q / 10) * 10) + 48) == q % 10 + 48
  {
    var a, b := Int32(q), Int32(q / 10);
    var c := Int32(b * 10);
    IntsAgree(q);
    IntsAgree(q / 10);
    IntsAgree(b * 10);
    Cancels(a, q, c, b, q / 10);
  }

  lemma IntsAgree(x: int)
    ensures (Int32(x) - x) % WORD32 == 0
  {
  }

  lemma Cancels(a: int, q: nat, c: int, b: int, t: nat)
    requires (a - q) % WORD32 == 0 && (b - t) % WORD32 == 0 && (c - b * 10) % WORD32 == 0 && t == q / 10
    ensures Int32(a - c + 48) == q % 10 + 48
  {
    var x, y, z := (a - q) / WORD32, (b - t) / WORD32, (c - b * 10) / WORD32;
    assert a - c + 48 == (q - 10 * t) + 48 + WORD32 * (x - z - 10 * y);
    WrapsAway(q % 10 + 48, x - z - 10 * y);
  }

  lemma WrapsAway(d: int, k: int)
    requires 0 <= d < 100
    ensures Int32(d + WORD32 * k) == d
  {
    DivUnique(d + WORD32 * k + 0x8000_0000, WORD32, k, d + 0x8000_0000);
  }

  function Pow8(n: nat): (p: nat)
    ensures p > 0
  {
    if n == 0 then 1 else 8 * Pow8(n - 1)
  }

  /** Digits fit the buffer. */
  lemma {:induction false} DigitsShort(u: nat, b: nat, upper: bool, n: nat)
    requires 8 <= b <= 16 && n > 0 && u < Pow8(n)
    ensures |Digits(u, b, upper)| <= n
  {
    if u >= b {
      DivLess(u, b);
      QuotientBelow(u, b, Pow8(n - 1));
      DigitsShort(u / b, b, upper, n - 1);
    }
  }

  lemma QuotientBelow(u: nat, b: nat, p: nat)
    requires b >= 8 && u < 8 * p
    ensures 0 <= u / b < p
  {
    var q := u / b;
    assert u == b * q + u % b;
    if q >= p { MulMono(b, p, q); MulMono(p, 8, b); assert false; }
    if q < 0 { MulMono(b, q, -1); assert false; }
  }

  lemma WordsFit()
    ensures Pow8(MAXDIGS) > ULL_MAX
  {
    assert Pow8(11) == 0x2_0000_0000;
    Pow8Add(11, 11);
  }

  lemma {:induction false} Pow8Add(m: nat, n: nat)
    ensures Pow8(m + n) == Pow8(m) * Pow8(n)
  {
    if m > 0 {
      Pow8Add(m - 1, n);
      MulAssoc(8, Pow8(m - 1), Pow8(n));
    }
  }

  lemma {:induction false} Room(c: Conversion, v: int)
    requires LL_MIN <= v <= LL_MAX
    ensures |Body(c, v)| <= MAXDIGS
  {
    WordsFit();
    DigitsShort(if c.Signed? then Abs(v) else AsUnsigned(v), BaseOf(c), c.Hex? && c.upper, MAXDIGS);
  }

  // ----- printing

  /** The low decimal digit of a value whose top bit is set, and the rest. */
  method LowDigit(val: int) returns (c: char, rest: nat)
    requires LL_MIN <= val < 0
    ensures c == DigitChar(AsUnsigned(val) % 10, false) && rest == AsUnsigned(val) / 10
  {
    var lowbit := val % 2;
    var value := val / 2 + WORD64 / 2;
    HalfOf(val);
    rest := value / 5;
    c := (value % 5 * 2 + lowbit + '0' as int) as char;
  }

  /** Shifting right and clearing the top bit halves the unsigned value. */
  lemma HalfOf(val: int)
    requires LL_MIN <= val < 0
    ensures var u, value := val + WORD64, val / 2 + WORD64 / 2;
      value == u / 2 && val % 2 == u % 2 && value / 5 == u / 10 && value % 5 * 2 + u % 2 == u % 10
  {
  }

  lemma DigitsStep(u: nat, b: nat, upper: bool)
    requires 2 <= b <= 16 && u >= b
    ensures 0 <= u / b && 0 <= u % b < b
    ensures Digits(u, b, upper) == Digits(u / b, b, upper) + [DigitChar(u % b, upper)]
  {
    DivLess(u, b);
  }

  /** Writes the decimal digits of a value before position end. */
  method PutDecimal(buf: array<char>, end: nat, val: nat) returns (bp: nat)
    requires |Digits(val, 10, false)| <= end <= buf.Length
    modifies buf
    ensures bp == end - |Digits(val, 10, false)| && buf[bp..end] == Digits(val, 10, false)
    ensures buf[end..] == old(buf[end..])
  {
    var qval: nat := val;
    bp := end;
    while qval > 9
      invariant bp <= end && |Digits(qval, 10, false)| <= bp
      invariant Digits(val, 10, false) == Digits(qval, 10, false) + buf[bp..end]
      invariant buf[end..] == old(buf[end..])
    {
      DigitStep(qval);
      DigitsStep(qval, 10, false);
      var n := Int32(qval);
      qval := qval / 10;
      bp := bp - 1;
      buf[bp] := Int32(n - Int32(Int32(qval) * 10) + '0' as int) as char;
    }
    bp := bp - 1;
    buf[bp] := (qval + '0' as int) as char;
  }

  /** Octal digits have 3 bits, hexadecimal ones 4. */
  function Radix(lradix: nat): nat {
    if lradix == 2 then 8 else 16
  }

  /** Writes octal or hexadecimal digits of a nonzero value; the digit is masked off and the
      value shifted by one bit and then the rest. */
  method PutRadix(buf: array<char>, end: nat, val: nat, lradix: nat, upper: bool) returns (bp: nat)
    requires val > 0 && (lradix == 2 || lradix == 3)
    requires |Rest(val, lradix, upper)| <= end <= buf.Length
    modifies buf
    ensures bp == end - |Rest(val, lradix, upper)| && buf[bp..end] == Rest(val, lradix, upper)
    ensures buf[end..] == old(buf[end..])
  {
    ghost var all := Rest(val, lradix, upper);
    var qval: nat := val;
    bp := end;
    while qval != 0
      invariant bp == end - (|all| - |Rest(qval, lradix, upper)|) && |Rest(qval, lradix, upper)| <= |all|
      invariant all[..|Rest(qval, lradix, upper)|] == Rest(qval, lradix, upper)
      invariant forall k :: bp <= k < end ==> buf[k] == all[k - (end - |all|)]
      invariant forall k :: end <= k < buf.Length ==> buf[k] == old(buf[k])
      decreases qval
    {
      ghost var todo := Rest(qval, lradix, upper);
      qval := PutOne(buf, bp, qval, lradix, upper);
      Shorter(all, todo, Rest(qval, lradix, upper), buf[bp - 1]);
      bp := bp - 1;
    }
    assert bp == end - |all|;
    assert buf[bp..end] == all;
    assert buf[end..] == old(buf[end..]);
  }

  lemma Shorter(all: string, todo: string, rest: string, c: char)
    requires |todo| <= |all| && all[..|todo|] == todo && todo == rest + [c]
    ensures all[..|rest|] == rest && all[|rest|] == c
  {
    assert all[..|todo|][|rest|] == c;
    assert all[..|rest|] == all[..|todo|][..|rest|];
  }

  method PutOne(buf: array<char>, bp: nat, u: nat, lradix: nat, upper: bool) returns (rest: nat)
    requires u > 0 && (lradix == 2 || lradix == 3) && |Rest(u, lradix, upper)| <= bp <= buf.Length
    modifies buf
    ensures rest < u && bp > 0 && Rest(u, lradix, upper) == Rest(rest, lradix, upper) + [buf[bp - 1]]
    ensures forall k :: bp <= k < buf.Length ==> buf[k] == old(buf[k])
  {
    var mradix := Radix(lradix) - 1;
    RadixStep(u, lradix, upper);
    buf[bp - 1] := DigitChar(And(u, mradix), upper);
    rest := Shr(u / 2, lradix);
  }

  function Quot(u: nat, lradix: nat): nat {
    if lradix == 2 then u / 8 else u / 16
  }

  function Rem(u: nat, lradix: nat): (r: nat)
    ensures r < 16
  {
    if lradix == 2 then u % 8 else u % 16
  }

  /** The digits still to be written. */
  function Rest(u: nat, lradix: nat, upper: bool): string {
    if u == 0 then "" else Rest(Quot(u, lradix), lradix, upper) + [DigitChar(Rem(u, lradix), upper)]
  }

  lemma {:induction false} RestIsDigits(u: nat, lradix: nat, upper: bool)
    requires u > 0 && (lradix == 2 || lradix == 3)
    ensures Rest(u, lradix, upper) == Digits(u, Radix(lradix), upper)
  {
    if u >= Radix(lradix) {
      RestIsDigits(Quot(u, lradix), lradix, upper);
      DigitsStep(u, Radix(lradix), upper);
    } else {
      assert Quot(u, lradix) == 0;
      assert Rest(0, lradix, upper) == "";
    }
  }

  lemma RadixStep(u: nat, lradix: nat, upper: bool)
    requires u > 0 && (lradix == 2 || lradix == 3)
    ensures And(u, Radix(lradix) - 1) == Rem(u, lradix) && Shr(u / 2, lradix) == Quot(u, lradix) < u
  {
    assert Pow2(2) == 4 && Pow2(3) == 8 && Pow2(4) == 16;
    AndMask(u, lradix + 1);
    if lradix == 2 { DivDiv(u, 2, 4); } else { DivDiv(u, 2, 8); }
  }

  lemma UnsignedParts(v: int)
    requires LL_MIN <= v < 0
    ensures var u := AsUnsigned(v);
      u >= 10 && Digits(u, 10, false) == Digits(u / 10, 10, false) + [DigitChar(u % 10, false)]
  {
    DigitsStep(AsUnsigned(v), 10, false);
  }

  /** Develops the digits of a value before the end of the buffer: the low digit first when the
      value has its top bit set (or is the least negative one), for it would not fit a long. */
  method Develop(c: Conversion, v: int, buf: array<char>) returns (bp: nat, prefix: string)
    requires LL_MIN <= v <= LL_MAX && buf.Length >= MAXDIGS
    modifies buf
    ensures prefix == Prefix(c, v) && bp <= MAXDIGS
    ensures buf[bp..MAXDIGS] == (if v == 0 && (c.Octal? || c.Hex?) then "" else Body(c, v))
  {
    Room(c, v);
    bp, prefix := MAXDIGS, "";
    match c {
      case Signed =>
        if v < 0 { prefix := "-"; }
        if v == LL_MIN { bp := DevelopHigh(v, buf); } else { bp := PutDecimal(buf, bp, if v < 0 then 0 - v else v); }
      case Unsigned =>
        if v < 0 { bp := DevelopHigh(v, buf); } else { bp := PutDecimal(buf, bp, v); }
      case Octal => bp := DevelopRadix(c, v, buf, 2, false);
      case Hex(upper) => bp := DevelopRadix(c, v, buf, 3, upper);
    }
  }

  method DevelopHigh(v: int, buf: array<char>) returns (bp: nat)
    requires LL_MIN <= v < 0 && buf.Length >= MAXDIGS && |Digits(AsUnsigned(v), 10, false)| <= MAXDIGS
    modifies buf
    ensures bp <= MAXDIGS && buf[bp..MAXDIGS] == Digits(AsUnsigned(v), 10, false)
  {
    UnsignedParts(v);
    var digit, rest := LowDigit(v);
    bp := MAXDIGS - 1;
    buf[bp] := digit;
    bp := PutDecimal(buf, bp, rest);
    assert buf[bp..MAXDIGS] == buf[bp..MAXDIGS - 1] + [buf[MAXDIGS - 1]];
  }

  method DevelopRadix(c: Conversion, v: int, buf: array<char>, lradix: nat, upper: bool) returns (bp: nat)
    requires LL_MIN <= v <= LL_MAX && buf.Length >= MAXDIGS && |Body(c, v)| <= MAXDIGS
    requires (c == Octal && lradix == 2 && !upper) || (c == Hex(upper) && lradix == 3)
    modifies buf
    ensures bp <= MAXDIGS && buf[bp..MAXDIGS] == (if v == 0 then "" else Body(c, v))
  {
    if v == 0 { return MAXDIGS; }
    RestIsDigits(AsUnsigned(v), lradix, upper);
    bp := PutRadix(buf, MAXDIGS, AsUnsigned(v), lradix, upper);
  }

  /** One integer conversion of the formatter, with its field width and zero flag. */
  method FormatInt(c: Conversion, v: int, width: nat, padZero: bool) returns (out: string)
    requires LL_MIN <= v <= LL_MAX
    ensures out == Formatted(c, v, width, padZero)
  {
    var buf := new char[MAXDIGS * 4](_ => ' ');
    var bp, prefix := Develop(c, v, buf);
    var zeroValue := v == 0 && (c.Octal? || c.Hex?);
    var otherlength, lzero, lzeroSet := if zeroValue then 1 else 0, if zeroValue then 1 else 0, zeroValue;
    var digits := buf[bp..MAXDIGS];
    var k := |digits| + |prefix| + otherlength;
    var blanks := "";
    if width > k {
      if padZero {
        lzero := if lzeroSet then lzero + (width - k) else width - k;
        lzeroSet := true;
      } else {
        blanks := Blanks(width - k);
      }
    }
    out := blanks + prefix + (if lzeroSet then Zeros(lzero) else "") + digits;
    Assembled(c, v, width, padZero, digits, out);
  }

  lemma Assembled(c: Conversion, v: int, width: nat, padZero: bool, digits: string, out: string)
    requires LL_MIN <= v <= LL_MAX
    requires var zero, prefix := v == 0 && (c.Octal? || c.Hex?), Prefix(c, v);
      var k := |prefix| + |digits| + (if zero then 1 else 0);
      && digits == (if zero then "" else Body(c, v))
      && out == (if width > k && !padZero then Blanks(width - k) else "") + prefix
                + (if zero || (width > k && padZero)
                   then Zeros((if zero then 1 else 0) + (if width > k && padZero then width - k else 0))
                   else "")
                + digits
    ensures out == Formatted(c, v, width, padZero)
  {
    if v == 0 && (c.Octal? || c.Hex?) {
      assert Body(c, v) == "0";
      ZeroAssembled(if width > 1 then width - 1 else 0);
    }
  }

  lemma ZeroAssembled(n: nat)
    ensures Zeros(1 + n) == Zeros(n) + "0" && Zeros(1) == "0"
  {
  }

  // ----- parsing

  /** The test made before each digit is exact: it fires if and only if the next value would
      exceed the limit. */
  lemma CutTest(i: nat, c: nat, max: nat, b: nat)
    requires b > 0 && c < b
    ensures (i > max / b || (i == max / b && c > max % b)) <==> i * b + c > max
  {
    var q, r := max / b, max % b;
    assert max == b * q + r;
    if i < q {
      MulMono(b, i + 1, q);
      MulDistrib(b, i, 1);
    } else if i > q {
      MulMono(b, q + 1, i);
      MulDistrib(b, q, 1);
    }
  }

  lemma StaysAbove(m: nat, b: nat, c: nat, max: nat)
    requires m > max && b > 0
    ensures m * b + c > max
  {
    MulMono(m, 1, b);
  }

  /** The digit loop: the value as long as it fits, and whether it ever did not. */
  method ConvertDigits(s: string, from: nat, b: nat, max: nat) returns (end: nat, i: nat, overflow: bool)
    requires from <= |s| && 2 <= b <= 36
    ensures end == DigitsEnd(s, from, b)
    ensures var m := Magnitude(s, from, end, b); (overflow <==> m > max) && (!overflow ==> i == m)
  {
    overflow, i, end := false, 0, from;
    ghost var m := 0;
    while end < |s|
      invariant from <= end <= |s| && DigitsEnd(s, from, b) == DigitsEnd(s, end, b)
      invariant forall k :: from <= k < end ==> 0 <= DigitValue(s[k]) < b
      invariant m == Magnitude(s, from, end, b) && (overflow <==> m > max) && (!overflow ==> i == m)
    {
      var c := DigitValue(s[end]);
      if c < 0 || c >= b { return; }
      i, overflow, m := TakeDigit(i, c, b, max, overflow, m);
      end := end + 1;
    }
  }

  /** Appends a digit, unless the value would exceed the limit; m follows the true value. */
  method TakeDigit(i: nat, c: nat, b: nat, max: nat, overflow: bool, ghost m: nat)
      returns (i': nat, overflow': bool, ghost m': nat)
    requires 2 <= b && c < b && (overflow <==> m > max) && (!overflow ==> i == m)
    ensures m' == m * b + c && (overflow' <==> m' > max) && (!overflow' ==> i' == m')
  {
    var cutoff, cutlim := max / b, max % b;
    m' := m * b + c;
    DigitCounts(i, m, m', c, max, b, overflow);
    if i > cutoff || (i == cutoff && c > cutlim) {
      i', overflow' := i, true;
    } else {
      i', overflow' := i * b + c, overflow;
    }
  }

  lemma DigitCounts(i: nat, m: nat, m': nat, c: nat, max: nat, b: nat, overflow: bool)
    requires 2 <= b && c < b && m' == m * b + c && (overflow <==> m > max) && (!overflow ==> i == m)
    ensures var cut := i > max / b || (i == max / b && c > max % b);
      && ((overflow || cut) <==> m' > max) && (!(overflow || cut) ==> i * b + c == m')
  {
    if overflow { StaysAbove(m, b, c, max); } else { CutTest(i, c, max, b); }
  }

  method SkipBlankSpace(s: string) returns (i: nat)
    ensures i == SkipSpace(s, 0)
  {
    i := 0;
    while i < |s| && IsSpace(s[i])
      invariant i <= |s| && SkipSpace(s, 0) == SkipSpace(s, i)
    {
      i := i + 1;
    }
  }

  /** Text to signed 64-bit value. */
  method MyAtosq(s: string, base: int) returns (r: Parsed)
    ensures r == ParseSigned(s, base)
  {
    if s == "" { return Panic; }
    var i := SkipBlankSpace(s);
    if i == |s| { return NoConversion; }
    var b := base;
    if base == 0 { b := if HexMark(s, i) then 16 else 10; }
    if b <= 1 || b > 36 { return Panic; }
    var negative := false;
    if s[i] == '-' {
      negative := true;
      i := i + 1;
    } else if s[i] == '+' {
      i := i + 1;
    }
    r := FinishNumber(s, i, b, negative, LL_MAX, LL_MIN);
  }

  /** Text to unsigned 64-bit value. */
  method MyAtoq(s: string, base: int) returns (r: Parsed)
    ensures r == ParseUnsigned(s, base)
  {
    if s == "" { return Panic; }
    var i := SkipBlankSpace(s);
    if i == |s| { return NoConversion; }
    var b := base;
    if base == 0 { b := if HexMark(s, i) then 16 else 10; }
    if b <= 1 || b > 36 { return Panic; }
    r := FinishNumber(s, i, b, false, ULL_MAX, 0);
  }

  /** The common end: an optional hexadecimal mark, the digits, and the range check. */
  method FinishNumber(s: string, i: nat, b: nat, negative: bool, max: nat, least: int) returns (r: Parsed)
    requires i <= |s| && 2 <= b <= 36
    ensures r == DigitsFrom(s, i, b, negative, max, least)
  {
    var save := if b == 16 && HexMark(s, i) then i + 2 else i;
    var end, value, overflow := ConvertDigits(s, save, b, max);
    if end == save { return NoConversion; }
    if overflow { return Number(if negative then least else max, end, true); }
    return Number(if negative then 0 - value as int else value, end, false);
  }
}
