/** Integers as text: what the formatter prints and what the two parsers read, on values. */
module Numbers {
  import opened Bits

  const LL_MAX := 0x7fff_ffff_ffff_ffff
  const LL_MIN := -0x8000_0000_0000_0000
  const ULL_MAX := 0xffff_ffff_ffff_ffff

  // ----- digits

  /** The value of a digit or letter, or -1. */
  function DigitValue(c: char): (d: int)
    ensures -1 <= d < 36
  {
    if '0' <= c <= '9' then c as int - '0' as int
    else if 'A' <= c <= 'Z' then c as int - 'A' as int + 10
    else if 'a' <= c <= 'z' then c as int - 'a' as int + 10
    else -1
  }

  function DigitChar(d: nat, upper: bool): (c: char)
    requires d < 16
    ensures DigitValue(c) == d
  {
    if d < 10 then ('0' as int + d) as char
    else if upper then ('A' as int + d - 10) as char else ('a' as int + d - 10) as char
  }

  /** Reference definition: u in base b, at least one digit, most significant first. */
  function Digits(u: nat, b: nat, upper: bool): (s: string)
    requires 2 <= b <= 16
    ensures |s| > 0
    ensures forall k :: 0 <= k < |s| ==> 0 <= DigitValue(s[k]) < b
  {
    if u < b then [DigitChar(u, upper)]
    else
      DivLess(u, b);
      var q, r := u / b, u % b;
      Digits(q, b, upper) + [DigitChar(r, upper)]
  }

  lemma DivLess(u: int, b: int)
    requires b >= 2 && u >= b
    ensures 0 <= u / b < u && 0 <= u % b < b && u == (u / b) * b + u % b
  {
    var q, r := u / b, u % b;
    assert u == b * q + r;
    if q <= 0 { MulMono(b, q, 0); assert false; }
    MulMono(q, 2, b);
    assert q * 2 <= q * b;
  }

  /** The number written by the digits from i to j - 1. */
  function Magnitude(s: string, i: nat, j: nat, b: nat): nat
    requires i <= j <= |s| && forall k :: i <= k < j ==> 0 <= DigitValue(s[k])
    decreases j
  {
    if i == j then 0 else Magnitude(s, i, j - 1, b) * b + DigitValue(s[j - 1])
  }

  lemma {:induction false} MagnitudeOfDigits(u: nat, b: nat, upper: bool)
    requires 2 <= b <= 16
    ensures Magnitude(Digits(u, b, upper), 0, |Digits(u, b, upper)|, b) == u
  {
    var s := Digits(u, b, upper);
    if u < b {
      assert Magnitude(s, 0, 0, b) == 0;
    } else {
      DivLess(u, b);
      var q, r := u / b, u % b;
      var t := Digits(q, b, upper);
      MagnitudeOfDigits(q, b, upper);
      OneMoreDigit(t, DigitChar(r, upper), b);
    }
  }

  lemma OneMoreDigit(t: string, c: char, b: nat)
    requires (forall k :: 0 <= k < |t| ==> 0 <= DigitValue(t[k])) && 0 <= DigitValue(c)
    ensures forall k :: 0 <= k < |t + [c]| ==> 0 <= DigitValue((t + [c])[k])
    ensures Magnitude(t + [c], 0, |t| + 1, b) == Magnitude(t, 0, |t|, b) * b + DigitValue(c)
  {
    MagnitudePrefix(t, t + [c], |t|, b);
  }

  lemma {:induction false} MagnitudePrefix(t: string, s: string, j: nat, b: nat)
    requires j <= |t| <= |s| && t == s[..|t|] && forall k :: 0 <= k < |t| ==> 0 <= DigitValue(t[k])
    ensures Magnitude(s, 0, j, b) == Magnitude(t, 0, j, b)
  {
    if j > 0 { MagnitudePrefix(t, s, j - 1, b); }
  }

  /** Leading text shifts positions but not values. */
  lemma {:induction false} MagnitudeShift(p: string, t: string, j: nat, b: nat)
    requires j <= |t| && forall k :: 0 <= k < |t| ==> 0 <= DigitValue(t[k])
    ensures forall k :: |p| <= k < |p + t| ==> 0 <= DigitValue((p + t)[k])
    ensures Magnitude(p + t, |p|, |p| + j, b) == Magnitude(t, 0, j, b)
  {
    if j > 0 { MagnitudeShift(p, t, j - 1, b); }
  }

  /** Leading zeros do not change the value. */
  lemma {:induction false} LeadingZeros(n: nat, t: string, j: nat, b: nat)
    requires j <= |t| && forall k :: 0 <= k < |t| ==> 0 <= DigitValue(t[k])
    ensures forall k :: 0 <= k < n + |t| ==> 0 <= DigitValue((Zeros(n) + t)[k])
    ensures Magnitude(Zeros(n) + t, 0, n + j, b) == Magnitude(t, 0, j, b)
  {
    if j > 0 { LeadingZeros(n, t, j - 1, b); } else { OnlyZeros(n, t, n, b); }
  }

  lemma {:induction false} OnlyZeros(n: nat, t: string, m: nat, b: nat)
    requires m <= n && forall k :: 0 <= k < |t| ==> 0 <= DigitValue(t[k])
    ensures Magnitude(Zeros(n) + t, 0, m, b) == 0
  {
    if m > 0 { OnlyZeros(n, t, m - 1, b); }
  }

  function Zeros(n: nat): (z: string)
    ensures |z| == n && forall k :: 0 <= k < n ==> z[k] == '0'
  {
    seq(n, _ => '0')
  }

  function Blanks(n: nat): (z: string)
    ensures |z| == n && forall k :: 0 <= k < n ==> z[k] == ' '
  {
    seq(n, _ => ' ')
  }

  // ----- printing

  datatype Conversion = Signed | Unsigned | Octal | Hex(upper: bool)

  /** A 64-bit signed value read as unsigned. */
  function AsUnsigned(v: int): nat
    requires LL_MIN <= v <= LL_MAX
  {
    if v < 0 then v + WORD64 else v
  }

  function Abs(v: int): nat {
    if v < 0 then -v else v
  }

  function Prefix(c: Conversion, v: int): string {
    if c.Signed? && v < 0 then "-" else ""
  }

  function Body(c: Conversion, v: int): (s: string)
    requires LL_MIN <= v <= LL_MAX
    ensures |s| > 0
  {
    match c
    case Signed => Digits(Abs(v), 10, false)
    case Unsigned => Digits(AsUnsigned(v), 10, false)
    case Octal => Digits(AsUnsigned(v), 8, false)
    case Hex(upper) => Digits(AsUnsigned(v), 16, upper)
  }

  /** Padding to a width: blanks before the sign, or zeros after it. */
  function Padded(prefix: string, body: string, width: nat, padZero: bool): string {
    var k := |prefix| + |body|;
    if width <= k then prefix + body
    else if padZero then prefix + Zeros(width - k) + body
    else Blanks(width - k) + prefix + body
  }

  function Formatted(c: Conversion, v: int, width: nat, padZero: bool): string
    requires LL_MIN <= v <= LL_MAX
  {
    Padded(Prefix(c, v), Body(c, v), width, padZero)
  }

  // ----- parsing

  /** `end` is the index of the first character not converted. */
  datatype Parsed = Panic | NoConversion | Number(value: int, end: nat, erange: bool)

  predicate IsSpace(c: char) {
    c == ' ' || '\t' <= c <= '\r'
  }

  function SkipSpace(s: string, i: nat): (j: nat)
    requires i <= |s|
    ensures i <= j <= |s| && (forall k :: i <= k < j ==> IsSpace(s[k])) && (j < |s| ==> !IsSpace(s[j]))
    decreases |s| - i
  {
    if i < |s| && IsSpace(s[i]) then SkipSpace(s, i + 1) else i
  }

  predicate HexMark(s: string, i: nat) {
    i + 1 < |s| && s[i] == '0' && (s[i + 1] == 'x' || s[i + 1] == 'X')
  }

  /** The digits of the base from i on end here. */
  function DigitsEnd(s: string, i: nat, b: nat): (j: nat)
    requires i <= |s|
    ensures i <= j <= |s| && (forall k :: i <= k < j ==> 0 <= DigitValue(s[k]) < b)
    ensures j < |s| ==> !(0 <= DigitValue(s[j]) < b)
    decreases |s| - i
  {
    if i < |s| && 0 <= DigitValue(s[i]) < b then DigitsEnd(s, i + 1, b) else i
  }

  function BaseAt(s: string, i: nat, base: int): int {
    if base != 0 then base else if HexMark(s, i) then 16 else 10
  }

  /** What the digits from i on denote, limited to max. */
  function DigitsFrom(s: string, i: nat, b: nat, negative: bool, max: nat, least: int): Parsed
    requires i <= |s|
  {
    var from := if b == 16 && HexMark(s, i) then i + 2 else i;
    var j := DigitsEnd(s, from, b);
    if j == from then NoConversion
    else
      var m := Magnitude(s, from, j, b);
      if m > max then Number(if negative then least else max, j, true)
      else Number(if negative then 0 - m as int else m, j, false)
  }

  function ParseSigned(s: string, base: int): Parsed {
    if s == "" then Panic
    else
      var i := SkipSpace(s, 0);
      if i == |s| then NoConversion
      else
        var b := BaseAt(s, i, base);
        if b <= 1 || b > 36 then Panic
        else DigitsFrom(s, if s[i] == '-' || s[i] == '+' then i + 1 else i, b, s[i] == '-', LL_MAX, LL_MIN)
  }

  function ParseUnsigned(s: string, base: int): Parsed {
    if s == "" then Panic
    else
      var i := SkipSpace(s, 0);
      if i == |s| then NoConversion
      else
        var b := BaseAt(s, i, base);
        if b <= 1 || b > 36 then Panic else DigitsFrom(s, i, b, false, ULL_MAX, 0)
  }

  // ----- round trips

  ghost predicate AllDigits(t: string, b: nat) {
    forall k :: 0 <= k < |t| ==> 0 <= DigitValue(t[k]) < b
  }

  lemma {:induction false} SkipBlanks(s: string, n: nat, i: nat)
    requires i <= n < |s| && (forall k :: i <= k < n ==> s[k] == ' ') && !IsSpace(s[n])
    ensures SkipSpace(s, i) == n
    decreases n - i
  {
    if i < n { SkipBlanks(s, n, i + 1); }
  }

  lemma {:induction false} DigitsToEnd(s: string, i: nat, b: nat)
    requires i <= |s| && forall k :: i <= k < |s| ==> 0 <= DigitValue(s[k]) < b
    ensures DigitsEnd(s, i, b) == |s|
    decreases |s| - i
  {
    if i < |s| { DigitsToEnd(s, i + 1, b); }
  }

  /** A numeral t behind p is read back as its value. */
  lemma NumeralRead(p: string, t: string, b: nat, negative: bool, max: nat, least: int)
    requires t != "" && AllDigits(t, b) && b <= 16
    ensures var m := Magnitude(t, 0, |t|, b);
      DigitsFrom(p + t, |p|, b, negative, max, least)
      == Number(if m > max then (if negative then least else max) else if negative then 0 - m else m,
                |p + t|, m > max)
  {
    var s := p + t;
    assert forall k :: 0 <= k < |t| ==> s[|p| + k] == t[k];
    assert forall k :: |p| <= k < |s| ==> s[k] == t[k - |p|];
    assert !HexMark(s, |p|);
    DigitsToEnd(s, |p|, b);
    MagnitudeShift(p, t, |t|, b);
  }

  /** Zero padding before digits. */
  lemma PaddedDigits(n: nat, t: string, b: nat)
    requires AllDigits(t, b) && b >= 2
    ensures AllDigits(Zeros(n) + t, b) && Magnitude(Zeros(n) + t, 0, |Zeros(n) + t|, b) == Magnitude(t, 0, |t|, b)
  {
    LeadingZeros(n, t, |t|, b);
  }

  /** A padded number is blanks, a sign, zeros and digits. */
  lemma PaddedParts(prefix: string, body: string, width: nat, padZero: bool) returns (n: nat, z: nat)
    requires prefix == "" || prefix == "-"
    ensures Padded(prefix, body, width, padZero) == Blanks(n) + prefix + (Zeros(z) + body)
    ensures (padZero ==> n == 0) && (!padZero ==> z == 0)
  {
    n, z := 0, 0;
    assert Blanks(0) == "" && Zeros(0) == "";
    var k := |prefix| + |body|;
    if width <= k {
      assert Blanks(0) + prefix + (Zeros(0) + body) == prefix + body;
    } else if padZero {
      z := width - k;
      Regroup(prefix, Zeros(z), body);
    } else {
      n := width - k;
      Regroup(Blanks(n), prefix, body);
    }
  }

  lemma Regroup(x: string, y: string, w: string)
    ensures Blanks(0) + x + (y + w) == x + y + w && x + y + (Zeros(0) + w) == x + y + w
  {
  }

  lemma SpacesThen(n: nat, prefix: string, t: string, b: nat)
    requires (prefix == "" || prefix == "-") && t != "" && AllDigits(t, b)
    ensures var s := Blanks(n) + prefix + t;
      && s != "" && SkipSpace(s, 0) == n < |s| && |Blanks(n) + prefix| == n + |prefix|
      && (s[n] == '-' <==> prefix == "-") && s[n] != '+' && !(prefix == "" && HexMark(s, n) && b <= 16)
  {
    var s := Blanks(n) + prefix + t;
    assert s[n] == if prefix == "" then t[0] else '-';
    assert prefix == "" && n + 1 < |s| ==> s[n + 1] == t[1];
    SkipBlanks(s, n, 0);
  }

  /** Main result: any 64-bit value printed with %ld, blank or zero padding included, is read
      back by the signed parser.  The least value is read with a range error all the same. */
  lemma SignedRoundTrip(v: int, width: nat, padZero: bool)
    requires LL_MIN <= v <= LL_MAX
    ensures var s := Formatted(Signed, v, width, padZero);
      ParseSigned(s, 10) == Number(v, |s|, v == LL_MIN)
  {
    MagnitudeOfDigits(Abs(v), 10, false);
    SignedRead(Body(Signed, v), Abs(v), v < 0, width, padZero);
  }

  lemma SignedRead(body: string, m: nat, negative: bool, width: nat, padZero: bool)
    requires AllDigits(body, 10) && body != "" && Magnitude(body, 0, |body|, 10) == m
    ensures var s := Padded(if negative then "-" else "", body, width, padZero);
      ParseSigned(s, 10) == Number(if m > LL_MAX then (if negative then LL_MIN else LL_MAX)
                                   else (if negative then 0 - m else m), |s|, m > LL_MAX)
  {
    var prefix := if negative then "-" else "";
    var n, z := PaddedParts(prefix, body, width, padZero);
    var t := Zeros(z) + body;
    PaddedDigits(z, body, 10);
    SpacesThen(n, prefix, t, 10);
    ParsesSigned(Blanks(n) + prefix + t, n, prefix);
    NumeralRead(Blanks(n) + prefix, t, 10, negative, LL_MAX, LL_MIN);
  }

  lemma ParsesSigned(s: string, i: nat, prefix: string)
    requires s != "" && SkipSpace(s, 0) == i < |s| && s[i] != '+'
    requires if s[i] == '-' then prefix == "-" else prefix == ""
    ensures ParseSigned(s, 10) == DigitsFrom(s, i + |prefix|, 10, prefix == "-", LL_MAX, LL_MIN)
  {
  }

  lemma UnsignedRead(body: string, u: nat, b: nat, width: nat, padZero: bool)
    requires 2 <= b <= 16 && AllDigits(body, b) && body != "" && Magnitude(body, 0, |body|, b) == u <= ULL_MAX
    ensures var s := Padded("", body, width, padZero); ParseUnsigned(s, b) == Number(u, |s|, false)
  {
    var n, z := PaddedParts("", body, width, padZero);
    var t := Zeros(z) + body;
    PaddedDigits(z, body, b);
    SpacesThen(n, "", t, b);
    assert Blanks(n) + "" == Blanks(n);
    ParsesDigits(Blanks(n) + t, n, b);
    NumeralRead(Blanks(n), t, b, false, ULL_MAX, 0);
  }

  lemma ParsesDigits(s: string, i: nat, b: nat)
    requires s != "" && SkipSpace(s, 0) == i < |s| && 2 <= b <= 16
    ensures ParseUnsigned(s, b) == DigitsFrom(s, i, b, false, ULL_MAX, 0)
  {
  }

  /** The base in which a conversion prints. */
  function BaseOf(c: Conversion): nat {
    match c case Signed => 10 case Unsigned => 10 case Octal => 8 case Hex(_) => 16
  }

  /** Main result: any 64-bit value printed with %lu, %lo, %lx or %lX is read back by the
      unsigned parser in the same base. */
  lemma UnsignedRoundTrip(c: Conversion, v: int, width: nat, padZero: bool)
    requires LL_MIN <= v <= LL_MAX && !c.Signed?
    ensures var s := Formatted(c, v, width, padZero);
      ParseUnsigned(s, BaseOf(c)) == Number(AsUnsigned(v), |s|, false)
  {
    MagnitudeOfDigits(AsUnsigned(v), BaseOf(c), c.Hex? && c.upper);
    UnsignedRead(Body(c, v), AsUnsigned(v), BaseOf(c), width, padZero);
  }

  // ----- the text itself

  /** The code of a digit or letter gives its value. */
  lemma DigitCodes(c: char)
    ensures 48 <= c as int <= 57 ==> DigitValue(c) == c as int - 48
    ensures 65 <= c as int <= 90 ==> DigitValue(c) == c as int - 55
    ensures 97 <= c as int <= 122 ==> DigitValue(c) == c as int - 87
    ensures DigitValue(c) >= 0 <==>
      48 <= c as int <= 57 || 65 <= c as int <= 90 || 97 <= c as int <= 122
  {
  }

  /** A digit as the conversion prints it: letters only in hexadecimal, in the case asked for. */
  predicate PrintsAs(c: Conversion, d: char) {
    '0' <= d <= '9' || (c.Hex? && if c.upper then 'A' <= d <= 'F' else 'a' <= d <= 'f')
  }

  lemma {:induction false} DigitsShape(u: nat, b: nat, upper: bool)
    requires 2 <= b <= 16
    ensures forall k :: 0 <= k < |Digits(u, b, upper)| ==>
      PrintsAs(if b > 10 then Hex(upper) else Unsigned, Digits(u, b, upper)[k])
    ensures Digits(u, b, upper)[0] == '0' ==> u == 0 && |Digits(u, b, upper)| == 1
  {
    if u >= b {
      DivLess(u, b);
      DigitsShape(u / b, b, upper);
    }
  }

  /** Main result: a printed number fills its width exactly, or is as long as its sign and digits:
      blanks before a minus sign, or zeros after it, then digits of the conversion without
      leading zeros. */
  lemma PrintedForm(c: Conversion, v: int, width: nat, padZero: bool) returns (n: nat, z: nat, digits: string)
    requires LL_MIN <= v <= LL_MAX
    ensures Formatted(c, v, width, padZero) == Blanks(n) + (if c.Signed? && v < 0 then "-" else "") + Zeros(z) + digits
    ensures digits != "" && (forall k :: 0 <= k < |digits| ==> PrintsAs(c, digits[k]))
    ensures digits[0] == '0' ==> v == 0 && |digits| == 1
    ensures (padZero ==> n == 0) && (!padZero ==> z == 0) && (n + z > 0 ==> |Formatted(c, v, width, padZero)| == width)
    ensures n + z == 0 ==> |Formatted(c, v, width, padZero)| >= width
  {
    digits := Body(c, v);
    DigitsShape(if c.Signed? then Abs(v) else AsUnsigned(v), BaseOf(c), c.Hex? && c.upper);
    n, z := PaddedParts(Prefix(c, v), digits, width, padZero);
    assert Blanks(n) + Prefix(c, v) + (Zeros(z) + digits) == Blanks(n) + Prefix(c, v) + Zeros(z) + digits;
  }

  // ----- what the parsers read

  lemma {:induction false} DigitsUpTo(s: string, i: nat, j: nat, b: nat)
    requires i <= j <= |s| && (forall k :: i <= k < j ==> 0 <= DigitValue(s[k]) < b)
    requires j < |s| ==> !(0 <= DigitValue(s[j]) < b)
    ensures DigitsEnd(s, i, b) == j
    decreases |s| - i
  {
    if i < j { DigitsUpTo(s, i + 1, j, b); }
  }

  lemma {:induction false} SkipsSpaces(s: string, i: nat, j: nat)
    requires i <= j < |s| && (forall k :: i <= k < j ==> White(s[k])) && !White(s[j])
    ensures SkipSpace(s, i) == j
    decreases j - i
  {
    if i < j { SkipsSpaces(s, i + 1, j); }
  }

  lemma {:induction false} MagnitudeIn(s: string, i: nat, t: string, j: nat, b: nat)
    requires i + |t| <= |s| && j <= |t|
    requires forall k :: 0 <= k < |t| ==> s[i + k] == t[k] && 0 <= DigitValue(t[k])
    ensures forall k :: i <= k < i + j ==> 0 <= DigitValue(s[k])
    ensures Magnitude(s, i, i + j, b) == Magnitude(t, 0, j, b)
  {
    assert forall k :: i <= k < i + |t| ==> s[k] == t[k - i];
    if j > 0 { MagnitudeIn(s, i, t, j - 1, b); }
  }

  /** Blank, tabulator, line feed and the codes between it and carriage return. */
  predicate White(c: char) {
    c == ' ' || 9 <= c as int <= 13
  }

  /** A numeral: white space, perhaps a sign, perhaps a mark of base 16, digits, and what
      follows.  `b` is the base meant: the one asked for, or with 0 asked for 16 if there is a
      mark, which is not looked for behind a sign, and 10 otherwise. */
  datatype Spelling = Spelling(white: string, sign: string, mark: string, digits: string, rest: string)
  {
    function Text(): string {
      white + (sign + mark + digits + rest)
    }

    function Base(asked: nat): nat {
      if asked != 0 then asked else if sign == "" && mark != "" then 16 else 10
    }

    ghost predicate Ok(asked: nat) {
      var b := Base(asked);
      && (forall k :: 0 <= k < |white| ==> White(white[k]))
      && (sign == "" || sign == "+" || sign == "-")
      && (mark == "" || ((mark == "0x" || mark == "0X") && b == 16))
      && (asked == 0 || 2 <= asked <= 36)
      && digits != "" && AllDigits(digits, b)
      && (rest != "" ==> !(0 <= DigitValue(rest[0]) < b))
      && (mark == "" && (b == 16 || asked == 0) ==> !HexMark(digits + rest, 0))
    }
  }

  /** The characters of a spelling, by position. */
  lemma TextParts(x: Spelling)
    ensures var s, i := x.Text(), |x.white|;
      && |s| == i + |x.sign| + |x.mark| + |x.digits| + |x.rest|
      && (forall k :: 0 <= k < i ==> s[k] == x.white[k])
      && (forall k :: 0 <= k < |x.sign| ==> s[i + k] == x.sign[k])
      && (forall k :: 0 <= k < |x.mark| ==> s[i + |x.sign| + k] == x.mark[k])
      && (forall k :: 0 <= k < |x.digits + x.rest| ==> s[i + |x.sign| + |x.mark| + k] == (x.digits + x.rest)[k])
  {
  }

  lemma MarkAt(x: Spelling)
    requires x.mark == "" || x.mark == "0x" || x.mark == "0X"
    ensures HexMark(x.Text(), |x.white| + |x.sign|) <==> x.mark != "" || HexMark(x.digits + x.rest, 0)
  {
    TextParts(x);
    var s, i, t := x.Text(), |x.white| + |x.sign|, x.digits + x.rest;
    if x.mark == "" {
      assert |s| == i + |t|;
      assert |t| > 0 ==> s[i + 0] == t[0];
      assert |t| > 1 ==> s[i + 1] == t[1];
    } else {
      assert s[i + 0] == x.mark[0] && s[i + 1] == x.mark[1];
    }
  }

  /** Digits inside a text end where they should, and are worth what they say. */
  lemma DigitsInside(s: string, from: nat, t: string, b: nat)
    requires from + |t| <= |s| && AllDigits(t, b) && forall k :: 0 <= k < |t| ==> s[from + k] == t[k]
    requires from + |t| < |s| ==> !(0 <= DigitValue(s[from + |t|]) < b)
    ensures DigitsEnd(s, from, b) == from + |t|
    ensures Magnitude(s, from, from + |t|, b) == Magnitude(t, 0, |t|, b)
  {
    assert forall k :: from <= k < from + |t| ==> s[k] == t[k - from];
    DigitsUpTo(s, from, from + |t|, b);
    MagnitudeIn(s, from, t, |t|, b);
  }

  lemma DigitsOfText(x: Spelling, b: nat)
    requires AllDigits(x.digits, b) && (x.rest != "" ==> !(0 <= DigitValue(x.rest[0]) < b))
    ensures var s, from := x.Text(), |x.white| + |x.sign| + |x.mark|;
      && from + |x.digits| <= |s| && DigitsEnd(s, from, b) == from + |x.digits|
      && Magnitude(s, from, from + |x.digits|, b) == Magnitude(x.digits, 0, |x.digits|, b)
  {
    TextParts(x);
    hide Spelling.Text, DigitsEnd, Magnitude, DigitValue;
    var s, from, t := x.Text(), |x.white| + |x.sign| + |x.mark|, x.digits + x.rest;
    assert forall k :: 0 <= k < |x.digits| ==> s[from + k] == t[k] == x.digits[k];
    if x.rest != "" { assert s[from + |x.digits|] == t[|x.digits|] == x.rest[0]; }
    DigitsInside(s, from, x.digits, b);
  }

  lemma DigitsRead(x: Spelling, b: nat, negative: bool, max: nat, least: int)
    requires x.digits != "" && AllDigits(x.digits, b) && (x.rest != "" ==> !(0 <= DigitValue(x.rest[0]) < b))
    requires x.mark == "" || ((x.mark == "0x" || x.mark == "0X") && b == 16)
    requires x.mark == "" && b == 16 ==> !HexMark(x.digits + x.rest, 0)
    ensures var s, m := x.Text(), Magnitude(x.digits, 0, |x.digits|, b);
      DigitsFrom(s, |x.white| + |x.sign|, b, negative, max, least) ==
        Number(if m > max then (if negative then least else max) else if negative then 0 - m else m,
               |s| - |x.rest|, m > max)
  {
    MarkAt(x);
    DigitsOfText(x, b);
    hide HexMark, DigitsEnd, Magnitude, DigitValue;
  }

  lemma StartOfText(x: Spelling, asked: nat)
    requires x.Ok(asked)
    ensures var s, i := x.Text(), |x.white|;
      && i < |s| && SkipSpace(s, 0) == i && (s[i] == '-' <==> x.sign == "-") && (s[i] == '+' <==> x.sign == "+")
      && BaseAt(s, i, asked) == x.Base(asked)
  {
    var s, i := x.Text(), |x.white|;
    TextParts(x);
    MarkAt(x);
    assert |x.sign| > 0 ==> s[i + 0] == x.sign[0];
    assert |x.mark| > 0 ==> s[i + |x.sign| + 0] == x.mark[0];
    assert s[i + |x.sign| + |x.mark| + 0] == (x.digits + x.rest)[0] == x.digits[0];
    SkipsSpaces(s, 0, i);
  }

  /** Main result: whatever the signed parser is given, it skips white space and reads a sign, a
      mark of base 16, and digits up to the first that is none, limited to the range. */
  lemma SignedReads(x: Spelling, asked: nat)
    requires x.Ok(asked)
    ensures var m := Magnitude(x.digits, 0, |x.digits|, x.Base(asked));
      ParseSigned(x.Text(), asked) ==
        Number(if m > LL_MAX then (if x.sign == "-" then LL_MIN else LL_MAX) else if x.sign == "-" then 0 - m else m,
               |x.Text()| - |x.rest|, m > LL_MAX)
  {
    StartOfText(x, asked);
    DigitsRead(x, x.Base(asked), x.sign == "-", LL_MAX, LL_MIN);
    hide Magnitude, DigitsFrom, SkipSpace, BaseAt, DigitValue, HexMark;
  }

  /** The unsigned parser reads the same, without a sign. */
  lemma UnsignedReads(x: Spelling, asked: nat)
    requires x.Ok(asked) && x.sign == ""
    ensures var m := Magnitude(x.digits, 0, |x.digits|, x.Base(asked));
      ParseUnsigned(x.Text(), asked) ==
        Number(if m > ULL_MAX then ULL_MAX else m, |x.Text()| - |x.rest|, m > ULL_MAX)
  {
    StartOfText(x, asked);
    DigitsRead(x, x.Base(asked), false, ULL_MAX, 0);
    hide Magnitude, DigitsFrom, SkipSpace, BaseAt, DigitValue, HexMark;
  }
}