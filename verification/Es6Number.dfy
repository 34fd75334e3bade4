/**
 ECMAScript `NumberToString` as the canonicalizer computes it: the shortest
 decimal of a double is taken apart into digits and an exponent
 (`parse_shortest_decimal`) and laid out again (`es6_format`).
 */
module Es6Number {
  import opened Wrappers
  import opened Decimal
  import opened JsonNumber

  // ------------------------------------------------ taking a decimal apart

  function LeadingZeros(s: string): (k: nat)
    ensures k <= |s| && s[..k] == Zeros(k) && (k < |s| ==> s[k] != '0')
  {
    var k := IndexOf(s, c => c != '0');
    assert s[..k] == Zeros(k);
    k
  }

  function TrimStart(s: string): (r: string)
    ensures |r| <= |s| && s == Zeros(|s| - |r|) + r && (r != "" ==> r[0] != '0')
  {
    s[LeadingZeros(s)..]
  }

  function TrimEnd(s: string): (r: string)
    ensures r <= s && s == r + Zeros(|s| - |r|) && (r != "" ==> r[|r| - 1] != '0')
  {
    if s != "" && s[|s| - 1] == '0' then
      var r := TrimEnd(s[..|s| - 1]);
      assert s == s[..|s| - 1] + "0";
      assert Zeros(|s| - |r|) == Zeros(|s| - 1 - |r|) + "0";
      r
    else
      assert s == s + Zeros(0);
      s
  }

  function OrZero(digits: string): string {
    if digits == "" then "0" else digits
  }

  predicate IsPoint(c: char) { c == '.' }

  function PointedDigits(whole: string, frac: string): (string, int) {
    if |whole| == 0 || (|whole| == 1 && whole[0] == '0') then
      var zeros := LeadingZeros(frac);
      (OrZero(TrimEnd(frac[zeros..])), -(zeros + 1))
    else
      (TrimEnd(whole + frac), |whole| - 1)
  }

  function PlainDigits(coeff: string): (string, int) {
    var digits := OrZero(TrimStart(coeff));
    (digits, |digits| - 1)
  }

  /** `coeff_to_digits`: digits without the point, and the exponent of the leading one. */
  function CoeffToDigits(coeff: string): (string, int) {
    var dot := IndexOf(coeff, IsPoint);
    if dot < |coeff| then PointedDigits(coeff[..dot], coeff[dot + 1..]) else PlainDigits(coeff)
  }

  const I32_MAX := 0x7fff_ffff
  const I32_MIN := -0x8000_0000

  predicate FitsI32(x: int) { I32_MIN <= x <= I32_MAX }

  /** 32-bit arithmetic as a build without overflow checks does it. */
  function Wrap32(x: int): (r: int)
    ensures FitsI32(r) && (FitsI32(x) ==> r == x)
  {
    (x + 0x8000_0000) % 0x1_0000_0000 - 0x8000_0000
  }

  /** Wrapping each step of a sum, or only its result, is the same. */
  lemma WrapOnce(x: int, y: int)
    ensures Wrap32(Wrap32(x) + Wrap32(y)) == Wrap32(x + y) && Wrap32(-Wrap32(x)) == Wrap32(-x)
  {
    WrapShift(x, Wrap32(x));
    WrapShift(y, Wrap32(y));
    var i, j := (x - Wrap32(x)) / 0x1_0000_0000, (y - Wrap32(y)) / 0x1_0000_0000;
    WrapTurns(Wrap32(x) + Wrap32(y), i + j);
    WrapTurns(-Wrap32(x), -i);
  }

  lemma WrapShift(x: int, r: int)
    requires r == Wrap32(x)
    ensures x == r + (x - r) / 0x1_0000_0000 * 0x1_0000_0000
  {
  }

  lemma WrapTurns(x: int, k: int)
    ensures Wrap32(x + k * 0x1_0000_0000) == Wrap32(x)
  {
  }

  /** `str::parse::<i32>().unwrap_or(0)`. */
  function ParseI32OrZero(s: string): (r: int)
    ensures FitsI32(r)
  {
    var neg := s != "" && s[0] == '-';
    var d := if s != "" && (s[0] == '-' || s[0] == '+') then s[1..] else s;
    if d == "" || !AllDigits(d) then 0
    else
      var v := if neg then 0 - DigitsVal(d) else DigitsVal(d);
      if FitsI32(v) then v else 0
  }

  function TrimPlus(s: string): string {
    s[IndexOf(s, NotPlus)..]
  }

  /**
   `parse_shortest_decimal` after the sign. The source also counts the coefficient's exponent in 32 bits; by
   `WrapOnce` it is enough to wrap the sum.
   */
  function ParseUnsignedDecimal(body: string): (string, int) {
    var e := IndexOf(body, IsMarker);
    var exp := if e < |body| then ParseI32OrZero(TrimPlus(body[e + 1..])) else 0;
    var (digits, coeffExp) := CoeffToDigits(body[..e]);
    (digits, Wrap32(coeffExp + exp))
  }

  function ParseShortestDecimal(rendered: string): (bool, string, int) {
    var neg := rendered != "" && rendered[0] == '-';
    var (digits, exp) := ParseUnsignedDecimal(if neg then rendered[1..] else rendered);
    (neg, digits, exp)
  }

  /** The number `d[0].d[1..] * 10^e`. */
  ghost function Denotes(digits: string, e: int): real
    requires AllDigits(digits)
  {
    Scaled(DigitsVal(digits), e - |digits| + 1)
  }

  /** How digits of the value `m` start: with no zero, or as the single zero. */
  predicate Starts(m: nat, d: string) {
    if m > 0 then d != "" && d[0] != '0' else d == "0"
  }

  /** The exponent of the first digit of a coefficient, leading zeros of a fraction skipped. */
  function CoeffExponent(w: string, f: string): int
    requires w != ""
  {
    if w[0] != '0' || f == "" then |w| - 1 else -(LeadingZeros(f) + 1)
  }

  lemma CoeffWithoutPoint(w: string)
    requires ValidWhole(w)
    ensures var (d, e) := CoeffToDigits(w);
            && AllDigits(d) && d != ""
            && Denotes(d, e) == Scaled(DigitsVal(w), 0)
            && Starts(DigitsVal(w), d) && e == CoeffExponent(w, "")
            && (Normal(d) <==> DigitsVal(w) > 0 && w[|w| - 1] != '0')
  {
    assert IndexOf(w, IsPoint) == |w|;
    if w[0] == '0' {
      assert w == "0" && DigitsVal(w) == 0;
      assert TrimStart(w) == "";
    } else {
      assert LeadingZeros(w) == 0;
      assert TrimStart(w) == w;
      NoLeadingZeroPositive(w);
    }
  }

  /** Splitting at the first point recovers both sides. */
  lemma CoeffSplit(w: string, f: string)
    requires AllDigits(w)
    ensures CoeffToDigits(w + ("." + f)) == PointedDigits(w, f)
  {
    var c := w + ("." + f);
    assert forall i :: 0 <= i < |w| ==> c[i] == w[i];
    assert c[|w|] == '.';
    assert IndexOf(c, IsPoint) == |w|;
    assert c[..|w|] == w && c[|w| + 1..] == f;
  }

  lemma TrimEndValue(s: string, k: int)
    requires AllDigits(s)
    ensures var d := TrimEnd(s); AllDigits(d) && Scaled(DigitsVal(d), k + |s| - |d|) == Scaled(DigitsVal(s), k)
  {
    var d := TrimEnd(s);
    assert AllDigits(d) by { assert forall i :: 0 <= i < |d| ==> d[i] == s[i]; }
    DigitsValZeros(d, |s| - |d|);
    ScaledShift(DigitsVal(d), k, |s| - |d|);
  }

  lemma TrimEndNormal(s: string)
    requires AllDigits(s) && s != "" && s[0] != '0'
    ensures Normal(TrimEnd(s))
  {
    var d := TrimEnd(s);
    assert s[0] == (d + Zeros(|s| - |d|))[0];
    assert forall i :: 0 <= i < |d| ==> d[i] == s[i];
  }

  lemma {:induction false} LargePoint(w: string, f: string)
    requires ValidWhole(w) && w[0] != '0' && AllDigits(f)
    ensures var (d, e) := PointedDigits(w, f);
            && Normal(d) && e == |w| - 1
            && Denotes(d, e) == Scaled(DigitsVal(w + f), -|f|)
            && DigitsVal(w + f) > 0
  {
    hide Scaled, DigitsVal;
    var s := w + f;
    assert s[0] == w[0];
    TrimEndValue(s, -|f|);
    TrimEndNormal(s);
    NoLeadingZeroPositive(s);
  }

  lemma {:induction false} ZeroFraction(w: string, f: string)
    requires |w| == 1 && w[0] == '0' && AllDigits(f)
    ensures DigitsVal(w + f) == DigitsVal(f[LeadingZeros(f)..])
  {
    var k := LeadingZeros(f);
    assert w == Zeros(1);
    DigitsValLeading(1, f);
    assert f == Zeros(k) + f[k..];
    DigitsValLeading(k, f[k..]);
  }

  /** The digits behind the leading zeros of a fraction. */
  lemma FractionDigits(f: string, k: nat)
    requires AllDigits(f) && k == LeadingZeros(f)
    ensures var d := OrZero(TrimEnd(f[k..]));
            && AllDigits(d) && d != ""
            && Denotes(d, -(k + 1)) == Scaled(DigitsVal(f[k..]), -|f|)
            && Starts(DigitsVal(f[k..]), d)
            && (Normal(d) <==> DigitsVal(f[k..]) > 0)
  {
    var t := f[k..];
    if k < |f| {
      assert t[0] == f[k];
      TrimEndValue(t, -|f|);
      TrimEndNormal(t);
      NoLeadingZeroPositive(t);
    } else {
      assert t == "";
      ZeroDigit();
    }
  }

  lemma {:induction false} SmallPoint(w: string, f: string)
    requires |w| == 1 && w[0] == '0' && AllDigits(f)
    ensures var (d, e) := PointedDigits(w, f);
            && AllDigits(d) && d != ""
            && Denotes(d, e) == Scaled(DigitsVal(w + f), -|f|)
            && Starts(DigitsVal(w + f), d) && e == -(LeadingZeros(f) + 1)
            && (Normal(d) <==> DigitsVal(w + f) > 0)
  {
    hide Scaled, DigitsVal, OrZero, TrimEnd, LeadingZeros, Normal, Zeros, IndexOf;
    var k: int := LeadingZeros(f);
    ZeroFraction(w, f);
    FractionDigits(f, k);
    assert PointedDigits(w, f) == (OrZero(TrimEnd(f[k..])), 0 - k - 1);
  }

  lemma ZeroDigit()
    ensures DigitsVal("0") == 0
  {
  }

  /**
   `coeff_to_digits` on every coefficient of the number grammar. Trailing zeros
   stay exactly when there is no fraction part to trim.
   */
  lemma CoeffToDigitsValue(w: string, f: string)
    requires ValidWhole(w) && AllDigits(f)
    ensures var (d, e) := CoeffToDigits(w + FracText(f));
            && AllDigits(d) && d != ""
            && Denotes(d, e) == Scaled(DigitsVal(w + f), -|f|)
            && Starts(DigitsVal(w + f), d) && e == CoeffExponent(w, f)
            && (Normal(d) <==> DigitsVal(w + f) > 0 && (f != "" || w[|w| - 1] != '0'))
  {
    hide Scaled, DigitsVal, CoeffToDigits, PointedDigits, PlainDigits;
    if f == "" {
      assert w + FracText(f) == w && w + f == w;
      CoeffWithoutPoint(w);
    } else {
      CoeffSplit(w, f);
      if w[0] == '0' { SmallPoint(w, f); } else { LargePoint(w, f); }
    }
  }

  // ------------------------------------------------------ the whole decimal

  predicate IsMarker(c: char) { c == 'e' || c == 'E' }
  predicate NotPlus(c: char) { c != '+' }

  /** The exponent `parse_shortest_decimal` reads: the written one, or zero when it does not fit an i32. */
  function ExponentRead(x: Exponent): int
    requires ValidExponent(x)
  {
    if FitsI32(ExponentVal(x)) then ExponentVal(x) else 0
  }

  lemma ExponentDigitsRead(sign: ExponentSign, d: string)
    requires AllDigits(d) && d != ""
    ensures ParseI32OrZero(TrimPlus(ExponentSignText(sign) + d)) ==
            ExponentRead(Exponent('e', sign, d))
  {
    hide DigitsVal;
    var s := ExponentSignText(sign) + d;
    match sign
    case Unsigned =>
      assert s == d && TrimPlus(d) == d;
    case Plus =>
      assert s[0] == '+' && s[1] == d[0];
      assert IndexOf(s, NotPlus) == 1;
      assert TrimPlus(s) == d;
    case Minus =>
      assert s[0] == '-' && s[1..] == d;
      assert IndexOf(s, NotPlus) == 0;
  }

  lemma MarkerAt(c: string, m: char, t: string)
    requires IsMarker(m) && forall i :: 0 <= i < |c| ==> !IsMarker(c[i])
    ensures var body := c + ([m] + t);
            IndexOf(body, IsMarker) == |c| && |c| < |body| && body[..|c|] == c && body[|c| + 1..] == t
  {
    var body := c + ([m] + t);
    assert forall i :: 0 <= i < |c| ==> body[i] == c[i];
    assert body[|c|] == m;
  }

  lemma BodySplit(c: string, x: Exponent)
    requires ValidExponent(x) && forall i :: 0 <= i < |c| ==> !IsMarker(c[i])
    ensures ParseUnsignedDecimal(c + ExponentText(x)) ==
            (CoeffToDigits(c).0, Wrap32(CoeffToDigits(c).1 + ExponentRead(x)))
  {
    hide CoeffToDigits, ParseI32OrZero, DigitsVal, TrimPlus;
    match x
    case NoExponent =>
      assert c + "" == c && c[..|c|] == c;
    case Exponent(m, sign, d) =>
      MarkerAt(c, m, ExponentSignText(sign) + d);
      ExponentDigitsRead(sign, d);
  }

  lemma Es6Precise(n: Number)
    requires ValidNumber(n)
    ensures ParseShortestDecimal(NumberText(n)) ==
            (n.neg, CoeffToDigits(n.whole + FracText(n.frac)).0,
             Wrap32(CoeffToDigits(n.whole + FracText(n.frac)).1 + ExponentRead(n.exp)))
  {
    hide CoeffToDigits, ParseI32OrZero, DigitsVal, ParseUnsignedDecimal, ExponentRead, ParseShortestDecimal,
         ExponentText;
    hide Wrap32, FracText, SignText, AllDigits;
    var c := n.whole + FracText(n.frac);
    CoeffBody(n);
    BodySplit(c, n.exp);
    SignSplit(n.neg, c + ExponentText(n.exp));
  }

  /** A number text is its sign, coefficient and exponent; the coefficient starts with a digit and has no marker. */
  lemma CoeffBody(n: Number)
    requires ValidNumber(n)
    ensures var c := n.whole + FracText(n.frac);
            && NumberText(n) == SignText(n.neg) + (c + ExponentText(n.exp))
            && c + ExponentText(n.exp) != "" && (c + ExponentText(n.exp))[0] != '-'
            && forall i :: 0 <= i < |c| ==> !IsMarker(c[i])
  {
    hide ExponentText;
    var w, f, x := n.whole, FracText(n.frac), ExponentText(n.exp);
    assert (w + f) + x == w + (f + x);
    assert (w + (f + x))[0] == w[0];
  }

  lemma SignSplit(neg: bool, body: string)
    requires body != "" && body[0] != '-'
    ensures ParseShortestDecimal(SignText(neg) + body) ==
            (neg, ParseUnsignedDecimal(body).0, ParseUnsignedDecimal(body).1)
  {
    hide ParseUnsignedDecimal;
    var s := SignText(neg) + body;
    if neg {
      assert s[0] == '-' && s[1..] == body;
    } else {
      assert s == body;
    }
  }

  lemma ScaledDrift(m: nat, k: int, x: int)
    requires Scaled(m, k) == Scaled(m, k + x)
    ensures m == 0 || x == 0
  {
    if x > 0 {
      ScaledEqualExponents(m, k, m, k + x);
      FixedPoint(m, IPow10(x - 1), IPow10(x));
    } else if x < 0 {
      ScaledEqualExponents(m, k + x, m, k);
      FixedPoint(m, IPow10(-x - 1), IPow10(-x));
    }
  }

  lemma FixedPoint(m: nat, p: nat, q: nat)
    requires m == m * q && q == 10 * p && p >= 1
    ensures m == 0
  {
  }

  lemma ShiftDenotes(d: string, e: int, m: nat, k: int, x: int)
    requires AllDigits(d) && Denotes(d, e) == Scaled(m, k)
    ensures Denotes(d, e + x) == Scaled(m, k + x)
  {
    if x >= 0 {
      Rescale(DigitsVal(d), e - |d| + 1, m, k, x);
    } else {
      RescaleDown(DigitsVal(d), e - |d| + 1, m, k, -x);
    }
  }

  lemma ScaledTimes(a: nat, i: int, x: nat)
    ensures Scaled(a, i + x) == (IPow10(x) as real) * Scaled(a, i)
  {
    hide Pow10, IPow10;
    Pow10Add(i, x);
    Swap(a as real, IPow10(x) as real, Pow10(i), Pow10(i + x));
  }

  lemma Swap(a: real, p: real, q: real, pq: real)
    requires pq == p * q
    ensures a * pq == p * (a * q)
  {
  }

  lemma Rescale(a: nat, i: int, b: nat, j: int, x: nat)
    requires Scaled(a, i) == Scaled(b, j)
    ensures Scaled(a, i + x) == Scaled(b, j + x)
  {
    hide Scaled, IPow10;
    ScaledTimes(a, i, x);
    ScaledTimes(b, j, x);
  }

  lemma RescaleDown(a: nat, i: int, b: nat, j: int, x: nat)
    requires Scaled(a, i) == Scaled(b, j)
    ensures Scaled(a, i - x) == Scaled(b, j - x)
  {
    hide Scaled, IPow10;
    ScaledTimes(a, i - x, x);
    ScaledTimes(b, j - x, x);
    CancelReal(Scaled(a, i - x), Scaled(b, j - x), IPow10(x) as real);
  }

  /** The exponent of the first digit of a number, and the one `parse_shortest_decimal` computes. */
  function TrueExponent(n: Number): int
    requires ValidNumber(n)
  {
    CoeffExponent(n.whole, n.frac) + ExponentVal(n.exp)
  }

  function ReadExponent(n: Number): int
    requires ValidNumber(n)
  {
    Wrap32(CoeffExponent(n.whole, n.frac) + ExponentRead(n.exp))
  }

  /** For coefficients below 2^31 characters the two agree exactly when the written exponent and the sum fit an i32. */
  lemma ExponentFits(n: Number)
    requires ValidNumber(n) && |n.whole| <= I32_MAX && |n.frac| <= I32_MAX
    ensures ReadExponent(n) == TrueExponent(n) <==> FitsI32(ExponentVal(n.exp)) && FitsI32(TrueExponent(n))
  {
    hide Wrap32, LeadingZeros, ExponentVal;
  }

  /**
   Taking apart any number of the grammar. The sign is kept; the digits and
   exponent denote the same magnitude exactly when the exponent of the first
   digit is computed without overflow (or the number is zero); they are in normal
   form exactly when the coefficient has a point or does not end in zero, and the
   number is not zero.
   */
  lemma ShortestDecimalValue(n: Number)
    requires ValidNumber(n)
    ensures var (neg, d, e) := ParseShortestDecimal(NumberText(n));
            && neg == n.neg && AllDigits(d) && d != "" && e == ReadExponent(n)
            && (Denotes(d, e) == Magnitude(n) <==> ReadExponent(n) == TrueExponent(n) || Magnitude(n) == 0.0)
            && (if Magnitude(n) > 0.0 then d[0] != '0' else d == "0")
            && (Normal(d) <==> Magnitude(n) > 0.0 && (n.frac != "" || n.whole[|n.whole| - 1] != '0'))
  {
    hide CoeffToDigits, ParseI32OrZero, DigitsVal, ParseUnsignedDecimal, ParseShortestDecimal, Normal, Wrap32,
         CoeffExponent;
    Es6Precise(n);
    CoeffToDigitsValue(n.whole, n.frac);
    var (d, e) := CoeffToDigits(n.whole + FracText(n.frac));
    var m := DigitsVal(n.whole + n.frac);
    var read, exact := ReadExponent(n), TrueExponent(n);
    ShiftDenotes(d, e, m, -|n.frac|, read - e);
    assert Denotes(d, read) == Scaled(m, read - e - |n.frac|);
    assert Magnitude(n) == Scaled(m, exact - e - |n.frac|);
    if Denotes(d, read) == Magnitude(n) {
      ScaledDrift(m, read - e - |n.frac|, exact - read);
    }
  }

  // -------------------------------------------------------- laying it out

  function IntText(e: int): string {
    if e < 0 then "-" + NatText(-e) else NatText(e)
  }

  function Head(digits: string): string { if digits == "" then "" else [digits[0]] }

  function Tail(digits: string): string { if |digits| > 1 then "." + digits[1..] else "" }

  function PlusText(e: int): string { if e >= 0 then "+" else "" }

  function Scientific(digits: string, e: int): string {
    Head(digits) + (Tail(digits) + ("e" + (PlusText(e) + IntText(e))))
  }

  function Plain(digits: string, e: nat): string {
    if e + 1 >= |digits| then digits + Zeros(e + 1 - |digits|)
    else digits[..e + 1] + ("." + digits[e + 1..])
  }

  function Fractional(digits: string, zeros: nat): string {
    "0." + (Zeros(zeros) + digits)
  }

  function Layout(digits: string, e: int): string {
    if !(-6 <= e < 21) then Scientific(digits, e)
    else if e >= 0 then Plain(digits, e)
    else Fractional(digits, -e - 1)
  }

  /** `es6_format`. */
  function Es6Format(neg: bool, digits: string, e: int): string {
    SignText(neg) + Layout(digits, e)
  }

  /** The digit strings and exponents that have a layout in the number grammar. */
  predicate LaidOut(d: string, e: int) {
    if d == "" then e == 0 || -6 <= e <= -2
    else d[0] != '0' || !(1 <= e < 21)
  }

  /** The number of the grammar that `es6_format` writes. */
  function Es6Syntax(neg: bool, d: string, e: int): Number
    requires AllDigits(d) && LaidOut(d, e)
  {
    if !(-6 <= e < 21) then
      Number(neg, [d[0]], d[1..],
             if e < 0 then Exponent('e', Minus, NatText(-e)) else Exponent('e', Plus, NatText(e)))
    else if e >= 0 then
      if e + 1 >= |d| then Number(neg, d + Zeros(e + 1 - |d|), "", NoExponent)
      else Number(neg, d[..e + 1], d[e + 1..], NoExponent)
    else
      Number(neg, "0", Zeros(-e - 1) + d, NoExponent)
  }

  lemma Es6SyntaxValid(neg: bool, d: string, e: int)
    requires AllDigits(d) && LaidOut(d, e)
    ensures ValidNumber(Es6Syntax(neg, d, e))
  {
    if d != "" && 0 <= e < 21 && e + 1 >= |d| {
      assert (d + Zeros(e + 1 - |d|))[0] == d[0];
    }
  }

  lemma Es6SyntaxText(neg: bool, d: string, e: int)
    requires AllDigits(d) && LaidOut(d, e)
    ensures NumberText(Es6Syntax(neg, d, e)) == Es6Format(neg, d, e)
  {
    hide NatText, Zeros;
    var n := Es6Syntax(neg, d, e);
    if !(-6 <= e < 21) {
      ScientificText(d, e);
    } else if e >= 0 {
      assert n.whole + (FracText(n.frac) + "") == Plain(d, e);
    } else {
      FractionalText(d, -e - 1);
    }
  }

  lemma ScientificText(d: string, e: int)
    requires d != ""
    ensures var x := if e < 0 then Exponent('e', Minus, NatText(-e)) else Exponent('e', Plus, NatText(e));
            [d[0]] + (FracText(d[1..]) + ExponentText(x)) == Scientific(d, e)
  {
    hide NatText;
    assert FracText(d[1..]) == Tail(d);
    if e < 0 {
      assert ExponentText(Exponent('e', Minus, NatText(-e))) == "e" + ("" + ("-" + NatText(-e)));
    }
  }

  lemma FractionalText(d: string, z: nat)
    requires d != "" || z > 0
    ensures "0" + (FracText(Zeros(z) + d) + "") == Fractional(d, z)
  {
  }

  lemma Es6SyntaxMagnitude(neg: bool, d: string, e: int)
    requires AllDigits(d) && LaidOut(d, e)
    ensures ValidNumber(Es6Syntax(neg, d, e)) && Magnitude(Es6Syntax(neg, d, e)) == Denotes(d, e)
  {
    hide Scaled, DigitsVal, NatText;
    Es6SyntaxValid(neg, d, e);
    var n := Es6Syntax(neg, d, e);
    if !(-6 <= e < 21) {
      assert n.whole + n.frac == d;
    } else if e >= 0 {
      if e + 1 >= |d| {
        var z := e + 1 - |d|;
        DigitsValZeros(d, z);
        ScaledShift(DigitsVal(d), 0, z);
        assert n.whole + n.frac == d + Zeros(z);
      } else {
        assert n.whole + n.frac == d;
      }
    } else {
      assert n.whole + n.frac == Zeros(-e) + d by { assert "0" + Zeros(-e - 1) == Zeros(-e); }
      DigitsValLeading(-e, d);
    }
  }

  /** The first characters of a number behind its sign, and its last one. */
  lemma NumberShape(n: Number)
    requires ValidNumber(n)
    ensures var t := n.whole + (FracText(n.frac) + ExponentText(n.exp));
            && t != "" && IsDigit(t[0]) && IsDigit(t[|t| - 1])
            && (t[0] == '0' && |t| > 1 ==> !IsDigit(t[1]))
  {
    hide DigitsVal;
    var x := FracText(n.frac) + ExponentText(n.exp);
    var t := n.whole + x;
    assert t[0] == n.whole[0];
    if x != "" {
      assert t[|n.whole|] == x[0];
      assert t[|t| - 1] == x[|x| - 1];
    }
  }

  /** The sign and the rest of a number text are determined by it. */
  lemma SignDetermined(neg: bool, t: string, n: Number)
    requires ValidNumber(n) && NumberText(n) == SignText(neg) + t && (t != "" ==> t[0] != '-')
    ensures n.neg == neg && n.whole + (FracText(n.frac) + ExponentText(n.exp)) == t
  {
    var u := n.whole + (FracText(n.frac) + ExponentText(n.exp));
    assert u[0] == n.whole[0];
    var s := NumberText(n);
    if n.neg { assert s[0] == '-' && s[1..] == u; } else { assert s == u; }
    if neg { assert s[0] == '-' && s[1..] == t; } else { assert s == t; }
  }

  /** Outside `LaidOut` the layout starts or ends as no number does. */
  lemma BadLayout(d: string, e: int)
    requires AllDigits(d) && !LaidOut(d, e)
    ensures var t := Layout(d, e);
            && t != "" && t[0] != '-'
            && (!IsDigit(t[0]) || !IsDigit(t[|t| - 1]) || (t[0] == '0' && |t| > 1 && IsDigit(t[1])))
  {
    hide NatText;
    var t := Layout(d, e);
    if !(-6 <= e < 21) {
      assert t[0] == 'e';
    } else if e >= 0 {
      assert |d| == 0 || d[0] == '0';
      if e + 1 >= |d| {
        assert t == d + Zeros(e + 1 - |d|);
      } else {
        assert t[0] == d[0] && t[1] == d[1];
      }
    } else {
      assert d == "" && e == -1 && t == "0.";
    }
  }

  /**
   `es6_format` on every sign, digit string and exponent. The text is a number of
   the JSON grammar exactly when the digits do not start with a zero in front of
   other integer digits (and are not missing where one is needed); then it has
   the given sign and denotes exactly the digits and exponent.
   */
  lemma Es6FormatDenotes(neg: bool, d: string, e: int)
    requires AllDigits(d)
    ensures (exists n :: ValidNumber(n) && NumberText(n) == Es6Format(neg, d, e)) <==> LaidOut(d, e)
    ensures LaidOut(d, e) ==>
              var n := Es6Syntax(neg, d, e);
              ValidNumber(n) && n.neg == neg && NumberText(n) == Es6Format(neg, d, e) && Magnitude(n) == Denotes(d, e)
  {
    hide Layout, ValidNumber, NumberText, Denotes, Magnitude;
    if LaidOut(d, e) {
      Es6SyntaxText(neg, d, e);
      Es6SyntaxMagnitude(neg, d, e);
    } else {
      BadLayout(d, e);
      forall n | ValidNumber(n) ensures NumberText(n) != Es6Format(neg, d, e) {
        if NumberText(n) == Es6Format(neg, d, e) {
          SignDetermined(neg, Layout(d, e), n);
          NumberShape(n);
        }
      }
    }
  }

  lemma MagnitudeSign(m: Number)
    requires ValidNumber(m)
    ensures Magnitude(m) >= 0.0
  {
  }

  /**
   The layout ECMAScript prescribes for a nonzero number whose first digit has exponent `e`: an exponent, written
   with its sign behind one integer digit, exactly when `e` is below -6 or at least 21.
   */
  predicate Es6Shape(n: Number)
    requires ValidNumber(n)
  {
    var e := TrueExponent(n);
    if -6 <= e < 21 then n.exp.NoExponent?
    else
      && |n.whole| == 1 && n.whole[0] != '0' && n.exp.Exponent? && n.exp.marker == 'e'
      && n.exp.sign == (if e < 0 then Minus else Plus) && n.exp.digits[0] != '0' && ExponentVal(n.exp) == e
  }

  /** `es6_format` gives digits that do not start with zero that layout, with `e` as the exponent of the first one. */
  lemma Es6SyntaxShape(neg: bool, d: string, e: int)
    requires AllDigits(d) && d != "" && d[0] != '0'
    ensures var n := Es6Syntax(neg, d, e); ValidNumber(n) && TrueExponent(n) == e && Es6Shape(n)
    ensures Normal(d) ==> var f := Es6Syntax(neg, d, e).frac; f == "" || f[|f| - 1] != '0'
  {
    hide DigitsVal, NatText, Es6Syntax, ValidNumber, Es6Shape, TrueExponent;
    Es6SyntaxValid(neg, d, e);
    if !(-6 <= e < 21) {
      ScientificShape(neg, d, e);
    } else if e < 0 {
      FractionShape(neg, d, e);
    } else {
      PlainShape(neg, d, e);
    }
  }

  lemma ScientificShape(neg: bool, d: string, e: int)
    requires AllDigits(d) && d != "" && d[0] != '0' && !(-6 <= e < 21) && ValidNumber(Es6Syntax(neg, d, e))
    ensures var n := Es6Syntax(neg, d, e); TrueExponent(n) == e && Es6Shape(n)
    ensures Normal(d) ==> var f := Es6Syntax(neg, d, e).frac; f == "" || f[|f| - 1] != '0'
  {
    hide DigitsVal, NatText, LeadingZeros;
  }

  lemma PlainShape(neg: bool, d: string, e: int)
    requires AllDigits(d) && d != "" && d[0] != '0' && 0 <= e < 21 && ValidNumber(Es6Syntax(neg, d, e))
    ensures var n := Es6Syntax(neg, d, e); TrueExponent(n) == e && Es6Shape(n)
    ensures Normal(d) ==> var f := Es6Syntax(neg, d, e).frac; f == "" || f[|f| - 1] != '0'
  {
    hide DigitsVal, NatText, LeadingZeros;
    assert Es6Syntax(neg, d, e).whole[0] == d[0];
  }

  lemma FractionShape(neg: bool, d: string, e: int)
    requires AllDigits(d) && d != "" && d[0] != '0' && -6 <= e < 0 && ValidNumber(Es6Syntax(neg, d, e))
    ensures var n := Es6Syntax(neg, d, e); TrueExponent(n) == e && Es6Shape(n)
    ensures Normal(d) ==> var f := Es6Syntax(neg, d, e).frac; f == "" || f[|f| - 1] != '0'
  {
    hide DigitsVal, NatText, IndexOf;
    var f := Zeros(-e - 1) + d;
    assert f[-e - 1] == d[0] && forall i :: 0 <= i < -e - 1 ==> f[i] == '0';
    LeadingZerosOf(f, -e - 1);
  }

  lemma LeadingZerosOf(f: string, k: nat)
    requires k < |f| && f[k] != '0' && forall i :: 0 <= i < k ==> f[i] == '0'
    ensures LeadingZeros(f) == k
  {
    hide LeadingZeros;
    var z := LeadingZeros(f);
    assert forall i :: 0 <= i < z ==> f[i] == f[..z][i];
  }

  /** The text of a number of the grammar taken apart and laid out again. */
  function Reformatted(n: Number): string {
    var (neg, d, e) := ParseShortestDecimal(NumberText(n));
    Es6Format(neg, d, e)
  }

  /**
   Taking a number of the grammar apart and laying it out again keeps its sign
   and value, as a number of the grammar, exactly when the exponent of its first
   digit is computed without overflow (for a zero: when the computed exponent is
   not one that is padded with zeros).
   */
  lemma ReformatKeeps(n: Number)
    requires ValidNumber(n)
    ensures (exists m :: Keeps(n, m)) <==>
            if Magnitude(n) > 0.0 then ReadExponent(n) == TrueExponent(n) else !(1 <= ReadExponent(n) < 21)
  {
    hide Es6Format, Es6Syntax, ParseShortestDecimal, Denotes, Magnitude, NumberText, ValidNumber, ReadExponent,
         TrueExponent;
    var (neg, d, e) := ParseShortestDecimal(NumberText(n));
    ShortestDecimalValue(n);
    MagnitudeSign(n);
    Es6FormatDenotes(neg, d, e);
    if LaidOut(d, e) {
      var k := Es6Syntax(neg, d, e);
      forall m | ValidNumber(m) && NumberText(m) == Reformatted(n) ensures m == k { NumberTextInjective(m, k); }
      assert Magnitude(k) == Magnitude(n) ==> Keeps(n, k);
    }
  }

  /** The reformatted text is the number `m`, of the same sign and value. */
  ghost predicate Keeps(n: Number, m: Number)
    requires ValidNumber(n)
  {
    ValidNumber(m) && NumberText(m) == Reformatted(n) && m.neg == n.neg && Magnitude(m) == Magnitude(n)
  }

  /** The zero `0e5` comes out as `000000`, which is not a number of the grammar. */
  lemma ZeroPadded()
    ensures var n := Number(false, "0", "", Exponent('e', Unsigned, "5"));
            ValidNumber(n) && Reformatted(n) == "000000" && !exists m :: ValidNumber(m) && NumberText(m) == "000000"
  {
    hide ParseShortestDecimal, CoeffToDigits;
    var n := Number(false, "0", "", Exponent('e', Unsigned, "5"));
    assert DigitsVal("5") == 5 by { assert "5"[..0] == ""; }
    ZeroDigit();
    assert n.whole + n.frac == "0";
    ShortestDecimalValue(n);
    assert ParseShortestDecimal(NumberText(n)) == (false, "0", 5);
    assert Zeros(5) == "00000";
    assert Es6Format(false, "0", 5) == "000000";
    Es6FormatDenotes(false, "0", 5);
  }

  lemma MaxDigits()
    ensures AllDigits("2147483647") && DigitsVal("2147483647") == I32_MAX
  {
    var s := "2147483647";
    assert s[..1] == "2" && s[..1][..0] == "";
    forall k: nat | 0 < k < 10 ensures s[..k + 1][..k] == s[..k] {}
    assert DigitsVal(s[..1]) == 2;
    assert DigitsVal(s[..2]) == 21;
    assert DigitsVal(s[..3]) == 214;
    assert DigitsVal(s[..4]) == 2147;
    assert DigitsVal(s[..5]) == 21474;
    assert DigitsVal(s[..6]) == 214748;
    assert DigitsVal(s[..7]) == 2147483;
    assert DigitsVal(s[..8]) == 21474836;
    assert DigitsVal(s[..9]) == 214748364;
    assert s[..10] == s;
  }

  /** `12e2147483647`: the written exponent fits an i32, that of the first digit does not, and the value is lost. */
  lemma ExponentOverflows()
    ensures var n := Number(false, "12", "", Exponent('e', Unsigned, "2147483647"));
            && ValidNumber(n) && FitsI32(ExponentVal(n.exp)) && ReadExponent(n) == I32_MIN
            && !exists m :: Keeps(n, m)
  {
    hide DigitsVal, Keeps;
    var n := Number(false, "12", "", Exponent('e', Unsigned, "2147483647"));
    MaxDigits();
    assert ReadExponent(n) == I32_MIN && TrueExponent(n) == I32_MAX + 1;
    TwelvePositive();
    assert n.whole + n.frac == "12";
    ReformatKeeps(n);
  }

  lemma TwelvePositive()
    ensures AllDigits("12") && DigitsVal("12") > 0
  {
    NoLeadingZeroPositive("12");
  }

  /** Two different normal decimals never share a layout, whichever of the four branches writes them. */
  lemma Es6FormatInjective(neg: bool, d: string, e: int, neg': bool, d': string, e': int)
    requires Normal(d) && Normal(d')
    requires Es6Format(neg, d, e) == Es6Format(neg', d', e')
    ensures neg == neg' && d == d' && e == e'
  {
    hide Scaled, DigitsVal, Es6Format, Es6Syntax, Layout, NumberText, ValidNumber, Magnitude;
    Es6FormatDenotes(neg, d, e);
    Es6FormatDenotes(neg', d', e');
    NumberTextInjective(Es6Syntax(neg, d, e), Es6Syntax(neg', d', e'));
    NormalFormUnique(d, e - |d| + 1, d', e' - |d'| + 1);
  }

  /** `es6_format` as written: pushes onto an output buffer, zeros one at a time. */
  method WriteEs6(neg: bool, digits: string, e: int) returns (out: string)
    ensures out == Es6Format(neg, digits, e)
  {
    hide NatText, IntText, Plain, Scientific, Zeros;
    out := "";
    if neg { out := out + "-"; }
    ghost var start := out;
    if !(-6 <= e < 21) {
      out := PushScientific(out, digits, e);
      return;
    }
    if e >= 0 {
      out := PushPlain(out, digits, e + 1);
      return;
    }
    out := out + "0.";
    out := PushZeros(out, -e - 1);
    out := out + digits;
    GatherDigits(start, "0.", Zeros(-e - 1), digits);
  }

  lemma GatherDigits(a: string, b: string, c: string, d: string)
    ensures ((a + b) + c) + d == a + (b + (c + d))
  {
  }

  method PushPlain(out: string, digits: string, intDigits: nat) returns (out': string)
    requires intDigits > 0
    ensures out' == out + Plain(digits, intDigits - 1)
  {
    var k := |digits|;
    if intDigits >= k {
      out' := out + digits;
      out' := PushZeros(out', intDigits - k);
    } else {
      out' := out + digits[..intDigits];
      out' := out' + ".";
      out' := out' + digits[intDigits..];
    }
  }

  method PushScientific(out: string, digits: string, e: int) returns (out': string)
    ensures out' == out + Scientific(digits, e)
  {
    hide NatText, IntText;
    out' := out;
    if |digits| > 0 { out' := out' + [digits[0]]; }
    if |digits| > 1 { out' := out' + ("." + digits[1..]); }
    assert out' == (out + Head(digits)) + Tail(digits);
    out' := out' + "e";
    if e >= 0 { out' := out' + "+"; }
    assert out' == (((out + Head(digits)) + Tail(digits)) + "e") + PlusText(e);
    out' := out' + IntText(e);
    Assoc(out, Head(digits), Tail(digits), "e", PlusText(e), IntText(e));
  }

  method PushZeros(out: string, n: nat) returns (out': string)
    ensures out' == out + Zeros(n)
  {
    out' := out;
    for i := 0 to n
      invariant out' == out + Zeros(i)
    {
      out' := out' + "0";
      assert Zeros(i + 1) == Zeros(i) + "0";
    }
  }

  lemma Assoc(a: string, b: string, c: string, d: string, e: string, f: string)
    ensures ((((a + b) + c) + d) + e) + f == a + (b + (c + (d + (e + f))))
  {
  }
}
