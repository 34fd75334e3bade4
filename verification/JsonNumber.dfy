/**
 The JSON number grammar (RFC 8259 section 6) as syntax trees, what a number
 denotes, and the lexer of `Parser::parse_number`.
 */
module JsonNumber {
  import opened Wrappers
  import opened Decimal
  import opened JsonError

  datatype ExponentSign = Unsigned | Plus | Minus

  datatype Exponent = NoExponent | Exponent(marker: char, sign: ExponentSign, digits: string)

  /** `frac == ""` stands for a number without a fraction part. */
  datatype Number = Number(neg: bool, whole: string, frac: string, exp: Exponent)

  predicate ValidExponent(x: Exponent) {
    x.Exponent? ==>
      && (x.marker == 'e' || x.marker == 'E')
      && AllDigits(x.digits) && x.digits != ""
  }

  predicate ValidWhole(w: string) {
    AllDigits(w) && w != "" && (w[0] == '0' ==> |w| == 1)
  }

  predicate ValidNumber(n: Number) {
    ValidWhole(n.whole) && AllDigits(n.frac) && ValidExponent(n.exp)
  }

  function ExponentSignText(sign: ExponentSign): string {
    match sign
    case Unsigned => ""
    case Plus => "+"
    case Minus => "-"
  }

  function ExponentText(x: Exponent): string {
    match x
    case NoExponent => ""
    case Exponent(m, sign, digits) => [m] + (ExponentSignText(sign) + digits)
  }

  function FracText(frac: string): string {
    if frac == "" then "" else "." + frac
  }

  function SignText(neg: bool): string {
    if neg then "-" else ""
  }

  function NumberText(n: Number): string {
    SignText(n.neg) + (n.whole + (FracText(n.frac) + ExponentText(n.exp)))
  }

  function ExponentVal(x: Exponent): int
    requires ValidExponent(x)
  {
    match x
    case NoExponent => 0
    case Exponent(_, sign, digits) => if sign.Minus? then 0 - DigitsVal(digits) else DigitsVal(digits)
  }

  /** The absolute value a number denotes. */
  ghost function Magnitude(n: Number): real
    requires ValidNumber(n)
  {
    Scaled(DigitsVal(n.whole + n.frac), ExponentVal(n.exp) - |n.frac|)
  }

  // ---------------------------------------------------------------- lexing

  function SpanDigits(r: string): (k: nat)
    ensures k <= |r| && AllDigits(r[..k]) && (k < |r| ==> !IsDigit(r[k]))
  {
    IndexOf(r, c => !IsDigit(c))
  }

  predicate DigitAhead(r: string) { r != "" && IsDigit(r[0]) }

  function LexWhole(r: string): (res: Result<(string, string), JsonError>) {
    if r != "" && r[0] == '0' then
      if DigitAhead(r[1..]) then Err(Rejected("leading zeros are not allowed")) else Ok(("0", r[1..]))
    else if DigitAhead(r) then
      Ok((r[..SpanDigits(r)], r[SpanDigits(r)..]))
    else
      Err(Rejected("invalid number"))
  }

  function LexFrac(r: string): (res: Result<(string, string), JsonError>) {
    if r != "" && r[0] == '.' then
      if !DigitAhead(r[1..]) then Err(Rejected("invalid number fraction"))
      else
        var t := r[1..];
        Ok((t[..SpanDigits(t)], t[SpanDigits(t)..]))
    else
      Ok(("", r))
  }

  function LexExpSign(r: string): (ExponentSign, string) {
    if r == "" then (Unsigned, r)
    else if r[0] == '+' then (Plus, r[1..])
    else if r[0] == '-' then (Minus, r[1..])
    else (Unsigned, r)
  }

  function LexExp(r: string): (res: Result<(Exponent, string), JsonError>) {
    if r != "" && (r[0] == 'e' || r[0] == 'E') then
      var (sign, t) := LexExpSign(r[1..]);
      if !DigitAhead(t) then Err(Rejected("invalid number exponent"))
      else Ok((Exponent(r[0], sign, t[..SpanDigits(t)]), t[SpanDigits(t)..]))
    else
      Ok((NoExponent, r))
  }

  function LexUnsigned(neg: bool, r: string): (res: Result<(Number, string), JsonError>) {
    var whole :- LexWhole(r);
    var frac :- LexFrac(whole.1);
    var exp :- LexExp(frac.1);
    Ok((Number(neg, whole.0, frac.0, exp.0), exp.1))
  }

  /** `Parser::parse_number` up to the conversion: the number in front of `r` and what follows it. */
  function LexNumber(r: string): (res: Result<(Number, string), JsonError>) {
    if r != "" && r[0] == '-' then LexUnsigned(true, r[1..]) else LexUnsigned(false, r)
  }

  /** A character that would extend a number lexeme. */
  predicate Continues(t: string) {
    t != "" && (IsDigit(t[0]) || t[0] == '.' || t[0] == 'e' || t[0] == 'E')
  }

  lemma SpanAppend(d: string, t: string)
    requires AllDigits(d) && !DigitAhead(t)
    ensures SpanDigits(d + t) == |d|
  {
    var s := d + t;
    assert forall i :: 0 <= i < |d| ==> s[i] == d[i];
    assert t != "" ==> s[|d|] == t[0];
    assert forall i :: 0 <= i < SpanDigits(s) ==> IsDigit(s[..SpanDigits(s)][i]);
  }

  lemma LexWholeComplete(w: string, t: string)
    requires ValidWhole(w) && !DigitAhead(t)
    ensures LexWhole(w + t) == Ok((w, t))
  {
    var s := w + t;
    assert s[0] == w[0];
    if w[0] == '0' {
      assert w == "0" && s[1..] == t;
    } else {
      SpanAppend(w, t);
      assert s[|w|..] == t && s[..|w|] == w;
    }
  }

  lemma LexFracComplete(f: string, t: string)
    requires AllDigits(f) && !DigitAhead(t) && (t != "" ==> t[0] != '.')
    ensures LexFrac(FracText(f) + t) == Ok((f, t))
  {
    if f == "" {
      assert FracText(f) + t == t;
    } else {
      var s := FracText(f) + t;
      assert s[1..] == f + t;
      SpanAppend(f, t);
      assert (f + t)[|f|..] == t && (f + t)[..|f|] == f;
    }
  }

  lemma LexExpSignComplete(sign: ExponentSign, d: string)
    requires DigitAhead(d)
    ensures LexExpSign(ExponentSignText(sign) + d) == (sign, d)
  {
    var s := ExponentSignText(sign) + d;
    match sign
    case Unsigned => assert s == d;
    case Plus => assert s[0] == '+' && s[1..] == d;
    case Minus => assert s[0] == '-' && s[1..] == d;
  }

  lemma {:induction false} LexExpComplete(x: Exponent, t: string)
    requires ValidExponent(x) && !Continues(t)
    ensures LexExp(ExponentText(x) + t) == Ok((x, t))
  {
    if x == NoExponent {
      assert ExponentText(x) + t == t;
    } else {
      hide LexExpSign, SpanDigits, ExponentSignText;
      var d := x.digits;
      ExponentFront(x.marker, ExponentSignText(x.sign), d, t);
      Halves(d, t);
      SpanAppend(d, t);
      LexExpSignComplete(x.sign, d + t);
      hide AllDigits, IsDigit, Continues;
    }
  }

  lemma ExponentFront(marker: char, sign: string, d: string, t: string)
    ensures var s := ([marker] + (sign + d)) + t;
            s != "" && s[0] == marker && s[1..] == sign + (d + t)
  {
  }

  lemma Halves(d: string, t: string)
    ensures (d + t)[|d|..] == t && (d + t)[..|d|] == d && (d != "" ==> (d + t)[0] == d[0])
  {
  }

  /** The lexer reads back exactly the number that was written. */
  lemma LexNumberComplete(n: Number, t: string)
    requires ValidNumber(n) && !Continues(t)
    ensures LexNumber(NumberText(n) + t) == Ok((n, t))
  {
    var e := ExponentText(n.exp) + t;
    var f := FracText(n.frac) + e;
    LexWholeComplete(n.whole, f);
    LexFracComplete(n.frac, e);
    LexExpComplete(n.exp, t);
    Regroup(SignText(n.neg), n.whole, FracText(n.frac), ExponentText(n.exp), t);
    SignComplete(n.neg, n.whole + f);
  }

  lemma SignComplete(neg: bool, r: string)
    requires DigitAhead(r)
    ensures LexNumber(SignText(neg) + r) == LexUnsigned(neg, r)
  {
    var s := SignText(neg) + r;
    if neg {
      assert s[0] == '-' && s[1..] == r;
    } else {
      assert s == r;
    }
  }

  lemma LexWholeSound(r: string)
    requires LexWhole(r).Ok?
    ensures var (w, t) := LexWhole(r).value; ValidWhole(w) && r == w + t
  {
  }

  lemma LexFracSound(r: string)
    requires LexFrac(r).Ok?
    ensures var (f, t) := LexFrac(r).value; AllDigits(f) && r == FracText(f) + t
  {
    hide SpanDigits;
    if r != "" && r[0] == '.' {
      var u := r[1..];
      var k := SpanDigits(u);
      assert k > 0;
      assert r == ("." + u[..k]) + u[k..];
    }
  }

  lemma {:induction false} LexExpSound(r: string)
    requires LexExp(r).Ok?
    ensures var (x, t) := LexExp(r).value; ValidExponent(x) && r == ExponentText(x) + t
  {
    hide LexExpSign, SpanDigits, ExponentSignText;
    if r != "" && (r[0] == 'e' || r[0] == 'E') {
      var (sign, t) := LexExpSign(r[1..]);
      LexExpSignSound(r[1..]);
      var d, u := t[..SpanDigits(t)], t[SpanDigits(t)..];
      assert t == d + u && d != "";
      ExponentPieces(r, ExponentSignText(sign), d, u);
    }
  }

  lemma ExponentPieces(r: string, sign: string, d: string, u: string)
    requires r != "" && r[1..] == sign + (d + u)
    ensures r == ([r[0]] + (sign + d)) + u
  {
    assert r == [r[0]] + r[1..];
  }

  lemma LexExpSignSound(r: string)
    ensures r == ExponentSignText(LexExpSign(r).0) + LexExpSign(r).1
  {
  }

  /** What the lexer accepts is a number of the grammar, followed by the rest it reports. */
  lemma LexNumberSound(r: string)
    requires LexNumber(r).Ok?
    ensures var (n, t) := LexNumber(r).value; ValidNumber(n) && r == NumberText(n) + t
  {
    hide LexWhole, LexFrac, LexExp, ValidWhole, ValidExponent, FracText, ExponentText;
    var (n, t) := LexNumber(r).value;
    var r1 := if n.neg then r[1..] else r;
    assert r == SignText(n.neg) + r1;
    LexWholeSound(r1);
    var r2 := LexWhole(r1).value.1;
    LexFracSound(r2);
    var r3 := LexFrac(r2).value.1;
    LexExpSound(r3);
    Regroup(SignText(n.neg), n.whole, FracText(n.frac), ExponentText(n.exp), t);
  }

  lemma Regroup(a: string, b: string, c: string, d: string, t: string)
    ensures a + (b + (c + (d + t))) == (a + (b + (c + d))) + t
  {
  }

  lemma NumberTextInjective(a: Number, b: Number)
    requires ValidNumber(a) && ValidNumber(b) && NumberText(a) == NumberText(b)
    ensures a == b
  {
    LexNumberComplete(a, "");
    LexNumberComplete(b, "");
    assert NumberText(a) + "" == NumberText(b) + "";
  }
}
