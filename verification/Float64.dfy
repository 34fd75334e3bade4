/**
 Binary64 conversion, kept abstract: `parse` stands for `str::parse::<f64>`
 and `ryu` for `ryu::Buffer::format_finite`.
 */
module Float64 {
  import opened Wrappers
  import opened Decimal
  import opened JsonNumber
  import opened Es6Number

  datatype Double = NaN | Infinite(neg: bool) | Zero(neg: bool) | Nonzero(bits: int)

  datatype Conversion = Conversion(parse: string -> Option<Double>, ryu: int -> string)

  /** `ryu` prints numbers of the grammar; the written exponent and that of the first digit fit an i32. */
  ghost predicate RyuLayout(m: Number) {
    ValidNumber(m) && FitsI32(ExponentVal(m.exp)) && FitsI32(TrueExponent(m))
  }

  /** The decimal ryu prints for `bits` reads back as `bits`. */
  ghost predicate PrintsBack(fp: Conversion, bits: int) {
    exists m :: RyuLayout(m) && NumberText(m) == fp.ryu(bits) && fp.parse(NumberText(m)) == Some(Nonzero(bits))
  }

  /** What the canonicalizer relies on of the conversions it calls. */
  ghost predicate Faithful(fp: Conversion) {
    // the double depends only on the sign and the rational the lexeme denotes
    && (forall a, b ::
          ValidNumber(a) && ValidNumber(b) && a.neg == b.neg && Magnitude(a) == Magnitude(b) ==>
            fp.parse(NumberText(a)) == fp.parse(NumberText(b)))
    // zero is the only rational written as zero
    && (forall a :: ValidNumber(a) && Magnitude(a) == 0.0 ==> fp.parse(NumberText(a)) == Some(Zero(a.neg)))
    // the shortest decimal of a double parses back to that double
    && (forall a, bits ::
          ValidNumber(a) && fp.parse(NumberText(a)) == Some(Nonzero(bits)) ==> PrintsBack(fp, bits))
  }

  /** `number_from_f64` for a finite double. */
  function DoubleText(fp: Conversion, d: Double): string
    requires d.Zero? || d.Nonzero?
  {
    match d
    case Zero(_) => "0"
    case Nonzero(bits) =>
      var (neg, digits, e) := ParseShortestDecimal(fp.ryu(bits));
      Es6Format(neg, digits, e)
  }

  /** A double some number lexeme is read as. */
  ghost predicate Readable(fp: Conversion, d: Double) {
    d.Zero? || (d.Nonzero? && exists a :: ValidNumber(a) && fp.parse(NumberText(a)) == Some(d))
  }

  /** Two readings that differ at most in the sign of zero. */
  function MergeZero(d: Double): Double {
    if d.Zero? then Zero(false) else d
  }

  function ZeroNumber(): Number { Number(false, "0", "", NoExponent) }

  /** The canonical text of a double is a number lexeme that is read as the same double. */
  lemma DoubleTextReadsBack(fp: Conversion, d: Double) returns (n: Number)
    requires Faithful(fp) && Readable(fp, d)
    ensures ValidNumber(n) && NumberText(n) == DoubleText(fp, d)
    ensures fp.parse(DoubleText(fp, d)) == Some(MergeZero(d))
    ensures NumberText(n) == "0" || Es6Shape(n)
  {
    hide DigitsVal, ParseShortestDecimal, Es6Format, Es6Syntax, Scaled, Es6Shape;
    match d
    case Zero(_) =>
      n := ZeroNumber();
      ZeroNumberValue();
    case Nonzero(bits) =>
      assert PrintsBack(fp, bits);
      var m :| RyuLayout(m) && NumberText(m) == fp.ryu(bits) && fp.parse(NumberText(m)) == Some(Nonzero(bits));
      assert Magnitude(m) != 0.0;
      ShortestDecimalValue(m);
      var (neg, digits, e) := ParseShortestDecimal(fp.ryu(bits));
      MagnitudeSign(m);
      Es6FormatDenotes(neg, digits, e);
      Es6SyntaxShape(neg, digits, e);
      n := Es6Syntax(neg, digits, e);
  }

  lemma ZeroNumberValue()
    ensures ValidNumber(ZeroNumber()) && NumberText(ZeroNumber()) == "0" && Magnitude(ZeroNumber()) == 0.0
  {
    assert "0" + "" == "0";
    ZeroDigit();
  }

  // ------------------------------------------------- the assumption can be met

  /** Reads the grammar's numbers into the doubles 0, 1 and -1; everything else overflows. */
  ghost function UnitParse(s: string): Option<Double> {
    match LexNumber(s)
    case Err(_) => None
    case Ok((n, rest)) =>
      if rest != "" || !ValidNumber(n) then None
      else if Magnitude(n) == 0.0 then Some(Zero(n.neg))
      else if Magnitude(n) == 1.0 then Some(Nonzero(if n.neg then -1 else 1))
      else Some(Infinite(n.neg))
  }

  function UnitNumber(neg: bool): Number { Number(neg, "1", "0", NoExponent) }

  function UnitRyu(bits: int): string { NumberText(UnitNumber(bits < 0)) }

  lemma UnitParseOf(n: Number)
    requires ValidNumber(n)
    ensures UnitParse(NumberText(n)) ==
            if Magnitude(n) == 0.0 then Some(Zero(n.neg))
            else if Magnitude(n) == 1.0 then Some(Nonzero(if n.neg then -1 else 1))
            else Some(Infinite(n.neg))
  {
    hide Magnitude, NumberText, ValidNumber, LexNumber;
    LexNumberComplete(n, "");
    assert NumberText(n) + "" == NumberText(n);
  }

  lemma UnitMagnitude(neg: bool)
    ensures RyuLayout(UnitNumber(neg)) && Magnitude(UnitNumber(neg)) == 1.0
  {
    var s := "1" + "0";
    assert s[..1] == "1" && s[1] == '0' && "1"[..0] == "";
    assert DigitsVal("1") == 1;
    assert DigitsVal(s) == 10;
    Pow10Step(-1);
    assert Pow10(0) == 1.0;
  }

  /** A conversion with nonzero doubles of both signs that is faithful. */
  lemma FaithfulExists()
    ensures Faithful(Conversion(UnitParse, UnitRyu))
    ensures UnitParse(UnitRyu(1)) == Some(Nonzero(1)) && UnitParse(UnitRyu(-1)) == Some(Nonzero(-1))
  {
    hide Magnitude, NumberText, ValidNumber, UnitParse, UnitNumber;
    var fp := Conversion(UnitParse, UnitRyu);
    UnitMagnitude(false);
    UnitMagnitude(true);
    UnitNumberSign();
    UnitParseOf(UnitNumber(false));
    UnitParseOf(UnitNumber(true));
    forall a | ValidNumber(a)
      ensures fp.parse(NumberText(a)) ==
              if Magnitude(a) == 0.0 then Some(Zero(a.neg))
              else if Magnitude(a) == 1.0 then Some(Nonzero(if a.neg then -1 else 1))
              else Some(Infinite(a.neg))
    {
      UnitParseOf(a);
    }
    assert PrintsBack(fp, 1) && PrintsBack(fp, -1);
  }

  lemma UnitNumberSign()
    ensures !UnitNumber(false).neg && UnitNumber(true).neg
  {
  }
}
