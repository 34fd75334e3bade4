/** Decimal digit strings and the real numbers they denote. */
module Decimal {

  predicate IsDigit(c: char) { '0' <= c <= '9' }

  predicate AllDigits(s: string) { forall i :: 0 <= i < |s| ==> IsDigit(s[i]) }

  function DigitVal(c: char): nat
    requires IsDigit(c)
  {
    c as int - '0' as int
  }

  function DigitChar(d: nat): (c: char)
    requires d < 10
    ensures IsDigit(c) && DigitVal(c) == d
  {
    ('0' as int + d) as char
  }

  /** The natural number a big-endian digit string denotes. */
  function DigitsVal(s: string): nat
    requires AllDigits(s)
  {
    if s == "" then 0 else 10 * DigitsVal(s[..|s| - 1]) + DigitVal(s[|s| - 1])
  }

  function Zeros(n: nat): (s: string)
    ensures |s| == n && AllDigits(s) && forall i :: 0 <= i < n ==> s[i] == '0'
  {
    seq(n, _ => '0')
  }

  function IPow10(n: nat): (r: nat)
    ensures r >= 1
  {
    if n == 0 then 1 else 10 * IPow10(n - 1)
  }

  ghost function Pow10(k: int): (r: real)
    ensures r > 0.0
    decreases if k < 0 then -k else k
  {
    if k == 0 then 1.0 else if k > 0 then 10.0 * Pow10(k - 1) else Pow10(k + 1) / 10.0
  }

  lemma Pow10Step(k: int)
    ensures Pow10(k + 1) == 10.0 * Pow10(k)
  {
    if k < 0 {
      assert Pow10(k) == Pow10(k + 1) / 10.0;
    }
  }

  lemma {:induction false} Pow10Add(k: int, n: nat)
    ensures Pow10(k + n) == (IPow10(n) as real) * Pow10(k)
  {
    if n > 0 {
      Pow10Add(k, n - 1);
      Pow10Step(k + n - 1);
      TenfoldReal(IPow10(n - 1), IPow10(n), Pow10(k));
    }
  }

  lemma TenfoldReal(p: nat, q: nat, x: real)
    requires q == 10 * p
    ensures (q as real) * x == 10.0 * ((p as real) * x)
  {
    assert q as real == 10.0 * (p as real);
  }

  lemma Tenfold(a: nat, p: nat, q: nat)
    requires q == 10 * p
    ensures a * q == 10 * (a * p)
  {
  }

  /** Appending `n` zeros multiplies by `10^n`. */
  lemma {:induction false} DigitsValZeros(s: string, n: nat)
    requires AllDigits(s)
    ensures AllDigits(s + Zeros(n)) && DigitsVal(s + Zeros(n)) == DigitsVal(s) * IPow10(n)
  {
    if n == 0 {
      assert s + Zeros(0) == s;
    } else {
      var t := s + Zeros(n);
      assert t[..|t| - 1] == s + Zeros(n - 1);
      DigitsValZeros(s, n - 1);
      Tenfold(DigitsVal(s), IPow10(n - 1), IPow10(n));
    }
  }

  /** Leading zeros do not change the value. */
  lemma {:induction false} DigitsValLeading(n: nat, s: string)
    requires AllDigits(s)
    ensures AllDigits(Zeros(n) + s) && DigitsVal(Zeros(n) + s) == DigitsVal(s)
  {
    var t := Zeros(n) + s;
    if s == "" {
      assert t == "" + Zeros(n);
      DigitsValZeros("", n);
    } else {
      assert t[..|t| - 1] == Zeros(n) + s[..|s| - 1];
      DigitsValLeading(n, s[..|s| - 1]);
    }
  }

  /** `m * 10^k` as a real. */
  ghost function Scaled(m: nat, k: int): (r: real)
    ensures m > 0 ==> r > 0.0
    ensures m == 0 ==> r == 0.0
  {
    (m as real) * Pow10(k)
  }

  /** Moving `n` trailing zeros of the mantissa into the exponent. */
  lemma ScaledShift(m: nat, k: int, n: nat)
    ensures Scaled(m * IPow10(n), k) == Scaled(m, k + n)
  {
    hide Pow10, IPow10;
    Pow10Add(k, n);
    ShiftArith(m, IPow10(n), Pow10(k), Pow10(k + n));
  }

  lemma ShiftArith(a: nat, b: nat, p: real, q: real)
    requires q == (b as real) * p
    ensures ((a * b) as real) * p == (a as real) * q
  {
    var x, y := a as real, b as real;
    assert (a * b) as real == x * y;
    assert (x * y) * p == x * (y * p);
  }

  /** A digit string in the form the number formatter works on. */
  predicate Normal(s: string) {
    AllDigits(s) && s != "" && s[0] != '0' && s[|s| - 1] != '0'
  }

  lemma {:induction false} NoLeadingZeroPositive(s: string)
    requires AllDigits(s) && s != "" && s[0] != '0'
    ensures IPow10(|s| - 1) <= DigitsVal(s) < IPow10(|s|)
  {
    if |s| == 1 {
      assert s[..0] == "";
      assert IPow10(1) == 10;
    } else {
      NoLeadingZeroPositive(s[..|s| - 1]);
    }
  }

  lemma {:induction false} SameValueSameDigits(a: string, b: string)
    requires AllDigits(a) && a != "" && a[0] != '0'
    requires AllDigits(b) && b != "" && b[0] != '0'
    requires DigitsVal(a) == DigitsVal(b)
    ensures a == b
  {
    var a', b' := a[..|a| - 1], b[..|b| - 1];
    assert DigitVal(a[|a| - 1]) == DigitVal(b[|b| - 1]) && DigitsVal(a') == DigitsVal(b');
    if a' == "" {
      if b' != "" { NoLeadingZeroPositive(b'); }
    } else if b' == "" {
      NoLeadingZeroPositive(a');
    } else {
      SameValueSameDigits(a', b');
    }
    assert a == a' + [a[|a| - 1]] && b == b' + [b[|b| - 1]];
  }

  lemma ScaledEqualExponents(m: nat, i: int, n: nat, j: int)
    requires i <= j && Scaled(m, i) == Scaled(n, j)
    ensures m == n * IPow10(j - i)
  {
    hide Pow10, IPow10;
    ScaledShift(n, i, j - i);
    var q := n * IPow10(j - i);
    CancelReal(m as real, q as real, Pow10(i));
  }

  lemma CancelReal(a: real, b: real, p: real)
    requires p > 0.0 && a * p == b * p
    ensures a == b
  {
    assert (a - b) * p == 0.0;
  }

  lemma ExponentForced(a: string, i: int, b: string, j: int)
    requires Normal(a) && Normal(b)
    requires Scaled(DigitsVal(a), i) == Scaled(DigitsVal(b), j)
    ensures j <= i
  {
    if i < j {
      ScaledEqualExponents(DigitsVal(a), i, DigitsVal(b), j);
      MultipleOfTen(DigitsVal(a), DigitsVal(b), IPow10(j - i), IPow10(j - i - 1));
    }
  }

  lemma MultipleOfTen(m: nat, n: nat, p: nat, p': nat)
    requires m == n * p && p == 10 * p'
    ensures m % 10 == 0
  {
    assert m == 10 * (n * p');
  }

  /** A normal digit string and its exponent are determined by the number they denote. */
  lemma NormalFormUnique(a: string, i: int, b: string, j: int)
    requires Normal(a) && Normal(b)
    requires Scaled(DigitsVal(a), i) == Scaled(DigitsVal(b), j)
    ensures a == b && i == j
  {
    ExponentForced(a, i, b, j);
    ExponentForced(b, j, a, i);
    ScaledEqualExponents(DigitsVal(a), i, DigitsVal(b), j);
    SameValueSameDigits(a, b);
  }

  /** Decimal rendering of a natural number. */
  function NatText(n: nat): (s: string)
    ensures AllDigits(s) && s != "" && (n > 0 ==> s[0] != '0')
    ensures DigitsVal(s) == n
  {
    if n < 10 then [DigitChar(n)]
    else
      var t := NatText(n / 10);
      assert (t + [DigitChar(n % 10)])[..|t|] == t;
      t + [DigitChar(n % 10)]
  }
}
