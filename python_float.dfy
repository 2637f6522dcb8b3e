/**
 Python's `float(text)` on decimal text, with exact rational values in place
 of binary floating point. The text is read left to right by a small
 scanner: an optional sign, a mantissa of digits with at most one decimal
 point and at least one digit, and an optional exponent `e`/`E` with an
 optional sign and at least one digit.
 */
module PyFloat {
  import opened Wrappers

  predicate IsDigit(c: char)
  {
    '0' <= c <= '9'
  }

  predicate AllDigits(s: string)
  {
    forall k :: 0 <= k < |s| ==> IsDigit(s[k])
  }

  function DigitValue(c: char): nat
    requires IsDigit(c)
  {
    c as int - '0' as int
  }

  /** `acc` followed by the decimal digits `s`, read most significant first. */
  function Accumulate(acc: nat, s: string): nat
    requires AllDigits(s)
    decreases |s|
  {
    if s == [] then acc else Accumulate(10 * acc + DigitValue(s[0]), s[1..])
  }

  /** The number a string of decimal digits denotes. */
  function DigitsValue(s: string): nat
    requires AllDigits(s)
  {
    Accumulate(0, s)
  }

  function Pow10(n: nat): (r: real)
    ensures r >= 1.0
  {
    if n == 0 then 1.0 else 10.0 * Pow10(n - 1)
  }

  /** Where the scanner is: before the mantissa (a sign may come), in the
      whole or fractional part, right after the exponent mark (a sign may
      come), or in the exponent's digits. */
  datatype Phase = Start | Whole | Fraction | ExponentMark | Exponent

  /** What has been read so far: the mantissa's digits as one integer, how
      many digits it has and how many of them follow the decimal point, and
      the exponent. */
  datatype Numeral = Numeral(
    phase: Phase,
    negative: bool,
    mantissa: nat,
    digits: nat,
    scale: nat,
    exponentNegative: bool,
    exponent: nat,
    exponentDigits: nat)

  const INITIAL: Numeral := Numeral(Start, false, 0, 0, 0, false, 0, 0)

  /** Reading one more character; `None` where the text stops being a numeral. */
  function Step(n: Numeral, c: char): Option<Numeral>
  {
    match n.phase
    case Start =>
      if c == '+' || c == '-' then Some(n.(phase := Whole, negative := c == '-'))
      else if IsDigit(c) then Some(n.(phase := Whole, mantissa := DigitValue(c), digits := 1))
      else if c == '.' then Some(n.(phase := Fraction))
      else None
    case Whole =>
      if IsDigit(c) then Some(n.(mantissa := 10 * n.mantissa + DigitValue(c), digits := n.digits + 1))
      else if c == '.' then Some(n.(phase := Fraction))
      else if (c == 'e' || c == 'E') && n.digits > 0 then Some(n.(phase := ExponentMark))
      else None
    case Fraction =>
      if IsDigit(c) then
        Some(n.(mantissa := 10 * n.mantissa + DigitValue(c), digits := n.digits + 1, scale := n.scale + 1))
      else if (c == 'e' || c == 'E') && n.digits > 0 then Some(n.(phase := ExponentMark))
      else None
    case ExponentMark =>
      if c == '+' || c == '-' then Some(n.(phase := Exponent, exponentNegative := c == '-'))
      else if IsDigit(c) then Some(n.(phase := Exponent, exponent := DigitValue(c), exponentDigits := 1))
      else None
    case Exponent =>
      if IsDigit(c) then Some(n.(exponent := 10 * n.exponent + DigitValue(c), exponentDigits := n.exponentDigits + 1))
      else None
  }

  /** Reading the characters of `s` in order. */
  function Scan(n: Numeral, s: string): Option<Numeral>
    decreases |s|
  {
    if s == [] then Some(n)
    else
      match Step(n, s[0])
      case None => None
      case Some(next) => Scan(next, s[1..])
  }

  /** A numeral may end once the mantissa has a digit, and, if an exponent
      was started, once the exponent has a digit. */
  predicate Complete(n: Numeral)
  {
    n.digits > 0 && n.phase != ExponentMark && (n.phase == Exponent ==> n.exponentDigits > 0)
  }

  /** `x` with its decimal point moved `e` places left (`down`) or right. */
  function Shift(x: real, e: nat, down: bool): real
    decreases e
  {
    if e == 0 then x
    else if down then Shift(x / 10.0, e - 1, down)
    else Shift(x * 10.0, e - 1, down)
  }

  /** Moving the point left `e` places divides by ten to the `e`. */
  lemma {:induction false} ShiftDown(x: real, e: nat)
    ensures Shift(x, e, true) == x / Pow10(e)
    decreases e
  {
    if e > 0 {
      ShiftDown(x / 10.0, e - 1);
      assert Pow10(e) == 10.0 * Pow10(e - 1);
    }
  }

  /** The size of a numeral's value: mantissa / 10^scale * 10^(+-exponent). */
  function Magnitude(n: Numeral): real
  {
    Shift(Shift(n.mantissa as real, n.scale, true), n.exponent, n.exponentNegative)
  }

  /** The value of a numeral: its magnitude with its sign. */
  function Value(n: Numeral): real
  {
    if n.negative then -Magnitude(n) else Magnitude(n)
  }

  /** `float(s)` for decimal text; `None` where Python raises `ValueError`. */
  function ParseFloat(s: string): (r: Option<real>)
    ensures r.Some? ==> s != []
  {
    match Scan(INITIAL, s)
    case None => None
    case Some(n) => if Complete(n) then Some(Value(n)) else None
  }

  /** Digits read in the whole or fractional part extend the mantissa;
      in the fractional part they also extend the scale. */
  lemma {:induction false} ScanDigits(n: Numeral, d: string)
    requires AllDigits(d) && (n.phase == Whole || n.phase == Fraction)
    ensures Scan(n, d) == Some(n.(mantissa := Accumulate(n.mantissa, d), digits := n.digits + |d|,
                                  scale := if n.phase == Fraction then n.scale + |d| else n.scale))
    decreases |d|
  {
    if d != [] {
      ScanDigits(Step(n, d[0]).value, d[1..]);
    }
  }

  /** Reading `a` then `b` is reading `a + b`. */
  lemma {:induction false} ScanConcat(n: Numeral, a: string, b: string)
    requires Scan(n, a).Some?
    ensures Scan(n, a + b) == Scan(Scan(n, a).value, b)
    decreases |a|
  {
    if a == [] {
      assert a + b == b;
    } else {
      var next := Step(n, a[0]).value;
      assert (a + b)[0] == a[0] && (a + b)[1..] == a[1..] + b;
      assert Scan(n, a + b) == Scan(next, a[1..] + b);
      ScanConcat(next, a[1..], b);
    }
  }

  /** Accumulating `a` then `b` is accumulating `a + b`. */
  lemma {:induction false} AccumulateConcat(acc: nat, a: string, b: string)
    requires AllDigits(a) && AllDigits(b)
    ensures AllDigits(a + b) && Accumulate(acc, a + b) == Accumulate(Accumulate(acc, a), b)
    decreases |a|
  {
    assert forall k :: 0 <= k < |a + b| ==> (a + b)[k] == if k < |a| then a[k] else b[k - |a|];
    if a == [] {
      assert a + b == b;
    } else {
      assert (a + b)[0] == a[0] && (a + b)[1..] == a[1..] + b;
      AccumulateConcat(10 * acc + DigitValue(a[0]), a[1..], b);
    }
  }

  /** A plain run of digits parses to the integer it denotes. */
  lemma ParseDigits(d: string)
    requires d != [] && AllDigits(d)
    ensures ParseFloat(d) == Some(DigitsValue(d) as real)
  {
    var first := Step(INITIAL, d[0]).value;
    ScanDigits(first, d[1..]);
  }

  /** After the whole part, the scanner is in the whole part with its digits read. */
  lemma ScanWhole(whole: string)
    requires AllDigits(whole)
    ensures Scan(INITIAL, whole) == Some(INITIAL.(phase := if whole == [] then Start else Whole,
                                                  mantissa := DigitsValue(whole), digits := |whole|))
  {
    if whole != [] {
      var first := Step(INITIAL, whole[0]).value;
      ScanDigits(first, whole[1..]);
    }
  }

  /** Reading `whole.` leaves the scanner in the fractional part with the
      whole part's digits read. */
  lemma ScanPoint(whole: string, fraction: string)
    requires AllDigits(whole)
    ensures Scan(INITIAL, whole + "." + fraction)
         == Scan(INITIAL.(phase := Fraction, mantissa := DigitsValue(whole), digits := |whole|), fraction)
  {
    var rest := "." + fraction;
    var afterWhole := INITIAL.(phase := if whole == [] then Start else Whole,
                               mantissa := DigitsValue(whole), digits := |whole|);
    var afterPoint := afterWhole.(phase := Fraction);
    assert whole + "." + fraction == whole + rest;
    assert Scan(INITIAL, whole + rest) == Scan(afterWhole, rest) by {
      ScanWhole(whole);
      ScanConcat(INITIAL, whole, rest);
    }
    assert Scan(afterWhole, rest) == Scan(afterPoint, fraction) by {
      assert rest[0] == '.' && rest[1..] == fraction;
    }
  }

  /** Scanning `whole.fraction` reads the digits of both parts into one
      mantissa, and counts the fraction's digits as its scale. */
  lemma ScanDecimalPoint(whole: string, fraction: string)
    requires AllDigits(whole) && AllDigits(fraction)
    ensures AllDigits(whole + fraction)
    ensures Scan(INITIAL, whole + "." + fraction)
         == Some(INITIAL.(phase := Fraction, mantissa := DigitsValue(whole + fraction),
                          digits := |whole| + |fraction|, scale := |fraction|))
  {
    AccumulateConcat(0, whole, fraction);
    var afterPoint := INITIAL.(phase := Fraction, mantissa := DigitsValue(whole), digits := |whole|);
    ScanPoint(whole, fraction);
    ScanDigits(afterPoint, fraction);
  }

  /** `whole.fraction` parses to the digits of both parts as one integer,
      divided by ten to the number of fraction digits. */
  lemma ParseDecimalPoint(whole: string, fraction: string)
    requires AllDigits(whole) && AllDigits(fraction) && |whole| + |fraction| > 0
    ensures AllDigits(whole + fraction)
    ensures ParseFloat(whole + "." + fraction) == Some(DigitsValue(whole + fraction) as real / Pow10(|fraction|))
  {
    ScanDecimalPoint(whole, fraction);
    ShiftDown(DigitsValue(whole + fraction) as real, |fraction|);
  }

  /** The sign flag does not change what the scanner accepts, only the sign of the value. */
  lemma {:induction false} ScanSignIndependent(s: string, a: Numeral, b: Numeral)
    requires a.phase != Start && a == b.(negative := a.negative)
    ensures Scan(a, s).Some? == Scan(b, s).Some?
    ensures Scan(a, s).Some? ==> Scan(a, s).value == Scan(b, s).value.(negative := a.negative)
    ensures Scan(a, s).Some? ==> Scan(a, s).value.negative == a.negative
    decreases |s|
  {
    if s != [] {
      var sa, sb := Step(a, s[0]), Step(b, s[0]);
      assert sa.Some? == sb.Some?;
      if sa.Some? {
        assert sa.value == sb.value.(negative := a.negative);
        ScanSignIndependent(s[1..], sa.value, sb.value);
      }
    }
  }

  /** After a leading '-', the scanner reads the rest as it would without
      the sign, only with the sign flag set. */
  lemma ScanNegative(t: string)
    requires t != [] && t[0] != '+' && t[0] != '-'
    ensures Scan(INITIAL, "-" + t).Some? == Scan(INITIAL, t).Some?
    ensures Scan(INITIAL, t).Some? ==> !Scan(INITIAL, t).value.negative
    ensures Scan(INITIAL, t).Some? ==> Scan(INITIAL, "-" + t).value == Scan(INITIAL, t).value.(negative := true)
  {
    var s := "-" + t;
    var neg := INITIAL.(phase := Whole, negative := true);
    var pos := INITIAL.(phase := Whole);
    assert Scan(INITIAL, s) == Scan(neg, t) by {
      assert s[0] == '-' && s[1..] == t;
    }
    assert Scan(INITIAL, t) == Scan(pos, t) by {
      assert Step(INITIAL, t[0]) == Step(pos, t[0]);
    }
    ScanSignIndependent(t, neg, pos);
    ScanSignIndependent(t, pos, neg);
  }

  /** A leading '-' negates the value of the unsigned text after it. */
  lemma ParseNegative(t: string)
    requires t != [] && t[0] != '+' && t[0] != '-'
    ensures ParseFloat("-" + t) == (if ParseFloat(t).Some? then Some(-ParseFloat(t).value) else None)
  {
    ScanNegative(t);
    if Scan(INITIAL, t).Some? {
      var n := Scan(INITIAL, t).value;
      assert Magnitude(n.(negative := true)) == Magnitude(n);
    }
  }
}
