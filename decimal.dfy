/** Decimal digit strings: the exact base-ten rendering of a natural number
    (what `f"{n:.0f}"` prints for an integer small enough to convert to a
    float exactly) and reading one back (`int(...)`, and the plain-decimal
    subset of `float(...)`). */
module Decimal {
  import opened Results
  import opened Text

  datatype ParseError = NotAnInteger(text: string) | NotADecimal(text: string)

  predicate IsDigit(c: char) {
    '0' <= c <= '9'
  }

  predicate AllDigits(s: string) {
    forall k :: 0 <= k < |s| ==> IsDigit(s[k])
  }

  function DigitChar(d: nat): (c: char)
    requires d < 10
    ensures IsDigit(c) && c as int - '0' as int == d
  {
    ('0' as int + d) as char
  }

  /** The value of a digit string read in base ten; the empty string reads as 0. */
  function DecimalValue(s: string): nat
    requires AllDigits(s)
  {
    if s == [] then 0 else DecimalValue(s[..|s| - 1]) * 10 + (s[|s| - 1] as int - '0' as int)
  }


  /** The shortest base-ten rendering of `n`. */
  function NatToDecimal(n: nat): (r: string)
    ensures |r| >= 1 && AllDigits(r)
    ensures r[0] == '0' ==> n == 0 && r == "0"
  {
    if n < 10 then [DigitChar(n)] else NatToDecimal(n / 10) + [DigitChar(n % 10)]
  }

  /** Reading back a rendered number gives the number. */
  lemma {:induction false} DecimalRoundTrip(n: nat)
    ensures DecimalValue(NatToDecimal(n)) == n
  {
    var r := NatToDecimal(n);
    if n >= 10 {
      DecimalRoundTrip(n / 10);
      assert r[..|r| - 1] == NatToDecimal(n / 10);
    }
  }

  /** Python's `int(t)` on a string without spaces: an optional sign, then
      one or more ASCII digits. */
  function ParseInt(t: string): (r: Result<int, ParseError>)
    ensures r.Ok? <==> |t| >= 1 && (AllDigits(t) || (t[0] in "+-" && |t| >= 2 && AllDigits(t[1..])))
    ensures r.Ok? && AllDigits(t) ==> r.value == DecimalValue(t)
    ensures r.Ok? && t[0] == '-' ==> r.value == -(DecimalValue(t[1..]) as int)
    ensures r.Ok? && t[0] == '+' ==> r.value == DecimalValue(t[1..])
  {
    if |t| >= 1 && (t[0] == '+' || t[0] == '-') then
      var digits := t[1..];
      if |digits| >= 1 && AllDigits(digits) then
        Ok(if t[0] == '-' then -(DecimalValue(digits) as int) else DecimalValue(digits))
      else Err(NotAnInteger(t))
    else if |t| >= 1 && AllDigits(t) then Ok(DecimalValue(t))
    else Err(NotAnInteger(t))
  }

  /** `int()` reads back what `NatToDecimal` renders, with or without a minus sign. */
  lemma ParseIntRoundTrip(n: nat)
    ensures ParseInt(NatToDecimal(n)) == Ok(n)
    ensures ParseInt("-" + NatToDecimal(n)) == Ok(-(n as int))
  {
    DecimalRoundTrip(n);
    assert ("-" + NatToDecimal(n))[1..] == NatToDecimal(n);
  }

  /** The value of the digits `fp` written after a decimal point. */
  function Fraction(fp: string): (r: real)
    requires AllDigits(fp)
    ensures 0.0 <= r < 1.0
  {
    if fp == [] then 0.0 else ((fp[0] as int - '0' as int) as real + Fraction(fp[1..])) / 10.0
  }

  /** The value of `ip.fp` where both parts are digit strings. */
  function FixedPoint(ip: string, fp: string): real
    requires AllDigits(ip) && AllDigits(fp)
  {
    DecimalValue(ip) as real + Fraction(fp)
  }

  /** Value of an unsigned mantissa: digits, optionally one '.' and more
      digits, with at least one digit in all. */
  function ParseMantissa(m: string): Result<real, ParseError>
  {
    if |m| >= 1 && AllDigits(m) then
      Ok(DecimalValue(m) as real)
    else
      var pieces := Split(m, ".");
      if |pieces| == 2 && |pieces[0]| + |pieces[1]| >= 1 && AllDigits(pieces[0]) && AllDigits(pieces[1]) then
        Ok(FixedPoint(pieces[0], pieces[1]))
      else Err(NotADecimal(m))
  }

  /** Python's `float(t)` restricted to plain decimals: an optional sign,
      then a mantissa with '.' as the decimal separator. */
  function ParseDecimal(t: string): Result<real, ParseError>
  {
    if |t| >= 1 && (t[0] == '+' || t[0] == '-') then
      match ParseMantissa(t[1..])
      case Ok(x) => Ok(if t[0] == '-' then -x else x)
      case Err(_) => Err(NotADecimal(t))
    else
      match ParseMantissa(t)
      case Ok(x) => Ok(x)
      case Err(_) => Err(NotADecimal(t))
  }

  /** `float()` of the empty string fails, and of a digit string gives the
      integer those digits stand for. */
  lemma ParseDecimalDigits(t: string)
    ensures ParseDecimal(t).Ok? ==> |t| >= 1
    ensures AllDigits(t) && |t| >= 1 ==> ParseDecimal(t) == Ok(DecimalValue(t) as real)
  {
    if |t| >= 1 && AllDigits(t) {
      assert IsDigit(t[0]);
    }
  }

  /** A mantissa the plain-decimal `float()` modelled here accepts holds
      only digits and '.'. */
  lemma MantissaChars(m: string)
    ensures ParseMantissa(m).Ok? ==> forall k :: 0 <= k < |m| ==> IsDigit(m[k]) || m[k] == '.'
  {
    if ParseMantissa(m).Ok? && !(|m| >= 1 && AllDigits(m)) {
      var pieces := Split(m, ".");
      SplitJoin(m, ".");
      assert Join(pieces, ".") == pieces[0] + "." + pieces[1];
      assert m == pieces[0] + "." + pieces[1];
      forall k | 0 <= k < |m| ensures IsDigit(m[k]) || m[k] == '.' {
        if k < |pieces[0]| {
          assert m[k] == pieces[0][k];
        } else if k > |pieces[0]| {
          assert m[k] == pieces[1][k - |pieces[0]| - 1];
        }
      }
    }
  }

  /** The plain-decimal `float()` modelled here refuses a character that is
      neither a digit, nor '.', nor a leading sign. Python's own `float()`
      also accepts exponents, `inf`, `nan`, underscores and whitespace. */
  lemma ParseDecimalFails(t: string, k: int)
    requires 0 <= k < |t| && !IsDigit(t[k]) && t[k] != '.' && !(k == 0 && (t[0] == '+' || t[0] == '-'))
    ensures ParseDecimal(t).Err?
  {
    if t[0] == '+' || t[0] == '-' {
      MantissaChars(t[1..]);
      assert t[1..][k - 1] == t[k];
    } else {
      MantissaChars(t);
    }
  }

  /** A leading sign: `float("-" + m)` succeeds exactly when `float(m)` does
      and is its negation; `float("+" + m)` succeeds exactly when `float(m)`
      does, with the same value. */
  lemma ParseDecimalSign(m: string)
    requires |m| >= 1 && m[0] != '+' && m[0] != '-'
    ensures ParseDecimal("-" + m).Ok? <==> ParseDecimal(m).Ok?
    ensures ParseDecimal(m).Ok? ==> ParseDecimal("-" + m).value == -ParseDecimal(m).value
    ensures ParseDecimal("+" + m).Ok? <==> ParseDecimal(m).Ok?
    ensures ParseDecimal(m).Ok? ==> ParseDecimal("+" + m).value == ParseDecimal(m).value
  {
    assert ("-" + m)[1..] == m;
    assert ("+" + m)[1..] == m;
  }

  /** `float()` refuses a second decimal point: digits, '.', text without a
      point, '.', and anything after. */
  lemma ParseDecimalTwoPoints(ip: string, mid: string, rest: string)
    requires AllDigits(ip)
    requires Avoids(mid, '.')
    ensures ParseDecimal(ip + "." + mid + "." + rest).Err?
  {
    var t := ip + "." + (mid + "." + rest);
    assert ip + "." + mid + "." + rest == t;
    NoDot(ip);
    SplitAfter(ip, ".", mid + "." + rest);
    SplitAfter(mid, ".", rest);
    assert t[|ip|] == '.';
    if |ip| >= 1 {
      assert t[0] == ip[0];
    }
  }

  lemma NoDot(s: string)
    requires AllDigits(s)
    ensures Avoids(s, '.')
  {
  }

  lemma SplitAtPoint(ip: string, fp: string)
    requires AllDigits(ip) && AllDigits(fp)
    ensures Split(ip + "." + fp, ".") == [ip, fp]
  {
    NoDot(ip);
    NoDot(fp);
    SplitAfter(ip, ".", fp);
    NoOccurrence(fp, ".");
    SplitWhole(fp, ".");
  }

  lemma MantissaFraction(ip: string, fp: string)
    requires AllDigits(ip) && AllDigits(fp) && |ip| + |fp| >= 1
    ensures ParseMantissa(ip + "." + fp) == Ok(FixedPoint(ip, fp))
  {
    var t := ip + "." + fp;
    SplitAtPoint(ip, fp);
    assert !AllDigits(t) by { assert t[|ip|] == '.'; }
  }

  /** `float("<ip>.<fp>")` is the fixed-point value of the two digit strings. */
  lemma ParseDecimalFraction(ip: string, fp: string)
    requires AllDigits(ip) && AllDigits(fp) && |ip| + |fp| >= 1
    ensures ParseDecimal(ip + "." + fp) == Ok(FixedPoint(ip, fp))
  {
    var t := ip + "." + fp;
    MantissaFraction(ip, fp);
    if |ip| >= 1 {
      assert t[0] == ip[0];
    } else {
      assert t[0] == '.';
    }
  }
}
