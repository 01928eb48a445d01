/** The text of an `<input type="number">` that holds a number. The browser
    reports either the empty string or a valid floating-point number in the
    sense of the HTML standard: an optional minus sign, then digits with an
    optional fraction after a point (at least one digit in all), then an
    optional exponent. `Number(text)` reads the whole text, `parseInt(text)`
    only the digits before the point. `Value` is the exact number the text
    denotes, not the nearest double. */
module NumberInput {
  import opened Seqs
  import Text

  predicate AllDigits(s: string) {
    forall i :: 0 <= i < |s| ==> Text.IsDigit(s[i])
  }

  /** `e` or `E`, an optional sign, and digits. */
  datatype Exponent = Exponent(negative: bool, digits: string)

  datatype RawNumber = RawNumber(negative: bool, whole: string, fraction: string, exponent: Option<Exponent>)

  /** The pieces spell a valid floating-point number. An empty `fraction`
      means the text has no point. */
  predicate WellFormed(t: RawNumber) {
    && AllDigits(t.whole)
    && AllDigits(t.fraction)
    && (t.whole != [] || t.fraction != [])
    && ExponentWellFormed(t.exponent)
  }

  type NumberText = t: RawNumber | WellFormed(t) witness RawNumber(false, "0", "", None)

  /** The text itself: the sign, then the digits before the point, which
      run up to a character that is not a digit or to the end. */
  function Render(t: NumberText): (r: string)
    ensures r != [] && r[0] != '+'
    ensures t.negative <==> r[0] == '-'
    ensures var k := if t.negative then 1 else 0;
            && k + |t.whole| <= |r|
            && r[k..k + |t.whole|] == t.whole
            && (k + |t.whole| < |r| ==> !Text.IsDigit(r[k + |t.whole|]))
  {
    (if t.negative then "-" else "") + t.whole + Tail(t.fraction, t.exponent)
  }

  /** What follows the digits before the point: the point and the fraction
      if there is one, then the exponent if there is one. */
  function Tail(fraction: string, exponent: Option<Exponent>): string {
    (if fraction == [] then "" else "." + fraction) + ExponentText(exponent)
  }

  function ExponentText(exponent: Option<Exponent>): string {
    match exponent
    case None => ""
    case Some(e) => "e" + (if e.negative then "-" else "") + e.digits
  }

  /** `LeadingDigits` is the length of any run of digits that is followed
      by a non-digit or by the end. */
  lemma LeadingDigitsOfRun(s: string, n: nat)
    requires n <= |s|
    requires forall i :: 0 <= i < n ==> Text.IsDigit(s[i])
    requires n < |s| ==> !Text.IsDigit(s[n])
    ensures LeadingDigits(s) == n
  {
  }

  predicate ExponentWellFormed(exponent: Option<Exponent>) {
    exponent.Some? ==> exponent.value.digits != [] && AllDigits(exponent.value.digits)
  }

  /** Different exponents are written differently. */
  lemma ExponentTextInjective(a: Option<Exponent>, b: Option<Exponent>)
    requires ExponentWellFormed(a) && ExponentWellFormed(b)
    requires ExponentText(a) == ExponentText(b)
    ensures a == b
  {
    if a.Some? && b.Some? {
      var x, y := ExponentText(a), ExponentText(b);
      var da, db := a.value.digits, b.value.digits;
      assert Text.IsDigit(da[0]) && Text.IsDigit(db[0]);
      assert a.value.negative == (x[1] == '-');
      assert b.value.negative == (y[1] == '-');
      var k := if a.value.negative then 2 else 1;
      assert x[k..] == da && y[k..] == db;
    }
  }

  /** An exponent text is empty or starts with `e`, never with a digit. */
  lemma ExponentTextStart(e: Option<Exponent>)
    ensures ExponentText(e) == [] || ExponentText(e)[0] == 'e'
  {
  }

  /** Two tails that both have a fraction agree on it and on the exponent. */
  lemma FractionsInjective(f: string, a: Option<Exponent>, g: string, b: Option<Exponent>)
    requires AllDigits(f) && AllDigits(g)
    requires f + ExponentText(a) == g + ExponentText(b)
    ensures f == g && ExponentText(a) == ExponentText(b)
  {
    var rest := f + ExponentText(a);
    ExponentTextStart(a);
    ExponentTextStart(b);
    assert rest[..|f|] == f && rest[..|g|] == g;
    LeadingDigitsOfRun(rest, |f|);
    LeadingDigitsOfRun(rest, |g|);
  }

  /** A tail starts with the point exactly when there is a fraction. */
  lemma TailStart(f: string, a: Option<Exponent>)
    ensures f != [] ==> Tail(f, a) != [] && Tail(f, a)[0] == '.' && Tail(f, a)[1..] == f + ExponentText(a)
    ensures f == [] ==> Tail(f, a) == ExponentText(a)
  {
    if f != [] {
      assert Tail(f, a) == ['.'] + (f + ExponentText(a));
    }
  }

  /** Different fractions or exponents give different tails. */
  lemma TailInjective(f: string, a: Option<Exponent>, g: string, b: Option<Exponent>)
    requires AllDigits(f) && AllDigits(g) && ExponentWellFormed(a) && ExponentWellFormed(b)
    requires Tail(f, a) == Tail(g, b)
    ensures f == g && a == b
  {
    TailStart(f, a);
    TailStart(g, b);
    ExponentTextStart(a);
    ExponentTextStart(b);
    if f != [] && g != [] {
      FractionsInjective(f, a, g, b);
    }
    ExponentTextInjective(a, b);
  }

  /** Different number texts are written differently, so `Value` and
      `ParseInt` depend on the text alone. */
  lemma RenderInjective(t: NumberText, u: NumberText)
    requires Render(t) == Render(u)
    ensures t == u
  {
    var r := Render(t);
    var k := if t.negative then 1 else 0;
    LeadingDigitsOfRun(r[k..], |t.whole|);
    LeadingDigitsOfRun(r[k..], |u.whole|);
    assert t.whole == r[k..k + |t.whole|] == u.whole;
    var j := k + |t.whole|;
    assert r[j..] == Tail(t.fraction, t.exponent) == Tail(u.fraction, u.exponent);
    TailInjective(t.fraction, t.exponent, u.fraction, u.exponent);
  }

  function Pow10(n: nat): (r: nat)
    ensures r >= 1
  {
    if n == 0 then 1 else 10 * Pow10(n - 1)
  }

  /** A string of `n` digits denotes less than `10^n`. */
  lemma {:induction false} DigitsBelowPow10(s: string)
    requires AllDigits(s)
    ensures Text.DigitsValue(s) < Pow10(|s|)
    decreases |s|
  {
    if s != [] {
      var init := s[..|s| - 1];
      assert AllDigits(init);
      DigitsBelowPow10(init);
      var d := s[|s| - 1] as int - '0' as int;
      assert 0 <= d <= 9;
      assert Text.DigitsValue(s) == Text.DigitsValue(init) * 10 + d;
      assert Text.DigitsValue(init) * 10 <= (Pow10(|init|) - 1) * 10;
    }
  }

  /** The digits before and after the point, without sign or exponent: at
      least the digits before the point, and less than one more. */
  function Mantissa(t: NumberText): (r: real)
    ensures Text.DigitsValue(t.whole) as real <= r < Text.DigitsValue(t.whole) as real + 1.0
  {
    FractionBelowOne(t);
    Text.DigitsValue(t.whole) as real + Text.DigitsValue(t.fraction) as real / Pow10(|t.fraction|) as real
  }

  /** `Number(text)`: the number the text denotes, exactly. Its sign is the
      text's; without an exponent its integer part is the digits before the
      point. */
  function Value(t: NumberText): (r: real)
    ensures t.negative ==> r <= 0.0
    ensures !t.negative ==> r >= 0.0
    ensures t.exponent.None? && !t.negative ==>
              Text.DigitsValue(t.whole) as real <= r < Text.DigitsValue(t.whole) as real + 1.0
    ensures t.exponent.None? ==> r == (if t.negative then -Mantissa(t) else Mantissa(t))
  {
    var scaled := match t.exponent
      case None => Mantissa(t)
      case Some(e) =>
        var shift := Pow10(Text.DigitsValue(e.digits)) as real;
        if e.negative then Mantissa(t) / shift else Mantissa(t) * shift;
    if t.negative then -scaled else scaled
  }

  /** `parseInt(text)`: the sign and the digits before the point; the
      fraction and the exponent are ignored. Without such digits it is
      `NaN`, here `None`. */
  function ParseInt(t: NumberText): (r: Option<int>)
    ensures r.None? <==> t.whole == []
    ensures r.Some? ==> (if t.negative then -r.value else r.value) == Text.DigitsValue(t.whole)
  {
    if t.whole == [] then None
    else
      var n: int := Text.DigitsValue(t.whole);
      Some(if t.negative then -n else n)
  }

  /** How many digits `s` starts with. */
  function LeadingDigits(s: string): (n: nat)
    ensures n <= |s|
    ensures forall i :: 0 <= i < n ==> Text.IsDigit(s[i])
    ensures n < |s| ==> !Text.IsDigit(s[n])
    decreases |s|
  {
    if s != [] && Text.IsDigit(s[0]) then 1 + LeadingDigits(s[1..]) else 0
  }

  /** `parseInt(s)`, read off the string, for a string that starts with
      neither white space nor `0x` (a number input reports neither): an
      optional sign, then as many digits as follow; none at all is `NaN`. */
  function ScanInt(s: string): (r: Option<int>)
    ensures r.None? <==> LeadingDigits(if s != [] && (s[0] == '-' || s[0] == '+') then s[1..] else s) == 0
  {
    var signed := s != [] && (s[0] == '-' || s[0] == '+');
    var body := if signed then s[1..] else s;
    var n := LeadingDigits(body);
    if n == 0 then None
    else
      var v: int := Text.DigitsValue(body[..n]);
      Some(if s[0] == '-' then -v else v)
  }

  /** `ParseInt` is `parseInt` of the text the input reports. */
  lemma ParseIntReadsText(t: NumberText)
    ensures ParseInt(t) == ScanInt(Render(t))
  {
    var r := Render(t);
    var k := if t.negative then 1 else 0;
    var body := r[k..];
    assert body[..|t.whole|] == t.whole;
    assert LeadingDigits(body) == |t.whole|;
  }

  /** The integer part of the number the text denotes,
      `Math.floor(Number(text))`. */
  function IntegerPart(t: NumberText): (r: int)
    ensures r as real <= Value(t) < r as real + 1.0
  {
    Value(t).Floor
  }

  /** A number of at least 1 has an integer part of at least 1. */
  lemma IntegerPartAtLeastOne(t: NumberText)
    requires Value(t) >= 1.0
    ensures IntegerPart(t) >= 1
  {
  }

  /** A quotient of a smaller by a larger positive amount is a fraction. */
  lemma QuotientBelowOne(x: real, y: real)
    requires 0.0 <= x < y
    ensures 0.0 <= x / y < 1.0
  {
    assert (x / y) * y == x;
  }

  /** The digits after the point denote a fraction below one. */
  lemma FractionBelowOne(t: NumberText)
    ensures 0.0 <= Text.DigitsValue(t.fraction) as real / Pow10(|t.fraction|) as real < 1.0
  {
    DigitsBelowPow10(t.fraction);
    QuotientBelowOne(Text.DigitsValue(t.fraction) as real, Pow10(|t.fraction|) as real);
  }

  /** On a text without an exponent that denotes at least 1, `parseInt`
      and the integer part agree. */
  lemma ParseIntAgreesWithoutExponent(t: NumberText)
    requires t.exponent.None? && Value(t) >= 1.0
    ensures ParseInt(t) == Some(IntegerPart(t))
  {
    assert !t.negative;
    var d := Text.DigitsValue(t.whole);
    assert d as real <= Value(t) < d as real + 1.0;
    assert IntegerPart(t) == d;
    assert t.whole != [];
  }

  /** `0.5e1`: five, written with an exponent. */
  const HalfTimesTen: NumberText := RawNumber(false, "0", "5", Some(Exponent(false, "1")))

  /** `.5e1`: five again, with no digit before the point. */
  const PointFiveTimesTen: NumberText := RawNumber(false, "", "5", Some(Exponent(false, "1")))

  /** Both texts denote 5, yet `parseInt` reads the first as 0 and the
      second as `NaN`. */
  lemma ParseIntIgnoresExponent()
    ensures Render(HalfTimesTen) == "0.5e1" && Render(PointFiveTimesTen) == ".5e1"
    ensures Value(HalfTimesTen) == 5.0 && Value(PointFiveTimesTen) == 5.0
    ensures ParseInt(HalfTimesTen) == Some(0) && ParseInt(PointFiveTimesTen) == None
    ensures IntegerPart(HalfTimesTen) == 5 && IntegerPart(PointFiveTimesTen) == 5
  {
    assert Text.DigitsValue("5") == 5 by {
      assert "5"[..0] == [];
    }
    assert Text.DigitsValue("1") == 1 by {
      assert "1"[..0] == [];
    }
    assert Text.DigitsValue("0") == 0 by {
      assert "0"[..0] == [];
    }
  }
}
