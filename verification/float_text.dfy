/**
 * Python floats as they travel through text in the pipeline: `float(text)`,
 * `'{}'.format(x)` (the shortest round-tripping repr) and `int(x)`.
 *
 * A float is modelled exactly as a decimal number written without an
 * exponent: a sign, a whole part and the fractional digits with trailing
 * zeros dropped. For decimals of at most 15 significant digits and magnitude
 * in [1e-4, 1e16), this is what Python's repr prints.
 */
module FloatText {
  import opened Wrappers
  import opened Text

  datatype Decimal = Decimal(negative: bool, whole: nat, frac: string)

  predicate IsDigit(c: char) {
    '0' <= c <= '9'
  }

  predicate AllDigits(s: string) {
    forall k | 0 <= k < |s| :: IsDigit(s[k])
  }

  /** The fractional digits are digits and do not end in '0' (repr never prints trailing zeros). */
  predicate Canonical(d: Decimal) {
    AllDigits(d.frac) && (|d.frac| == 0 || Last(d.frac) != '0')
  }

  /** The characters Python's `float()` strips around its argument. */
  const Whitespace: string := " \t\n\r\U{000B}\U{000C}"

  function DigitChar(n: nat): (c: char)
    requires n < 10
    ensures IsDigit(c)
  {
    ('0' as int + n) as char
  }

  function DigitValue(c: char): (n: nat)
    requires IsDigit(c)
    ensures n < 10 && DigitChar(n) == c
  {
    c as int - '0' as int
  }

  /** Decimal digits of `n` without leading zeros ("0" for zero). */
  function NatToDigits(n: nat): (r: string)
    ensures |r| > 0 && AllDigits(r)
    decreases n
  {
    if n < 10 then [DigitChar(n)] else NatToDigits(n / 10) + [DigitChar(n % 10)]
  }

  /** The value of a string of decimal digits. */
  function DigitsToNat(s: string): nat
    requires AllDigits(s)
    decreases |s|
  {
    if |s| == 0 then 0 else DigitsToNat(s[..|s| - 1]) * 10 + DigitValue(s[|s| - 1])
  }

  lemma {:induction false} DigitsRoundTrip(n: nat)
    ensures DigitsToNat(NatToDigits(n)) == n
    decreases n
  {
    if n >= 10 {
      DigitsRoundTrip(n / 10);
      var s := NatToDigits(n);
      assert s[..|s| - 1] == NatToDigits(n / 10);
    }
  }

  /** Drops the trailing '0' characters. */
  function DropTrailingZeros(s: string): (r: string)
    ensures r <= s
    ensures |r| == 0 || Last(r) != '0'
    ensures forall k | |r| <= k < |s| :: s[k] == '0'
    decreases |s|
  {
    if |s| > 0 && Last(s) == '0' then DropTrailingZeros(s[..|s| - 1]) else s
  }

  /** The exact value written by `d`. */
  function Value(d: Decimal): real
    requires Canonical(d)
  {
    var m := d.whole as real + FracValue(d.frac);
    if d.negative then -m else m
  }

  /** The value of the digits after the decimal point. */
  function FracValue(s: string): (v: real)
    requires AllDigits(s)
    ensures 0.0 <= v < 1.0
    decreases |s|
  {
    if |s| == 0 then 0.0 else (DigitValue(s[0]) as real + FracValue(s[1..])) / 10.0
  }

  /** Python's `'{}'.format(x)` for the float `d`: "12.0", "-3.25". */
  function Repr(d: Decimal): string {
    (if d.negative then "-" else "") + ReprBody(d)
  }

  // ---------------------------------------------------------------------
  // The text `float()` accepts, character by character
  // ---------------------------------------------------------------------

  /** Every character is a digit or '.'. */
  predicate DecimalChars(body: string) {
    forall k | 0 <= k < |body| :: IsDigit(body[k]) || body[k] == '.'
  }

  /** No two positions both hold '.'. */
  predicate AtMostOneDot(body: string) {
    forall k1, k2 | 0 <= k1 < k2 < |body| && body[k1] == '.' :: body[k2] != '.'
  }

  predicate HasDigit(body: string) {
    exists k | 0 <= k < |body| :: IsDigit(body[k])
  }

  /** An unsigned number without exponent: digits and at most one '.', at least one digit. */
  predicate DecimalBody(body: string) {
    DecimalChars(body) && AtMostOneDot(body) && HasDigit(body)
  }

  /** The text after a leading '+' or '-', if there is one. */
  function Unsigned(t: string): (r: string)
    ensures |r| <= |t|
  {
    if |t| > 0 && (t[0] == '-' || t[0] == '+') then t[1..] else t
  }

  /** An optional sign followed by an unsigned number. */
  predicate DecimalText(t: string) {
    DecimalBody(Unsigned(t))
  }

  /** The characters before the first '.' (all of them when there is none). */
  function IntPart(body: string): (r: string)
    ensures '.' !in r
    decreases |body|
  {
    if |body| == 0 || body[0] == '.' then "" else [body[0]] + IntPart(body[1..])
  }

  /** The characters after the first '.' (none when there is no '.'). */
  function FracPart(body: string): (r: string)
    decreases |body|
  {
    if |body| == 0 then "" else if body[0] == '.' then body[1..] else FracPart(body[1..])
  }

  /**
   * Python's `float(text)` for text without an exponent: after the
   * surrounding whitespace is stripped, the text must be an optional sign
   * and digits with at most one '.', at least one digit; then the number is
   * the whole digits plus the fractional digits read as a fraction, negated
   * under a '-'. Anything else raises ValueError.
   */
  function ParseFloat(s: string): (r: Result<Decimal>)
    ensures r.Ok? <==> DecimalText(Strip(s, Whitespace))
    ensures r.Ok? ==> Canonical(r.value)
    ensures r.Ok? ==>
      var t := Strip(s, Whitespace);
      var body := Unsigned(t);
      && r.value.negative == (|t| > 0 && t[0] == '-')
      && AllDigits(IntPart(body)) && AllDigits(FracPart(body))
      && r.value.whole == DigitsToNat(IntPart(body))
      && FracValue(r.value.frac) == FracValue(FracPart(body))
    ensures r.Err? ==> r.error == ValueError
  {
    ParseSigned(Strip(s, Whitespace))
  }

  function Signed(negative: bool, m: real): real {
    if negative then -m else m
  }

  /**
   * The number `float()` returns once the whitespace is stripped: the
   * whole digits plus the fractional digits read as a fraction, negated
   * under a leading '-'.
   */
  lemma ParseSignedValue(t: string)
    requires DecimalText(t)
    ensures var body := Unsigned(t);
      && ParseSigned(t).Ok?
      && AllDigits(IntPart(body)) && AllDigits(FracPart(body))
      && Value(ParseSigned(t).value) == Signed(|t| > 0 && t[0] == '-', DigitsToNat(IntPart(body)) as real + FracValue(FracPart(body)))
  {
    var body := Unsigned(t);
    ValueOfParts(ParseSigned(t).value, |t| > 0 && t[0] == '-', DigitsToNat(IntPart(body)), FracValue(FracPart(body)));
  }

  /** The value of a decimal, given its sign, its whole part and the value of its fractional digits. */
  lemma ValueOfParts(d: Decimal, negative: bool, whole: nat, frac: real)
    requires Canonical(d) && d.negative == negative && d.whole == whole && FracValue(d.frac) == frac
    ensures Value(d) == Signed(negative, whole as real + frac)
  {
  }

  /** `float()` after the surrounding whitespace is gone: an optional sign, then the magnitude. */
  function ParseSigned(t: string): (r: Result<Decimal>)
    ensures r.Ok? <==> DecimalText(t)
    ensures r.Ok? ==> Canonical(r.value)
    ensures r.Ok? ==>
      var body := Unsigned(t);
      && r.value.negative == (|t| > 0 && t[0] == '-')
      && AllDigits(IntPart(body)) && AllDigits(FracPart(body))
      && r.value.whole == DigitsToNat(IntPart(body))
      && FracValue(r.value.frac) == FracValue(FracPart(body))
    ensures r.Err? ==> r.error == ValueError
  {
    var negative := |t| > 0 && t[0] == '-';
    var body := if |t| > 0 && (t[0] == '-' || t[0] == '+') then t[1..] else t;
    match ParseMagnitude(body)
    case Ok(m) => Ok(m.(negative := negative))
    case Err(e) => Err(e)
  }

  /** Digits with at most one '.', at least one digit in all; the sign of the result is positive. */
  function ParseMagnitude(body: string): (r: Result<Decimal>)
    ensures r.Ok? <==> DecimalBody(body)
    ensures r.Ok? ==> Canonical(r.value) && !r.value.negative
    ensures r.Ok? ==>
      && AllDigits(IntPart(body)) && AllDigits(FracPart(body))
      && r.value.whole == DigitsToNat(IntPart(body))
      && FracValue(r.value.frac) == FracValue(FracPart(body))
    ensures r.Err? ==> r.error == ValueError
  {
    SplitAtDot(body);
    DecimalBodyParts(body);
    var parts := Split(body, ".");
    if |parts| > 2 then Err(ValueError)
    else
      var intText := parts[0];
      var fracText := if |parts| == 2 then parts[1] else "";
      if !AllDigits(intText) || !AllDigits(fracText) || |intText| + |fracText| == 0 then Err(ValueError)
      else
        DropZerosValue(fracText);
        Ok(Decimal(false, DigitsToNat(intText), DropTrailingZeros(fracText)))
  }

  /** `body` is its integer part, then the first '.', then its fractional part. */
  lemma {:induction false} DotParts(body: string)
    ensures '.' in body ==> body == IntPart(body) + "." + FracPart(body)
    ensures '.' !in body ==> IntPart(body) == body && FracPart(body) == ""
    decreases |body|
  {
    if |body| > 0 && body[0] != '.' {
      DotParts(body[1..]);
      assert '.' in body <==> '.' in body[1..] by {
        assert body == [body[0]] + body[1..];
      }
      assert body == [body[0]] + body[1..];
    }
  }

  /**
   * `body.split('.')` in terms of the parts: the first piece is the integer
   * part, and there are more than two pieces exactly when the fractional
   * part holds another '.'.
   */
  lemma SplitAtDot(body: string)
    ensures Split(body, ".")[0] == IntPart(body)
    ensures |Split(body, ".")| <= 2 <==> '.' !in FracPart(body)
    ensures |Split(body, ".")| == 2 ==> Split(body, ".")[1] == FracPart(body)
    ensures |Split(body, ".")| == 1 ==> FracPart(body) == ""
  {
    DotParts(body);
    if '.' !in body {
      SplitNoSeparator(body, ".");
    } else {
      var i, f := IntPart(body), FracPart(body);
      SplitAfterDot(i, f);
      if '.' in f {
        DotParts(f);
        SplitAfterDot(IntPart(f), FracPart(f));
      } else {
        SplitNoSeparator(f, ".");
      }
    }
  }

  /** Cutting at a '.' that no earlier '.' precedes. */
  lemma SplitAfterDot(p: string, x: string)
    requires '.' !in p
    ensures Split(p + "." + x, ".") == [p] + Split(x, ".")
  {
    forall i | 0 <= i < |p| ensures !OccursAt(p + "." + x, ".", i) {
      assert (p + "." + x)[i..i + 1] == [p[i]];
    }
    SplitAtFirst(p, ".", x);
  }

  /**
   * A number's text in terms of its parts: digits on both sides of at most
   * one '.', and at least one digit.
   */
  lemma DecimalBodyParts(body: string)
    ensures DecimalBody(body) <==>
      && AllDigits(IntPart(body)) && AllDigits(FracPart(body))
      && '.' !in FracPart(body)
      && |IntPart(body)| + |FracPart(body)| > 0
  {
    DotParts(body);
    var i, f := IntPart(body), FracPart(body);
    if '.' !in body {
      if DecimalBody(body) {
        var k :| 0 <= k < |body| && IsDigit(body[k]);
      }
      if AllDigits(body) && |body| > 0 {
        assert IsDigit(body[0]);
      }
    } else {
      assert body[|i|] == '.';
      if DecimalBody(body) {
        forall k | 0 <= k < |f| ensures IsDigit(f[k]) {
          assert body[|i| + 1 + k] == f[k];
        }
        forall k | 0 <= k < |i| ensures IsDigit(i[k]) {
          assert body[k] == i[k];
        }
        var k :| 0 <= k < |body| && IsDigit(body[k]);
        assert k != |i|;
      }
      if AllDigits(i) && AllDigits(f) && '.' !in f && |i| + |f| > 0 {
        forall k | 0 <= k < |body| && k != |i| ensures IsDigit(body[k]) {
          if k < |i| {
            assert body[k] == i[k];
          } else {
            assert body[k] == f[k - |i| - 1];
          }
        }
        if |i| > 0 {
          assert body[0] == i[0];
        } else {
          assert body[|i| + 1] == f[0];
        }
      }
    }
  }

  /** A trailing '0' adds nothing to the value of fractional digits. */
  lemma {:induction false} FracValueTrailingZero(s: string)
    requires AllDigits(s)
    ensures AllDigits(s + "0") && FracValue(s + "0") == FracValue(s)
    decreases |s|
  {
    if |s| > 0 {
      assert (s + "0")[1..] == s[1..] + "0";
      FracValueTrailingZero(s[1..]);
    } else {
      assert FracValue("0"[1..]) == 0.0;
    }
  }

  /** Dropping the trailing zeros keeps the value of fractional digits. */
  lemma {:induction false} DropZerosValue(s: string)
    requires AllDigits(s)
    ensures AllDigits(DropTrailingZeros(s))
    ensures FracValue(DropTrailingZeros(s)) == FracValue(s)
    decreases |s|
  {
    if |s| > 0 && Last(s) == '0' {
      var init := s[..|s| - 1];
      DropZerosValue(init);
      FracValueTrailingZero(init);
      assert init + "0" == s;
    }
  }

  /** Python's `int(x)`: truncation toward zero. */
  function Trunc(d: Decimal): (n: int)
    requires Canonical(d)
    ensures !d.negative ==> n as real <= Value(d) < n as real + 1.0
    ensures d.negative ==> n as real - 1.0 < Value(d) <= n as real
    ensures d.negative ==> n <= 0
    ensures !d.negative ==> n >= 0
  {
    if d.negative then -(d.whole as int) else d.whole
  }

  /** The unsigned part of a repr: whole digits, '.', fractional digits. */
  function ReprBody(d: Decimal): string {
    NatToDigits(d.whole) + "." + (if |d.frac| == 0 then "0" else d.frac)
  }

  lemma ParseReprBody(d: Decimal)
    requires Canonical(d)
    ensures Split(ReprBody(d), ".") == [NatToDigits(d.whole), if |d.frac| == 0 then "0" else d.frac]
  {
    var digits := NatToDigits(d.whole);
    var fracText := if |d.frac| == 0 then "0" else d.frac;
    assert forall c | c in digits :: IsDigit(c);
    assert forall c | c in fracText :: IsDigit(c);
    assert Join([digits, fracText], ".") == ReprBody(d);
    SplitJoin([digits, fracText], ".");
  }

  lemma ReprStripped(d: Decimal)
    requires Canonical(d)
    ensures Strip(Repr(d), Whitespace) == Repr(d)
  {
    var s := Repr(d);
    var fracText := if |d.frac| == 0 then "0" else d.frac;
    assert s[|s| - 1] == fracText[|fracText| - 1];
    assert !d.negative ==> s[0] == NatToDigits(d.whole)[0];
    StripNoop(s, Whitespace);
  }

  lemma ParseReprMagnitude(d: Decimal)
    requires Canonical(d)
    ensures ParseMagnitude(ReprBody(d)) == Ok(d.(negative := false))
  {
    ParseReprBody(d);
    DigitsRoundTrip(d.whole);
    var fracText := if |d.frac| == 0 then "0" else d.frac;
    assert DropTrailingZeros(fracText) == d.frac;
  }

  lemma ParseSignedRepr(d: Decimal)
    requires Canonical(d)
    ensures ParseSigned(Repr(d)) == Ok(d)
  {
    var body := ReprBody(d);
    ParseReprMagnitude(d);
    assert body[0] == NatToDigits(d.whole)[0];
    assert IsDigit(body[0]);
    if d.negative {
      assert Repr(d) == "-" + body;
      ParseSignedNegative(body, d);
    } else {
      assert Repr(d) == body;
      ParseSignedUnsigned(body, d);
    }
  }

  /** A '-' followed by a magnitude parses as that magnitude, negated. */
  lemma ParseSignedNegative(body: string, d: Decimal)
    requires d.negative && ParseMagnitude(body) == Ok(d.(negative := false))
    ensures ParseSigned("-" + body) == Ok(d)
  {
    var t := "-" + body;
    assert t[0] == '-' && t[1..] == body;
  }

  /** A magnitude starting with a digit parses as itself. */
  lemma ParseSignedUnsigned(body: string, d: Decimal)
    requires !d.negative && |body| > 0 && IsDigit(body[0])
    requires ParseMagnitude(body) == Ok(d.(negative := false))
    ensures ParseSigned(body) == Ok(d)
  {
  }

  /** Parsing the repr of a float gives the float back. */
  lemma ReprRoundTrip(d: Decimal)
    requires Canonical(d)
    ensures ParseFloat(Repr(d)) == Ok(d)
  {
    ReprStripped(d);
    ParseSignedRepr(d);
  }

  /** A repr consists of a sign, digits and one '.', so it never contains '_'. */
  lemma ReprHasNoUnderscore(d: Decimal)
    requires Canonical(d)
    ensures '_' !in Repr(d)
  {
    var fracText := if |d.frac| == 0 then "0" else d.frac;
    assert forall c | c in NatToDigits(d.whole) :: IsDigit(c);
    assert forall c | c in fracText :: IsDigit(c);
  }

  /** The characters a repr is written with. */
  predicate ReprChar(c: char) {
    IsDigit(c) || c == '-' || c == '.'
  }

  /** A repr is made of digits, '-' and '.'; it starts with a digit or '-' and ends with a digit. */
  lemma ReprChars(d: Decimal)
    requires Canonical(d)
    ensures forall k | 0 <= k < |Repr(d)| :: ReprChar(Repr(d)[k])
    ensures IsDigit(Repr(d)[0]) || Repr(d)[0] == '-'
    ensures IsDigit(Repr(d)[|Repr(d)| - 1])
  {
    var digits := NatToDigits(d.whole);
    var fracText := if |d.frac| == 0 then "0" else d.frac;
    var s := Repr(d);
    assert s == (if d.negative then "-" else "") + digits + "." + fracText;
    forall k | 0 <= k < |s| ensures ReprChar(s[k]) {
      var sign := if d.negative then "-" else "";
      if k < |sign| {
      } else if k < |sign| + |digits| {
        assert s[k] == digits[k - |sign|];
      } else if k == |sign| + |digits| {
      } else {
        assert s[k] == fracText[k - |sign| - |digits| - 1];
      }
    }
    assert !d.negative ==> s[0] == digits[0];
    assert s[|s| - 1] == fracText[|fracText| - 1];
  }

  /** `float()` ignores a space before the repr, as in numpy's "[ 12.5, 34. ]". */
  lemma PaddedReprRoundTrip(d: Decimal)
    requires Canonical(d)
    ensures ParseFloat(" " + Repr(d)) == Ok(d)
  {
    ReprChars(d);
    var s := Repr(d);
    assert " " + s + "" == " " + s;
    StripPadded(" ", s, "", Whitespace);
    ParseSignedRepr(d);
  }
}
