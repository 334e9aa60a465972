/** Decimal numbers as the parsers read them: Python's `float()` on the
    digit-and-point strings the cleaners leave behind, read as an exact
    `real`, and `round(x, 2)`. */
module Numbers {
  import opened Text

  function DigitValue(c: char): nat
    requires IsDigit(c)
  {
    c as int - '0' as int
  }

  function Pow10(n: nat): (p: nat)
    ensures p >= 1
  {
    if n == 0 then 1 else 10 * Pow10(n - 1)
  }

  /** The value of a string of decimal digits, most significant first. */
  function DigitsValue(ds: string): nat
    requires AllDigits(ds)
    decreases |ds|
  {
    if ds == [] then 0 else 10 * DigitsValue(ds[..|ds| - 1]) + DigitValue(ds[|ds| - 1])
  }

  /** A digit string of length n denotes a number below 10^n. */
  lemma {:induction false} DigitsValueBound(ds: string)
    requires AllDigits(ds)
    ensures DigitsValue(ds) < Pow10(|ds|)
    decreases |ds|
  {
    if ds != [] {
      DigitsValueBound(ds[..|ds| - 1]);
    }
  }

  /** The digit string of `n`, zero-padded to `width` characters. */
  function PadDigits(n: nat, width: nat): (s: string)
    ensures |s| == width && AllDigits(s)
  {
    if width == 0 then [] else PadDigits(n / 10, width - 1) + [('0' as int + n % 10) as char]
  }

  /** Reading a padded digit string gives the number back when it fits. */
  lemma {:induction false} PadDigitsValue(n: nat, width: nat)
    requires n < Pow10(width)
    ensures DigitsValue(PadDigits(n, width)) == n
  {
    if width > 0 {
      PadDigitsValue(n / 10, width - 1);
      var s := PadDigits(n, width);
      assert s[..|s| - 1] == PadDigits(n / 10, width - 1);
    }
  }

  /** A leading zero does not change the value of a digit string. */
  lemma {:induction false} DigitsValueLeadingZero(t: string)
    requires AllDigits(t)
    ensures DigitsValue("0" + t) == DigitsValue(t)
    decreases |t|
  {
    var u := "0" + t;
    if t == [] {
      assert u[..0] == [];
    } else {
      assert u[..|u| - 1] == "0" + t[..|t| - 1];
      DigitsValueLeadingZero(t[..|t| - 1]);
    }
  }

  /** The text shapes Python's `float()` accepts among strings of digits and
      points: at most one point and at least one digit. */
  predicate DecimalShape(s: string)
  {
    (forall i :: 0 <= i < |s| ==> IsDigit(s[i]) || s[i] == '.')
    && (forall i, j :: 0 <= i < j < |s| && s[i] == '.' ==> s[j] != '.')
    && HasDigit(s)
  }

  /** Python's `float(s)`, exactly, on strings whose characters are digits,
      points or anything else that makes `float` raise: "12", "12.5", ".5" and
      "12." parse; "", "." and "1.2.3" do not (None stands for the raise). */
  function ParseDecimal(s: string): (r: Option<real>)
    ensures r.Some? ==> r.value >= 0.0
  {
    match IndexOf(s, '.', 0)
    case None =>
      if s != [] && AllDigits(s) then Some(DigitsValue(s) as real) else None
    case Some(i) =>
      var whole, frac := s[..i], s[i + 1..];
      if AllDigits(whole) && AllDigits(frac) && (whole != [] || frac != []) then
        Some(DigitsValue(whole) as real + DigitsValue(frac) as real / Pow10(|frac|) as real)
      else None
  }

  /** `float` accepts exactly the decimal shapes. */
  lemma ParseDecimalDefined(s: string)
    ensures ParseDecimal(s).Some? <==> DecimalShape(s)
  {
    match IndexOf(s, '.', 0)
    case None =>
      if DecimalShape(s) {
        var k :| 0 <= k < |s| && IsDigit(s[k]);
      }
    case Some(i) =>
      var whole, frac := s[..i], s[i + 1..];
      assert ParseDecimal(s).Some? <==> AllDigits(whole) && AllDigits(frac) && (whole != [] || frac != []);
      if AllDigits(whole) && AllDigits(frac) && (whole != [] || frac != []) {
        PointedIsShape(s, i, whole, frac);
      }
      if DecimalShape(s) {
        ShapeIsPointed(s, i, whole, frac);
      }
  }

  /** Digits, one point, digits, with a digit somewhere, is a decimal shape. */
  lemma PointedIsShape(s: string, i: nat, whole: string, frac: string)
    requires i < |s| && s[i] == '.' && whole == s[..i] && frac == s[i + 1..]
    requires AllDigits(whole) && AllDigits(frac) && (whole != [] || frac != [])
    ensures DecimalShape(s)
  {
    forall k | 0 <= k < |s| ensures IsDigit(s[k]) || s[k] == '.' {
      if k < i { assert s[k] == whole[k]; }
      else if k > i { assert s[k] == frac[k - i - 1]; }
    }
    forall a | 0 <= a < i ensures s[a] != '.' { assert s[a] == whole[a]; }
    forall b | i < b < |s| ensures s[b] != '.' { assert s[b] == frac[b - i - 1]; }
    if whole != [] { assert IsDigit(s[0]); }
    else { assert IsDigit(s[i + 1]); }
  }

  /** A decimal shape splits at its first point into two digit runs, not both
      empty. */
  lemma ShapeIsPointed(s: string, i: nat, whole: string, frac: string)
    requires i < |s| && s[i] == '.' && whole == s[..i] && frac == s[i + 1..]
    requires forall k :: 0 <= k < i ==> s[k] != '.'
    requires DecimalShape(s)
    ensures AllDigits(whole) && AllDigits(frac) && (whole != [] || frac != [])
  {
    forall a | 0 <= a < |whole| ensures IsDigit(whole[a]) { assert whole[a] == s[a]; }
    forall a | 0 <= a < |frac| ensures IsDigit(frac[a]) {
      assert frac[a] == s[i + 1 + a];
    }
    var k :| 0 <= k < |s| && IsDigit(s[k]);
    if k < i { assert whole[k] == s[k]; } else { assert frac[k - i - 1] == s[k]; }
  }

  /** Python's `round(x, 2)` on the exact value: the nearest hundredth, a tie
      going to the even hundredth. */
  function Round2(x: real): (r: real)
    ensures -0.005 <= r - x <= 0.005
    ensures (r * 100.0).Floor as real == r * 100.0
  {
    var y := x * 100.0;
    var f := y.Floor;
    var d := y - f as real;
    var n := if d < 0.5 then f else if d > 0.5 then f + 1 else if f % 2 == 0 then f else f + 1;
    n as real / 100.0
  }

  /** A non-empty digit string parses as its value. */
  lemma ParseDecimalDigits(s: string)
    requires s != [] && AllDigits(s)
    ensures ParseDecimal(s) == Some(DigitsValue(s) as real)
  {
    assert forall k :: 0 <= k < |s| ==> s[k] != '.';
  }
}
