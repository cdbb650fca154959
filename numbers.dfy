/** Python's `int()` and `float()` as the core applies them: to the digit
    groups the log patterns capture and to configuration values. */
module Numbers {
  import opened Values
  import opened Text

  predicate IsDigit(c: char) { '0' <= c <= '9' }

  predicate AllDigits(s: string) {
    forall i :: 0 <= i < |s| ==> IsDigit(s[i])
  }

  function DigitValue(c: char): nat
    requires IsDigit(c)
  {
    c as int - '0' as int
  }

  function DigitChar(d: nat): (c: char)
    requires d < 10
    ensures IsDigit(c) && DigitValue(c) == d
  {
    ('0' as int + d) as char
  }

  /** The number a string of decimal digits denotes, leading zeros allowed
      (the empty string denotes 0). */
  function DigitsValue(s: string): nat
    requires AllDigits(s)
  {
    if s == [] then 0 else DigitsValue(s[..|s| - 1]) * 10 + DigitValue(s[|s| - 1])
  }

  /** Python's `str(n)` for a natural number. */
  function NatToString(n: nat): (s: string)
    ensures s != [] && AllDigits(s)
    ensures IsTrimmed(s)
  {
    if n < 10 then [DigitChar(n)] else NatToString(n / 10) + [DigitChar(n % 10)]
  }

  /** Python's `str(i)` for an integer. */
  function IntToString(i: int): string {
    if i < 0 then "-" + NatToString(-i) else NatToString(i)
  }

  /** Reading back the decimal rendering of `n` gives `n`. */
  lemma {:induction false} DigitsValueOfNatToString(n: nat)
    ensures DigitsValue(NatToString(n)) == n
  {
    if n >= 10 {
      var s := NatToString(n);
      assert s[..|s| - 1] == NatToString(n / 10);
      DigitsValueOfNatToString(n / 10);
    }
  }

  /** A digit string with a digit appended denotes ten times as much plus
      that digit; the base case of reading numbers left to right. */
  lemma DigitsValueAppend(s: string, c: char)
    requires AllDigits(s) && IsDigit(c)
    ensures AllDigits(s + [c]) && DigitsValue(s + [c]) == DigitsValue(s) * 10 + DigitValue(c)
  {
    assert (s + [c])[..|s|] == s;
  }

  /** An optional `+` or `-` and then one or more ASCII digits. */
  predicate IsIntLiteral(t: string) {
    t != [] && var d := if t[0] == '+' || t[0] == '-' then t[1..] else t; d != [] && AllDigits(d)
  }

  /** Python's `int(text)` on a `str`: surrounding whitespace is ignored, then
      an optional `+` or `-` and one or more ASCII digits. Anything else
      (including blank text) raises, which is `None` here. */
  function ParseInt(text: string): (r: Option<int>)
    ensures r.Some? <==> IsIntLiteral(Strip(text))
    ensures Strip(text) == [] ==> r.None?
    ensures r.Some? && r.value < 0 ==> Strip(text)[0] == '-'
  {
    var t := Strip(text);
    if t != [] && (t[0] == '+' || t[0] == '-') then
      var digits := t[1..];
      if digits != [] && AllDigits(digits) then
        var n: int := DigitsValue(digits);
        Some(if t[0] == '-' then -n else n)
      else None
    else if t != [] && AllDigits(t) then Some(DigitsValue(t))
    else None
  }

  /** A non-empty digit string, as the `([0-9]+)` groups capture, converts
      to the number it denotes. */
  lemma ParseIntOfDigits(s: string)
    requires s != [] && AllDigits(s)
    ensures ParseInt(s) == Some(DigitsValue(s))
  {
    StripTrimmed(s);
  }

  /** `int(str(i)) == i` for every integer. */
  lemma ParseIntOfIntToString(i: int)
    ensures ParseInt(IntToString(i)) == Some(i)
  {
    var s := IntToString(i);
    if i < 0 {
      var d := NatToString(-i);
      assert s == ['-'] + d && s[1..] == d;
      assert s[|s| - 1] == d[|d| - 1];
      StripTrimmed(s);
      DigitsValueOfNatToString(-i);
    } else {
      StripTrimmed(s);
      DigitsValueOfNatToString(i);
    }
  }

  function Pow10(n: nat): (p: nat)
    ensures p > 0
  {
    if n == 0 then 1 else 10 * Pow10(n - 1)
  }

  /** The value of the digits after a decimal point. */
  function FractionValue(frac: string): (v: real)
    requires AllDigits(frac)
    ensures 0.0 <= v
  {
    DigitsValue(frac) as real / Pow10(|frac|) as real
  }

  predicate IsDecimalChar(c: char) { IsDigit(c) || c == '.' }

  predicate AllDecimalChars(s: string) {
    forall i :: 0 <= i < |s| ==> IsDecimalChar(s[i])
  }

  /** Every character of a piece of `s` is one of `s`'s characters. */
  lemma DecimalPieces(s: string, whole: string, frac: string)
    requires AllDecimalChars(s) && s == whole + ['.'] + frac
    requires '.' !in whole && '.' !in frac
    ensures AllDigits(whole) && AllDigits(frac)
  {
    forall i | 0 <= i < |whole| ensures IsDigit(whole[i]) {
      assert whole[i] == s[i];
    }
    forall i | 0 <= i < |frac| ensures IsDigit(frac[i]) {
      assert frac[i] == s[|whole| + 1 + i];
    }
  }

  /** Python's `float(text)` on the strings the `([0-9.]+)` groups capture:
      digits with at most one decimal point and at least one digit. The
      value is exact (binary rounding is not modelled). */
  function ParseDecimal(text: string): (r: Option<real>)
    ensures r.Some? ==> AllDecimalChars(text) && r.value >= 0.0
    ensures r.Some? ==> HasDigit(text)
    ensures AllDigits(text) ==> (r.Some? <==> text != [])
    ensures AllDigits(text) && text != [] ==> r == Some(DigitsValue(text) as real)
  {
    if !AllDecimalChars(text) then None
    else
      match SplitAtFirst(text, '.')
      case None =>
        if text == [] then None else Some(DigitsValue(text) as real)
      case Some((whole, frac)) =>
        if '.' in frac || (whole == [] && frac == []) then None
        else
          DecimalPieces(text, whole, frac);
          if whole != [] then
            assert text[0] == whole[0];
            Some(DigitsValue(whole) as real + FractionValue(frac))
          else
            assert text[1] == frac[0];
            Some(DigitsValue(whole) as real + FractionValue(frac))
  }

  /** Some character is an ASCII digit. */
  predicate HasDigit(s: string) {
    exists k :: 0 <= k < |s| && IsDigit(s[k])
  }

  /** A lone decimal point, which `[0-9.]+` can capture, does not convert. */
  lemma ParseDecimalRejectsPoint()
    ensures ParseDecimal(".") == None
  {
    assert !HasDigit(".");
  }

  lemma NoPointInDigits(s: string)
    requires AllDigits(s)
    ensures '.' !in s
  {
  }

  lemma PointedDecimalChars(w: string, frac: string)
    requires AllDigits(w) && AllDigits(frac)
    ensures AllDecimalChars(w + ['.'] + frac)
  {
    var s := w + ['.'] + frac;
    forall i | 0 <= i < |s| ensures IsDecimalChar(s[i]) {
      if i < |w| { assert s[i] == w[i]; }
      else if i > |w| { assert s[i] == frac[i - |w| - 1]; }
    }
  }

  /** Digits, a point and digits, with at least one digit, convert to the
      whole part plus the fraction; leading zeros (`007.5`) and an empty
      whole part (`.5`) or fraction (`5.`) included. */
  lemma ParseDecimalOfParts(whole: string, frac: string)
    requires AllDigits(whole) && AllDigits(frac) && (whole != [] || frac != [])
    ensures ParseDecimal(whole + "." + frac)
         == Some(DigitsValue(whole) as real + FractionValue(frac))
  {
    var s := whole + "." + frac;
    assert s == whole + ['.'] + frac;
    assert AllDecimalChars(s) by {
      PointedDecimalChars(whole, frac);
    }
    assert SplitAtFirst(s, '.') == Some((whole, frac)) by {
      NoPointInDigits(whole);
      SplitAtFirstOf(whole, '.', frac);
    }
    NoPointInDigits(frac);
    ParseDecimalOfSplit(s, whole, frac);
  }

  /** Decimal characters split at their first point into two parts, with no
      second point and some digit, convert to the whole part plus the
      fraction. */
  lemma ParseDecimalOfSplit(text: string, whole: string, frac: string)
    requires AllDecimalChars(text) && SplitAtFirst(text, '.') == Some((whole, frac))
    requires '.' !in frac && (whole != [] || frac != [])
    ensures AllDigits(whole) && AllDigits(frac)
    ensures ParseDecimal(text) == Some(DigitsValue(whole) as real + FractionValue(frac))
  {
    DecimalPieces(text, whole, frac);
  }

  /** A decimal with a point converts to its whole part plus its fraction. */
  lemma ParseDecimalOfPoint(whole: nat, frac: string)
    requires AllDigits(frac)
    ensures ParseDecimal(NatToString(whole) + "." + frac)
         == Some(whole as real + FractionValue(frac))
  {
    ParseDecimalOfParts(NatToString(whole), frac);
    DigitsValueOfNatToString(whole);
  }

  /** Text with two decimal points (`"1.2.3"`) does not convert. */
  lemma ParseDecimalRejectsTwoPoints(text: string, i: nat, j: nat)
    requires i < j < |text| && text[i] == '.' && text[j] == '.'
    ensures ParseDecimal(text) == None
  {
    if AllDecimalChars(text) {
      var p := SplitAtFirst(text, '.');
      var (whole, frac) := p.value;
      assert |whole| <= i;
      assert frac[j - |whole| - 1] == text[j];
    }
  }
}
