/**
 * Decimal text as the window uses it: `int.ToString()` for the record labels and the
 * automatically filled RAM box, `char.IsDigit` for the input checks and `Convert.ToInt32`
 * for turning the checked text into a number. `char.IsDigit` accepts every decimal digit
 * of Unicode, `Convert.ToInt32` only the ASCII ones.
 */
module Digits {
  import opened Base

  /** Largest value of a C# `int`. */
  const INT32_MAX: int := 0x7fff_ffff

  predicate IsDigit(c: char) {
    '0' <= c <= '9'
  }

  predicate AllDigits(s: string) {
    forall k :: 0 <= k < |s| ==> IsDigit(s[k])
  }

  /**
   * The decimal digits outside ASCII that `char.IsDigit` also accepts: the ten-character
   * blocks of Unicode category Nd in the Basic Multilingual Plane (a C# `char` is one
   * UTF-16 unit), from Arabic-Indic to fullwidth digits.
   */
  predicate IsOtherDigit(c: char) {
    var n := c as int;
    || 0x0660 <= n <= 0x0669 || 0x06F0 <= n <= 0x06F9 || 0x07C0 <= n <= 0x07C9
    || 0x0966 <= n <= 0x096F || 0x09E6 <= n <= 0x09EF || 0x0A66 <= n <= 0x0A6F
    || 0x0AE6 <= n <= 0x0AEF || 0x0B66 <= n <= 0x0B6F || 0x0BE6 <= n <= 0x0BEF
    || 0x0C66 <= n <= 0x0C6F || 0x0CE6 <= n <= 0x0CEF || 0x0D66 <= n <= 0x0D6F
    || 0x0DE6 <= n <= 0x0DEF || 0x0E50 <= n <= 0x0E59 || 0x0ED0 <= n <= 0x0ED9
    || 0x0F20 <= n <= 0x0F29 || 0x1040 <= n <= 0x1049 || 0x1090 <= n <= 0x1099
    || 0x17E0 <= n <= 0x17E9 || 0x1810 <= n <= 0x1819 || 0x1946 <= n <= 0x194F
    || 0x19D0 <= n <= 0x19D9 || 0x1A80 <= n <= 0x1A89 || 0x1A90 <= n <= 0x1A99
    || 0x1B50 <= n <= 0x1B59 || 0x1BB0 <= n <= 0x1BB9 || 0x1C40 <= n <= 0x1C49
    || 0x1C50 <= n <= 0x1C59 || 0xA620 <= n <= 0xA629 || 0xA8D0 <= n <= 0xA8D9
    || 0xA900 <= n <= 0xA909 || 0xA9D0 <= n <= 0xA9D9 || 0xA9F0 <= n <= 0xA9F9
    || 0xAA50 <= n <= 0xAA59 || 0xABF0 <= n <= 0xABF9 || 0xFF10 <= n <= 0xFF19
  }

  /** `char.IsDigit`. */
  predicate CharIsDigit(c: char) {
    IsDigit(c) || IsOtherDigit(c)
  }

  /** `s.All(char.IsDigit)`. */
  predicate AllCharIsDigit(s: string) {
    forall k :: 0 <= k < |s| ==> CharIsDigit(s[k])
  }

  function DigitValue(c: char): (d: nat)
    requires IsDigit(c)
    ensures d < 10
  {
    c as int - '0' as int
  }

  function DigitChar(d: nat): (c: char)
    requires d < 10
    ensures IsDigit(c) && DigitValue(c) == d
  {
    ('0' as int + d) as char
  }

  /** The number a string of decimal digits denotes; leading zeros are allowed. */
  function ParseDigits(s: string): nat
    requires AllDigits(s)
    decreases |s|
  {
    if s == [] then 0 else 10 * ParseDigits(s[..|s| - 1]) + DigitValue(s[|s| - 1])
  }

  /** Appending a digit multiplies the value by ten and adds the digit. */
  lemma ParseAppend(s: string, c: char)
    requires AllDigits(s) && IsDigit(c)
    ensures AllDigits(s + [c]) && ParseDigits(s + [c]) == 10 * ParseDigits(s) + DigitValue(c)
  {
    assert (s + [c])[..|s|] == s;
  }

  function Pow10(k: nat): nat {
    if k == 0 then 1 else 10 * Pow10(k - 1)
  }

  /** `n.ToString()` for a non-negative `n`: its shortest decimal representation. */
  function Decimal(n: nat): (s: string)
    ensures |s| >= 1 && AllDigits(s)
    ensures |s| > 1 ==> s[0] != '0'
    decreases n
  {
    if n < 10 then [DigitChar(n)] else Decimal(n / 10) + [DigitChar(n % 10)]
  }

  /** Reading back what `ToString()` wrote gives the number again. */
  lemma {:induction false} ParseDecimal(n: nat)
    ensures ParseDigits(Decimal(n)) == n
    decreases n
  {
    if n >= 10 {
      var s := Decimal(n);
      assert s[..|s| - 1] == Decimal(n / 10);
      ParseDecimal(n / 10);
    }
  }

  /** Different numbers get different labels. */
  lemma DecimalInjective(m: nat, n: nat)
    ensures Decimal(m) == Decimal(n) <==> m == n
  {
    ParseDecimal(m);
    ParseDecimal(n);
  }

  /** What `Convert.ToInt32` does with a string: a value, or the exception it throws. */
  datatype Conversion = Converted(value: int) | FormatError | OverflowError

  /**
   * `Convert.ToInt32` of a string that passed `char.IsDigit`: a `FormatException` when it is
   * empty or some digit is not ASCII, an `OverflowException` when the value does not fit in
   * an `int`.
   */
  function ConvertToInt32(s: string): (r: Conversion)
    requires AllCharIsDigit(s)
    ensures r.FormatError? <==> s == [] || !AllDigits(s)
    ensures r.OverflowError? <==> s != [] && AllDigits(s) && ParseDigits(s) > INT32_MAX
    ensures r.Converted? ==> s != [] && AllDigits(s) && r.value == ParseDigits(s) && 0 <= r.value <= INT32_MAX
  {
    if s == [] || !AllDigits(s) then FormatError
    else if ParseDigits(s) > INT32_MAX then OverflowError
    else Converted(ParseDigits(s))
  }
}
