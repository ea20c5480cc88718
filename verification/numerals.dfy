/** Digit strings in bases 2, 8, 10 and 16, most significant digit first,
    as read by Python's `int(s, base)` and written by `str(n)`. */
module Numerals {

  const HexDigits: string := "0123456789abcdefABCDEF"
  const OctalDigits: string := "01234567"
  const BinaryDigits: string := "01"

  predicate IsDigit(c: char) {
    '0' <= c <= '9'
  }

  predicate AllDigits(s: string) {
    forall i :: 0 <= i < |s| ==> IsDigit(s[i])
  }

  predicate IsHexDigit(c: char) {
    IsDigit(c) || 'a' <= c <= 'f' || 'A' <= c <= 'F'
  }

  /** The value of one digit character; letters of either case count 10..15. */
  function DigitValue(c: char): (d: nat)
    requires IsHexDigit(c)
    ensures d < 16
    ensures IsDigit(c) <==> d < 10
  {
    if IsDigit(c) then c as int - '0' as int
    else if 'a' <= c <= 'f' then c as int - 'a' as int + 10
    else c as int - 'A' as int + 10
  }

  /** Digits of `base` (2 to 16), each valued below the base. */
  predicate IsNumeral(s: string, base: nat) {
    forall i :: 0 <= i < |s| ==> IsHexDigit(s[i]) && DigitValue(s[i]) < base
  }

  /** `int(s, base)` on a string of digits. */
  function DigitsValue(s: string, base: nat): (v: nat)
    requires forall i :: 0 <= i < |s| ==> IsHexDigit(s[i])
  {
    if |s| == 0 then 0 else base * DigitsValue(s[..|s| - 1], base) + DigitValue(s[|s| - 1])
  }

  /** The lower-case digit for a value below 16. */
  function DigitChar(d: nat): (c: char)
    requires d < 16
    ensures IsHexDigit(c) && DigitValue(c) == d
    ensures d < 10 ==> IsDigit(c)
  {
    "0123456789abcdef"[d]
  }

  /** The shortest spelling of `n` in `base`; "0" for zero. */
  function ToDigits(n: nat, base: nat): (s: string)
    requires 2 <= base <= 16
    ensures |s| >= 1
    ensures IsNumeral(s, base)
    ensures DigitsValue(s, base) == n
  {
    if n < base then [DigitChar(n)]
    else
      var high := ToDigits(n / base, base);
      var s := high + [DigitChar(n % base)];
      DigitsValueAppend(high, DigitChar(n % base), base);
      DivMod(n, base);
      s
  }

  lemma DigitsValueAppend(s: string, c: char, base: nat)
    requires forall i :: 0 <= i < |s| ==> IsHexDigit(s[i])
    requires IsHexDigit(c)
    ensures forall i :: 0 <= i < |s + [c]| ==> IsHexDigit((s + [c])[i])
    ensures DigitsValue(s + [c], base) == base * DigitsValue(s, base) + DigitValue(c)
  {
    assert (s + [c])[..|s|] == s;
  }

  lemma DivMod(n: nat, base: nat)
    requires base > 0
    ensures n == base * (n / base) + n % base
  {
  }

  /** `str(n)` for a natural number. */
  function DecimalString(n: nat): (s: string)
    ensures |s| >= 1 && AllDigits(s)
    ensures DecimalValue(s) == n
  {
    ToDigits(n, 10)
  }

  /** `int(s)` on a string of decimal digits. */
  function DecimalValue(s: string): nat
    requires AllDigits(s)
  {
    DigitsValue(s, 10)
  }

  /** A leading zero does not change the value of a numeral. */
  lemma {:induction false} LeadingZero(s: string, base: nat)
    requires forall i :: 0 <= i < |s| ==> IsHexDigit(s[i])
    ensures forall i :: 0 <= i < |"0" + s| ==> IsHexDigit(("0" + s)[i])
    ensures DigitsValue("0" + s, base) == DigitsValue(s, base)
    decreases |s|
  {
    if |s| > 0 {
      var t := "0" + s;
      assert t[..|t| - 1] == "0" + s[..|s| - 1];
      LeadingZero(s[..|s| - 1], base);
    }
  }
}
