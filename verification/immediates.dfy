/** `parse_imm`: immediate literals in bases 16, 8, 2 and 10. */
module Immediates {
  import opened Wrappers
  import opened Text
  import opened Numerals

  /** IMMIDIATE_LIMIT: the largest immediate accepted. */
  const ImmediateLimit: int := 255

  /** The three messages `parse_imm` raises `ImmidiateError` with. */
  datatype ImmediateError =
    | BadDigits(base: nat, digits: string)  // 'Invalid Immidiate value with base {}: {}'
    | BadValue(digits: string)              // 'Invalid Immidiate value: {}'
    | TooBig                                // 'Immidiate value to big: {}, limit is 255', never formatted

  predicate IsPrefixBase(base: nat) {
    base == 16 || base == 8 || base == 2
  }

  /** The characters allowed after the prefix of each base. */
  function Alphabet(base: nat): string
    requires IsPrefixBase(base)
  {
    if base == 16 then HexDigits else if base == 8 then OctalDigits else BinaryDigits
  }

  /** The base a two-character prefix selects, if it is one of the six. */
  function PrefixBase(head: string): (b: Option<nat>)
    ensures b.Some? ==> IsPrefixBase(b.value)
    ensures b.Some? ==> |head| == 2 && head[0] == '0' && !IsDigit(head[1])
  {
    if head == "0x" || head == "0X" then Some(16)
    else if head == "0o" || head == "0O" then Some(8)
    else if head == "0b" || head == "0B" then Some(2)
    else None
  }

  /** The first two characters of a token (fewer if it is shorter). */
  function Head(st: string): string {
    if |st| < 2 then st else st[..2]
  }

  /** The limit check applied to every parsed value. */
  function Bounded(v: int): (r: Result<int, ImmediateError>)
    ensures r.Success? <==> v <= ImmediateLimit
    ensures r.Success? ==> r.value == v
    ensures r.Failure? ==> r.error == TooBig
  {
    if v > ImmediateLimit then Failure(TooBig) else Success(v)
  }

  /** The alphabet of a base admits exactly the digits valued below it. */
  lemma AlphabetIsNumeral(s: string, base: nat)
    requires IsPrefixBase(base)
    ensures ContainsOnly(s, Alphabet(base)) <==> IsNumeral(s, base)
  {
  }

  /** `int(s, 10)` as an optional sign followed by decimal digits. */
  function IntDecimal(s: string): (v: Option<int>)
    ensures v.Some? <==>
      || (|s| >= 1 && AllDigits(s))
      || (|s| >= 2 && (s[0] == '+' || s[0] == '-') && AllDigits(s[1..]))
    ensures v.Some? && AllDigits(s) ==> v.value == DecimalValue(s)
    ensures v.Some? && s[0] == '+' ==> v.value == DecimalValue(s[1..])
    ensures v.Some? && s[0] == '-' ==> v.value == 0 - DecimalValue(s[1..])
  {
    if |s| >= 1 && (s[0] == '+' || s[0] == '-') then
      var digits := s[1..];
      if |digits| >= 1 && AllDigits(digits) then
        var n: int := DecimalValue(digits);
        Some(if s[0] == '-' then -n else n)
      else None
    else if |s| >= 1 && AllDigits(s) then Some(DecimalValue(s))
    else None
  }

  /** The prefixed branch: the digits after the prefix must come from the
      base's alphabet, and `int` then rejects only the empty string. */
  function Prefixed(digits: string, base: nat): (r: Result<int, ImmediateError>)
    requires IsPrefixBase(base)
  {
    if !ContainsOnly(digits, Alphabet(base)) then Failure(BadDigits(base, digits))
    else if |digits| == 0 then Failure(BadValue(digits))
    else
      AlphabetIsNumeral(digits, base);
      Bounded(DigitsValue(digits, base))
  }

  /** `parse_imm(st)` */
  function ParseImm(st: string): (r: Result<int, ImmediateError>)
    ensures r.Success? ==> r.value <= ImmediateLimit
    ensures r.Success? && PrefixBase(Head(st)).Some? ==> r.value >= 0
    ensures PrefixBase(Head(st)).Some? && !IsNumeral(st[2..], PrefixBase(Head(st)).value) ==>
      r == Failure(BadDigits(PrefixBase(Head(st)).value, st[2..]))
  {
    match PrefixBase(Head(st))
    case Some(base) =>
      AlphabetIsNumeral(st[2..], base);
      Prefixed(st[2..], base)
    case None =>
      match IntDecimal(st)
      case Some(v) => Bounded(v)
      case None => Failure(BadValue(st))
  }

  /** A prefixed literal reads back the number its digits spell in the
      prefix's base, up to the limit; the prefix's letter may be of either case. */
  lemma PrefixedRoundTrip(head: string, v: nat)
    requires PrefixBase(head).Some?
    ensures var base := PrefixBase(head).value;
      ParseImm(head + ToDigits(v, base)) == if v <= 255 then Success(v) else Failure(TooBig)
  {
    var base := PrefixBase(head).value;
    var digits := ToDigits(v, base);
    var st := head + digits;
    assert |head| == 2;
    assert Head(st) == head && st[2..] == digits;
    AlphabetIsNumeral(digits, base);
  }

  /** A prefixed literal is accepted exactly when at least one digit of the
      base follows the prefix and the digits spell at most 255, and then its
      value is what they spell. */
  lemma PrefixedCases(st: string)
    requires PrefixBase(Head(st)).Some?
    ensures var base := PrefixBase(Head(st)).value; var digits := st[2..];
      && (ParseImm(st).Success? <==>
            |digits| > 0 && IsNumeral(digits, base) && DigitsValue(digits, base) <= 255)
      && (ParseImm(st).Success? ==> ParseImm(st).value == DigitsValue(digits, base))
  {
    AlphabetIsNumeral(st[2..], PrefixBase(Head(st)).value);
  }

  /** A prefix with nothing after it is rejected by `int`. */
  lemma PrefixAlone(head: string)
    requires PrefixBase(head).Some?
    ensures ParseImm(head) == Failure(BadValue(""))
  {
    assert |head| == 2 && Head(head) == head && head[2..] == "";
  }

  /** Without a prefix the token is read as a signed decimal: it is accepted
      exactly when `int` accepts it and the value is at most 255, and a token
      `int` rejects is reported whole. */
  lemma DecimalCases(st: string)
    requires PrefixBase(Head(st)).None?
    ensures ParseImm(st).Success? <==> IntDecimal(st).Some? && IntDecimal(st).value <= ImmediateLimit
    ensures ParseImm(st).Success? ==> ParseImm(st).value == IntDecimal(st).value
    ensures IntDecimal(st).None? ==> ParseImm(st) == Failure(BadValue(st))
  {
  }

  /** A decimal literal reads back its value up to the limit. */
  lemma DecimalRoundTrip(n: nat)
    ensures ParseImm(DecimalString(n)) == if n <= 255 then Success(n) else Failure(TooBig)
  {
    var st := DecimalString(n);
    assert |st| >= 2 ==> IsDigit(Head(st)[1]);
  }

  /** There is no lower bound: every negative decimal is accepted. */
  lemma NegativeDecimal(n: nat)
    ensures ParseImm("-" + DecimalString(n)) == Success(0 - n)
  {
    var st := "-" + DecimalString(n);
    assert Head(st)[0] == '-';
    assert st[1..] == DecimalString(n);
  }
}
