/** `parse_reg`: register tokens to an index of the 32-entry register file. */
module Registers {
  import opened Wrappers
  import opened Text
  import opened Numerals

  /** REGISTER_NUMBER: the size of the register file. */
  const RegisterNumber: nat := 32

  /** The only characters a lower-cased register token may contain. */
  const RegisterAlphabet: string := "0123456789rasgfptxzeo"

  /** The three messages `parse_reg` raises `RegisterError` with. */
  datatype RegisterError =
    | FormatError(token: string)              // 'Invalid register format: {}'
    | IndexError(suffix: string)              // 'Invalid register index: {}'
    | LimitError(suffix: string, limit: nat)  // 'Invalid register index: {}, limit is {}'

  /** The named registers, matched on the lower-cased token, and the index of
      the `x` register each one is rewritten to. This numbering is the
      assembler's own: `t0` is x6, not x5. */
  const Aliases: map<string, nat> := map[
    "zero" := 0, "ra" := 1, "sp" := 2, "gp" := 3, "tp" := 4,
    "t0" := 6, "t1" := 7, "t2" := 8, "s0" := 8, "fp" := 8, "s1" := 9]

  /** Family letters of the numbered-register rule, as the branch bodies intend. */
  const Families: set<char> := {'a', 't', 's', 'x'}

  /** Family letters the prefix test lists, its call repaired to the tuple
      form; it leaves out 's'. */
  const FamiliesAsWritten: set<char> := {'a', 't', 'x'}

  /** The rewritten form `x<N>` is resolved without a further rewrite. */
  function Rank(st: string): nat {
    if |st| > 0 && st[0] == 'x' then 0 else 1
  }

  /** The canonical spelling of register N. */
  function XName(n: nat): string {
    "x" + DecimalString(n)
  }

  /** A family letter followed by a digit, tested on the token as given. */
  predicate FamilyShape(families: set<char>, st: string) {
    |st| >= 2 && st[0] in families && IsDigit(st[1])
  }

  lemma AliasKeys(k: string)
    requires k in Aliases
    ensures |k| >= 2 && k[0] != 'x'
    ensures |k| == 2 || k == "zero"
    ensures ContainsOnly(k, RegisterAlphabet)
    ensures k[0] in Families ==> |k| == 2
  {
  }

  /** The numbered-register rule for a family-shaped token: the suffix must be
      decimal digits and at most the family's limit; the result is the index
      of the `x` register the token stands for. The `x` family cites
      REGISTER_NUMBER as its limit. */
  function Numbered(st: string): (r: Result<nat, RegisterError>)
    requires |st| >= 2 && st[0] in Families
    ensures r.Success? ==> r.value < RegisterNumber
    ensures r.Failure? ==> r.error.IndexError? || r.error.LimitError?
  {
    var suffix := st[1..];
    if !AllDigits(suffix) then Failure(IndexError(suffix))
    else
      var n := DecimalValue(suffix);
      if st[0] == 'a' then
        if n > 7 then Failure(LimitError(suffix, 7)) else Success(n + 10)
      else if st[0] == 't' then
        if n > 6 then Failure(LimitError(suffix, 6)) else Success(n + 25)
      else if st[0] == 's' then
        if n > 11 then Failure(LimitError(suffix, 11)) else Success(n + 16)
      else
        if n > 31 then Failure(LimitError(suffix, RegisterNumber)) else Success(n)
  }

  /** `parse_reg` with the family letters of the numbered-register rule as a
      parameter; the alias and family rewrites re-enter it on `x<N>`. */
  function Resolve(families: set<char>, st: string): (r: Result<nat, RegisterError>)
    requires families <= Families
    ensures r.Success? ==> r.value < RegisterNumber
    ensures !ContainsOnly(Lower(st), RegisterAlphabet) ==> r == Failure(FormatError(st))
    decreases Rank(st)
  {
    var low := Lower(st);
    if !ContainsOnly(low, RegisterAlphabet) then Failure(FormatError(st))
    else if low in Aliases then
      AliasKeys(low);
      assert LowerChar(st[0]) == low[0];
      Resolve(families, XName(Aliases[low]))
    else if FamilyShape(families, st) then
      match Numbered(st)
      case Failure(e) => Failure(e)
      case Success(n) => if st[0] == 'x' then Success(n) else Resolve(families, XName(n))
    else Failure(FormatError(st))
  }

  /** `parse_reg(st)` */
  function ParseReg(st: string): (r: Result<nat, RegisterError>)
    ensures r.Success? ==> r.value < RegisterNumber
    ensures !ContainsOnly(Lower(st), RegisterAlphabet) ==> r == Failure(FormatError(st))
  {
    Resolve(Families, st)
  }

  /** `parse_reg(st)` with the family test's letters as listed, which never
      reaches the 's' branch. */
  function ParseRegAsWritten(st: string): Result<nat, RegisterError> {
    Resolve(FamiliesAsWritten, st)
  }

  /** `xN` names register N for every N in 0..31, so every index is reachable
      and the rewrite target of an alias or family resolves to itself. */
  lemma XNameResolves(families: set<char>, n: nat)
    requires families <= Families && 'x' in families
    requires n < RegisterNumber
    ensures Resolve(families, XName(n)) == Success(n)
  {
    XNameFacts(n);
  }

  lemma XNameFacts(n: nat)
    ensures var st := XName(n);
      && |st| >= 2 && st[0] == 'x' && IsDigit(st[1])
      && Lower(st) == st && ContainsOnly(st, RegisterAlphabet) && st !in Aliases
      && AllDigits(st[1..]) && DecimalValue(st[1..]) == n
  {
    var st := XName(n);
    var d := DecimalString(n);
    assert st[0] == 'x' && st[1..] == d && IsDigit(st[1]);
    assert Lower(st) == st by {
      LowerUnchanged(st);
    }
    assert ContainsOnly(st, RegisterAlphabet) by {
      forall i | 0 <= i < |st| ensures st[i] in RegisterAlphabet {
        if i == 0 {
          assert RegisterAlphabet[17] == 'x';
        } else {
          assert st[i] == d[i - 1];
          DigitInAlphabet(d[i - 1]);
        }
      }
    }
    assert st !in Aliases by {
      if st in Aliases {
        AliasKeys(st);
      }
    }
  }

  lemma DigitInAlphabet(c: char)
    requires IsDigit(c)
    ensures c in RegisterAlphabet
  {
    assert RegisterAlphabet[c as int - '0' as int] == c;
  }

  /** Digits and lower-case letters are unchanged by lower-casing. */
  lemma LowerUnchanged(s: string)
    requires forall i :: 0 <= i < |s| ==> !('A' <= s[i] <= 'Z')
    ensures Lower(s) == s
  {
  }

  /** A successfully resolved index, written back as `xN`, resolves to itself. */
  lemma CanonicalFixedPoint(st: string)
    requires ParseReg(st).Success?
    ensures ParseReg(XName(ParseReg(st).value)) == ParseReg(st)
  {
    XNameResolves(Families, ParseReg(st).value);
  }

  /** A token whose lower-cased form is an alias resolves to the alias's
      register, whatever the case of its letters. */
  lemma AliasResolves(st: string)
    requires Lower(st) in Aliases
    ensures ParseReg(st) == Success(Aliases[Lower(st)])
  {
    AliasKeys(Lower(st));
    XNameResolves(Families, Aliases[Lower(st)]);
  }

  /** Aliases are matched regardless of case and before the numbered
      families, so `T0` is x6 rather than the `t` family's x25. */
  lemma AliasBeforeFamily()
    ensures ParseReg("T0") == Success(6)
  {
    assert Lower("T0") == "t0";
    AliasResolves("T0");
  }

  /** Past the aliases, `t3` is the `t` family's first member. */
  lemma FirstTFamilyMember()
    ensures ParseReg("t3") == Success(28)
  {
    assert "t3"[1..] == "3";
    FamilyResolves("t3");
  }

  /** The family rule compares the letter as given, so `T3` is not a register
      although `t3` is. */
  lemma FamilyLetterIsCaseSensitive()
    ensures ParseReg("T3") == Failure(FormatError("T3"))
  {
    assert Lower("T3") == "t3";
    assert "t3" !in Aliases;
    assert !FamilyShape(Families, "T3");
  }

  /** A family letter followed by decimal digits (and not an alias) resolves
      to the family's offset plus the number, or fails citing the family's
      limit: a0..a7 are x10..x17, t3..t6 are x28..x31, s2..s11 are x18..x27,
      x0..x31 are themselves. */
  lemma FamilyResolves(st: string)
    requires |st| >= 2 && st[0] in Families && AllDigits(st[1..])
    requires st !in Aliases
    ensures var n := DecimalValue(st[1..]); var r := ParseReg(st); var digits := st[1..];
      && (st[0] == 'a' ==> r == if n <= 7 then Success(10 + n) else Failure(LimitError(digits, 7)))
      && (st[0] == 't' ==> r == if n <= 6 then Success(25 + n) else Failure(LimitError(digits, 6)))
      && (st[0] == 's' ==> r == if n <= 11 then Success(16 + n) else Failure(LimitError(digits, 11)))
      && (st[0] == 'x' ==> r == if n <= 31 then Success(n) else Failure(LimitError(digits, 32)))
  {
    assert IsDigit(st[1]);
    LowerUnchanged(st);
    assert ContainsOnly(st, RegisterAlphabet);
    assert FamilyShape(Families, st);
    NumberedResolves(Families, st);
  }

  /** A family-shaped token that is not an alias gets the numbered rule's
      result, the rewrite to `x<N>` adding nothing. */
  lemma NumberedResolves(families: set<char>, st: string)
    requires families <= Families && 'x' in families
    requires ContainsOnly(Lower(st), RegisterAlphabet) && Lower(st) !in Aliases
    requires FamilyShape(families, st)
    ensures Resolve(families, st) == Numbered(st)
  {
    if Numbered(st).Success? {
      XNameResolves(families, Numbered(st).value);
    }
  }

  /** A format error is raised exactly when the lower-cased token leaves the
      register alphabet, or when it is neither an alias nor a family letter
      followed by a digit. */
  lemma FormatErrorCases(st: string)
    ensures ParseReg(st) == Failure(FormatError(st)) <==>
      || !ContainsOnly(Lower(st), RegisterAlphabet)
      || (Lower(st) !in Aliases && !FamilyShape(Families, st))
  {
    if !ContainsOnly(Lower(st), RegisterAlphabet) {
    } else if Lower(st) in Aliases {
      AliasResolves(st);
    } else if FamilyShape(Families, st) {
      NumberedResolves(Families, st);
      assert !Numbered(st).Failure? || !Numbered(st).error.FormatError?;
    } else {
      assert ParseReg(st) == Failure(FormatError(st));
    }
  }

  /** Past the alphabet check, a family-shaped token fails with an index error
      naming its suffix exactly when the suffix is not a decimal numeral. */
  lemma IndexErrorCases(st: string)
    requires ContainsOnly(Lower(st), RegisterAlphabet)
    requires FamilyShape(Families, st)
    ensures ParseReg(st) == Failure(IndexError(st[1..])) <==> !AllDigits(st[1..])
  {
    if Lower(st) in Aliases {
      ShapedAlias(st);
      AliasResolves(st);
    } else {
      NumberedResolves(Families, st);
      NumberedIndexError(st);
    }
  }

  lemma NumberedIndexError(st: string)
    requires |st| >= 2 && st[0] in Families
    ensures Numbered(st) == Failure(IndexError(st[1..])) <==> !AllDigits(st[1..])
  {
  }

  /** The family-shaped aliases (t0, t1, t2, s0, s1) have a digit suffix. */
  lemma ShapedAlias(st: string)
    requires Lower(st) in Aliases && FamilyShape(Families, st)
    ensures AllDigits(st[1..])
  {
    assert Lower(st)[0] == st[0];
    AliasKeys(Lower(st));
    assert st[1..] == [st[1]];
  }

  /** Leading zeros pass `int`, so `t00`, `t01` and `t02` reach x25..x27,
      which the aliases `t0`..`t2` do not. */
  lemma ZeroPaddedTSuffix(n: nat)
    requires n <= 2
    ensures ParseReg("t0" + DecimalString(n)) == Success(25 + n)
  {
    ZeroPaddedFacts(n);
    FamilyResolves("t0" + DecimalString(n));
  }

  lemma ZeroPaddedFacts(n: nat)
    requires n <= 2
    ensures var st := "t0" + DecimalString(n);
      && |st| == 3 && st[0] == 't' && AllDigits(st[1..])
      && DecimalValue(st[1..]) == n && st !in Aliases
  {
    var d := DecimalString(n);
    var st := "t0" + d;
    assert |d| == 1 by {
      assert d == [DigitChar(n)];
    }
    assert st[1..] == "0" + d;
    LeadingZero(d, 10);
    if st in Aliases {
      AliasKeys(st);
    }
  }

  /** With the family test's letters as listed, `s2` is a format error ... */
  lemma SFamilyAsWritten()
    ensures ParseRegAsWritten("s2") == Failure(FormatError("s2"))
  {
    LowerUnchanged("s2");
    assert ContainsOnly("s2", RegisterAlphabet);
    assert "s2" !in Aliases;
    assert !FamilyShape(FamiliesAsWritten, "s2");
  }

  /** ... while the `s` branch it cannot reach maps it to x18. */
  lemma SFamilyCorrected()
    ensures ParseReg("s2") == Success(18)
  {
    assert "s2"[1..] == "2";
    FamilyResolves("s2");
  }

  /** The alphabet test as written demands that the token contain every
      character of the alphabet, so it rejects `x1`, which the intended test
      accepts. */
  lemma AlphabetTestAsWritten()
    ensures !ContainsOnlyAsWritten("x1", RegisterAlphabet)
    ensures ContainsOnly("x1", RegisterAlphabet)
  {
    ContainsOnlyAsWrittenMeaning("x1", RegisterAlphabet);
    assert RegisterAlphabet[10] == 'r' && 'r' !in "x1";
    assert RegisterAlphabet[17] == 'x' && RegisterAlphabet[1] == '1';
  }
}
