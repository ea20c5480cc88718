/** `parse` and `compile`: source lines to instruction records. */
module Assembler {
  import opened Wrappers
  import opened Text
  import opened Instructions
  import opened Registers
  import opened Immediates
  import opened Numerals
  import opened Bits

  /** The two exceptions the `li` case catches (and reports). */
  datatype OperandError =
    | RegisterFault(reg: RegisterError)
    | ImmediateFault(imm: ImmediateError)

  /** The `try` block of `li`: the register is parsed first, so a bad register
      is reported even when the immediate is bad too. */
  function LiOperands(reg: string, imm: string): (r: Result<(nat, int), OperandError>)
    ensures r.Success? ==> r.value.0 < RegisterNumber && r.value.1 <= ImmediateLimit
    ensures r.Success? <==> ParseReg(reg).Success? && ParseImm(imm).Success?
    ensures r.Success? ==> r.value == (ParseReg(reg).value, ParseImm(imm).value)
    ensures ParseReg(reg).Failure? ==> r == Failure(RegisterFault(ParseReg(reg).error))
    ensures ParseReg(reg).Success? && ParseImm(imm).Failure? ==>
      r == Failure(ImmediateFault(ParseImm(imm).error))
  {
    match ParseReg(reg)
    case Failure(e) => Failure(RegisterFault(e))
    case Success(wa) =>
      match ParseImm(imm)
      case Failure(e) => Failure(ImmediateFault(e))
      case Success(c) => Success((wa, c))
  }

  /** `li` with exactly two operands. */
  predicate IsLi(words: seq<string>) {
    |words| == 3 && words[0] == "li"
  }

  /** `li` followed by more than two operands. */
  predicate IsLongLi(words: seq<string>) {
    |words| > 3 && words[0] == "li"
  }

  /** The fields `li` never touches keep the constructor's values. */
  predicate KeepsDefaults(i: Instruction) {
    i.B == 0 && i.C == 0 && i.WS == 2 && i.ALUop == 0 && i.RA1 == 0 && i.RA2 == 0
  }

  /** `parse(line)`: only `li` has a body. An `li` with a surplus operand is the
      only `None`; every other line, including one whose operands fail to
      parse, an unknown mnemonic and an empty line, gives an instruction, and
      only a fully parsed `li` changes it from the default. */
  function Parse(line: string): (r: Option<Instruction>)
    ensures r.None? <==> IsLongLi(Split(line))
    ensures r.Some? ==> KeepsDefaults(r.value)
    ensures r.Some? ==> r.value.WA < RegisterNumber && r.value.Const <= ImmediateLimit
    ensures r.Some? ==> (r.value.WE == 1 <==>
      IsLi(Split(line)) && ParseReg(Split(line)[1]).Success? && ParseImm(Split(line)[2]).Success?)
    ensures r.Some? && r.value.WE != 1 ==> r.value == Default
    ensures r.Some? && r.value.WE == 1 ==>
      r.value.WA == ParseReg(Split(line)[1]).value && r.value.Const == ParseImm(Split(line)[2]).value
  {
    var words := Split(line);
    if |words| >= 3 && words[0] == "li" then
      if |words| > 3 then None
      else
        match LiOperands(words[1], words[2])
        case Success((wa, c)) => Some(Default.(WA := wa, Const := c, WE := 1))
        case Failure(_) => Some(Default)
    else Some(Default)
  }

  /** `li reg imm` written with single spaces loads the register index into WA
      and the immediate into Const and sets WE; if either operand fails, the
      default instruction comes back unchanged. */
  lemma LiEncoding(reg: string, imm: string)
    requires |reg| > 0 && NoSpace(reg) && |imm| > 0 && NoSpace(imm)
    ensures ParseReg(reg).Success? && ParseImm(imm).Success? ==>
      Parse("li " + reg + " " + imm)
        == Some(Instruction(0, 0, 1, 2, 0, 0, 0, ParseReg(reg).value, ParseImm(imm).value))
    ensures ParseReg(reg).Failure? || ParseImm(imm).Failure? ==>
      Parse("li " + reg + " " + imm) == Some(Instruction(0, 0, 0, 2, 0, 0, 0, 0, 0))
  {
    var words := ["li", reg, imm];
    SplitUnwords(words);
    assert Unwords(words) == "li" + " " + (reg + " " + imm) by {
      assert words[1..] == [reg, imm];
      assert Unwords(words[1..]) == reg + " " + Unwords([imm]);
    }
    assert "li " + reg + " " + imm == "li" + " " + (reg + " " + imm);
  }

  /** `li xN V`, with N a register index and V a decimal immediate within the
      limit, loads V into register N. */
  lemma LiLoadsRegister(n: nat, v: nat)
    requires n < RegisterNumber && v <= 255
    ensures Parse("li " + XName(n) + " " + DecimalString(v))
      == Some(Instruction(0, 0, 1, 2, 0, 0, 0, n, v))
  {
    var reg := XName(n);
    var imm := DecimalString(v);
    XNameResolves(Families, n);
    DecimalRoundTrip(v);
    OperandsAreWords(n, v);
    LiEncoding(reg, imm);
  }

  /** The register name and the decimal immediate are single words. */
  lemma OperandsAreWords(n: nat, v: nat)
    ensures |XName(n)| > 0 && NoSpace(XName(n))
    ensures |DecimalString(v)| > 0 && NoSpace(DecimalString(v))
  {
    DigitsAreWord(DecimalString(v));
    var d := DecimalString(n);
    DigitsAreWord(d);
    var reg := XName(n);
    assert reg == "x" + d;
    forall i | 0 <= i < |reg| ensures !IsSpace(reg[i]) {
      if i > 0 {
        assert reg[i] == d[i - 1];
      }
    }
  }

  lemma DigitsAreWord(s: string)
    requires AllDigits(s)
    ensures NoSpace(s)
  {
    forall i | 0 <= i < |s| ensures !IsSpace(s[i]) {
      assert IsDigit(s[i]);
    }
  }

  /** A third operand makes `li` return nothing. */
  lemma LiSurplusOperand(reg: string, imm: string, extra: string)
    requires |reg| > 0 && NoSpace(reg) && |imm| > 0 && NoSpace(imm)
    requires |extra| > 0 && NoSpace(extra)
    ensures Parse("li " + reg + " " + imm + " " + extra).None?
  {
    var words := ["li", reg, imm, extra];
    SplitUnwords(words);
    UnwordsFour(words);
    assert "li " + reg + " " + imm + " " + extra == Unwords(words);
  }

  lemma UnwordsFour(words: seq<string>)
    requires |words| == 4
    ensures Unwords(words) == words[0] + " " + words[1] + " " + words[2] + " " + words[3]
  {
    assert Unwords(words[2..]) == words[2] + " " + words[3] by {
      assert words[2..][1..] == [words[3]];
    }
    assert words[1..][1..] == words[2..];
  }

  /** A parsed instruction whose immediate is not negative fits the packing
      layout, so it can be compiled to a word. */
  lemma ParsedFits(line: string)
    requires Parse(line).Some? && Parse(line).value.Const >= 0
    ensures WellFormed(Parse(line).value)
  {
    var i := Parse(line).value;
    assert Pow2(1) == 2 && Pow2(2) == 4 && Pow2(4) == 16;
    assert Pow2(5) == 32 && Pow2(8) == 256;
  }

  /** The lines of a program, as `prog.split('\n')`. */
  function Lines(prog: string): seq<string> {
    SplitOn(prog, '\n')
  }

  /** The results of `f` on each line: nothing if any line gives nothing,
      otherwise one result per line. */
  function CompileLines<T>(f: string -> Option<T>, lines: seq<string>): Option<seq<T>> {
    if |lines| == 0 then Some([])
    else
      match CompileLines(f, lines[..|lines| - 1])
      case None => None
      case Some(front) =>
        match f(lines[|lines| - 1])
        case None => None
        case Some(i) => Some(front + [i])
  }

  /** No line may give nothing, and the results follow the lines in order. */
  lemma {:induction false} CompileLinesMeaning<T>(f: string -> Option<T>, lines: seq<string>)
    ensures CompileLines(f, lines).None? <==> exists j :: 0 <= j < |lines| && f(lines[j]).None?
    ensures CompileLines(f, lines).Some? ==> |CompileLines(f, lines).value| == |lines|
    ensures CompileLines(f, lines).Some? ==>
      forall j :: 0 <= j < |lines| ==> f(lines[j]) == Some(CompileLines(f, lines).value[j])
    decreases |lines|
  {
    if |lines| > 0 {
      var front := lines[..|lines| - 1];
      CompileLinesMeaning(f, front);
      if CompileLines(f, front).None? {
        var j :| 0 <= j < |front| && f(front[j]).None?;
        assert lines[j] == front[j];
      } else if f(lines[|lines| - 1]).Some? {
        forall j | 0 <= j < |front| ensures f(lines[j]).Some? {
          assert lines[j] == front[j];
        }
      }
    }
  }

  /** The loop of `compile(prog)`: each line is run through `f` in turn and
      the first line that gives nothing marks the whole result as failed. */
  method CollectLines<T>(f: string -> Option<T>, lines: seq<string>) returns (r: Option<seq<T>>)
    ensures r == CompileLines(f, lines)
  {
    var error := false;
    var ans: seq<T> := [];
    var k := 0;
    while k < |lines|
      invariant 0 <= k <= |lines|
      invariant error <==> CompileLines(f, lines[..k]).None?
      invariant !error ==> CompileLines(f, lines[..k]) == Some(ans)
    {
      assert lines[..k + 1][..k] == lines[..k];
      var instr := f(lines[k]);
      if instr.None? {
        error := true;
      } else if !error {
        ans := ans + [instr.value];
      }
      k := k + 1;
    }
    assert lines[..k] == lines;
    if error {
      r := None;
    } else {
      r := Some(ans);
    }
  }

  /** `compile(prog)`: every line is parsed; the result is nothing if any line
      gave nothing, and otherwise one instruction per line, in order. */
  method CompileProgram(prog: string) returns (r: Option<seq<Instruction>>)
    ensures r.None? <==> exists j :: 0 <= j < |Lines(prog)| && Parse(Lines(prog)[j]).None?
    ensures r.Some? ==> |r.value| == |Lines(prog)|
    ensures r.Some? ==> forall j :: 0 <= j < |r.value| ==> Parse(Lines(prog)[j]) == Some(r.value[j])
  {
    r := CollectLines(Parse, Lines(prog));
    CompileLinesMeaning(Parse, Lines(prog));
  }
}
