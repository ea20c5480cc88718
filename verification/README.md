# A verified model of the `tb/asm.py` assembler

`tb/asm.py` is a small assembler for a toy CPU. It reads a program line by
line. Each line becomes an `Instruction` record with nine numeric fields: two
jump flags, a write enable, a write source, an ALU operation, two ALU read
addresses, a write address and an 8-bit immediate. `Instruction.compile`
packs a record into a 32-character string of '0'/'1', most significant bit
first. Of the mnemonics, only `li reg imm` ("load immediate") has a body.
`parse_reg` resolves register names. These are the `x0`..`x31` indices, the
ABI aliases (`zero`, `ra`, `sp`, …) and the numbered families `a`, `t`, `s`.
`parse_imm` reads decimal and `0x`/`0o`/`0b`-prefixed immediates up to 255.

The Dafny modules follow the program's structure:

- `Wrappers` defines `Option` and `Result`.
- `Bits` models `bin_extend`, together with Python's `bin` and the value of a bit string.
- `Instructions` holds the record, the default record, `compile` and its inverse `Decode`.
- `Text` covers ASCII `str.lower`, `contains_only`, `str.split()` and `str.split('\n')`.
- `Numerals` handles digit strings in bases 2 to 16, `str(n)` and `int(s)`.
- `Registers` models `parse_reg`.
- `Immediates` models `parse_imm`.
- `Assembler` models `parse` and `compile(prog)`.

The source does not run as written. It has syntax errors, a missing
attribute, `match st.lower` without the call, `str + int`, `else if`, an
undefined name, a `match … else`, a `startswith` call with the wrong
arguments, and a misplaced `if`. The model repairs each one in the
evident direction:

- `__init__` gets its colon.
- `WA` and `const` start at 0.
- The alias `match` is on `st.lower()`.
- `t0`..`t2` become `'x' + str(int(T[1]) + 6)`.
- The `else:` after the prefix `match` is a `case _:`.
- The final handler formats `IMMIDIATE_ERROR_BASE`.
- `else if` reads as `elif`.
- `st.startswith('a', 't', 'x')` passes `'t'` and `'x'` as start and end
  indices, which raises `TypeError`. Its arity is repaired to the
  one-argument tuple form.
- The family `if` at line 154 is indented like a `case` inside the alias
  `match`. It runs after the `match` when no alias matched.
- Empty `case` bodies do nothing.
- The limit messages carry the family's limit.

Two further defects change behaviour. They are under "## Findings" and are
modelled both as written and corrected. The model that `parse` and
`compile(prog)` use takes the corrected side of both:

- `Registers.ParseReg` tests the family letters `a`, `t`, `s` and `x`. The
  letters as listed, `a`, `t` and `x`, are kept in `Registers.ParseRegAsWritten`.
- The alphabet check uses the intended predicate, `Text.ContainsOnly`. The
  comparison as written is kept in `Text.ContainsOnlyAsWritten`.

So `li s2 5` loads 5 into register 18, where the letters as listed would
leave the default instruction.

Where the docstring and the code disagree, the model follows the code:

- The docstring gives WA, RA1 and RA2 six bits each, but `compile` packs five.
- The docstring's WS table marks `11` as "not set", but the constructor starts WS at 2.
- The alias table maps `t0`..`t2` to x6..x8 and `s0`/`fp` to x8. This is the
  source's own numbering, not the RISC-V ABI's.

Errors are values. Instead of raising, `parse_reg` returns a `RegisterError`:
a format, index or limit error. `parse_imm` returns an `ImmediateError`:
wrong digits for the base, a value `int` rejects, or too big. `parse` returns
`Option<Instruction>`, with `None` for Python's `None`. `compile(prog)`
returns `Option<seq<Instruction>>`.

## Model

| member | source | states |
|---|---|---|
| Bits.ToBinary | tb/asm.py:124 | `bin(n)[2:]` is a non-empty string of bits whose value is `n` |
| Bits.BinExtend | tb/asm.py:123-125 | the padded string is binary and has the value `num`; it has exactly `cnt` characters when `num` fits in `cnt` bits, and more than `cnt` (no truncation) when it does not |
| Bits.BinExtendFromBits | tb/asm.py:123-125 | padding a bit string's value back to the string's own width gives the same string, so `bin_extend` is the inverse of reading a field |
| Instructions.Compile | tb/asm.py:94-103 | a record whose fields fit their widths packs to a 32-bit word, and reading the nine fields back from bits 31, 30, 29, 28-27, 26-23, 22-18, 17-13, 12-8 and 7-0 gives the record again |
| Instructions.Decode | tb/asm.py:19-23 | every field read from its bit positions fits the width `compile` packs it with |
| Instructions.PackedSlices | tb/asm.py:94-103 | each field's padded binary sits exactly at that field's bit positions in the packed word |
| Instructions.CompileDecode | tb/asm.py:94-103 | re-packing the fields of any 32-bit word gives that word, so packing is a bijection between well-formed records and words |
| Text.ContainsOnlyCountingMeaning | tb/asm.py:116-120 | the set-size test, comparing against the size of `set(available)`, holds exactly when every character of the string occurs in `available` |
| Text.ContainsOnlyAsWrittenMeaning | tb/asm.py:116-120 | the set-size test as written holds exactly when every character of `available` occurs in the string, which is the reverse of the intent |
| Text.Lower | tb/asm.py:134-136 | `st.lower()` keeps the length, leaves no capital letter, and keeps every character that is not a capital letter |
| Text.Split | tb/asm.py:215 | `line.split()` of an empty line is empty, and every word it yields is non-empty and contains no whitespace |
| Text.SplitWhole | tb/asm.py:215 | a non-empty word without whitespace splits to exactly itself |
| Text.SplitAtSpace | tb/asm.py:215 | a whitespace character splits the text in two, and the words of the whole are the words before it followed by the words after it; with Text.SplitWhole and the empty case of Text.Split this fixes `str.split()` on every line, including tabs, runs of spaces and leading or trailing whitespace |
| Text.SplitUnwords | tb/asm.py:215 | splitting non-empty whitespace-free words joined by single spaces gives the same words back |
| Text.SplitOn | tb/asm.py:245 | `prog.split('\n')` yields at least one line, and no line contains the separator |
| Text.JoinSplitOn | tb/asm.py:245 | joining the lines with the separator restores the program text |
| Text.SplitOnJoin | tb/asm.py:245 | splitting separator-free pieces joined by the separator gives the pieces back |
| Numerals.ToDigits | tb/asm.py:163 | `str(n)` in a base from 2 to 16 is a non-empty numeral of that base whose value is `n` |
| Numerals.LeadingZero | tb/asm.py:156 | `int` ignores a leading zero |
| Registers.Numbered | tb/asm.py:155-175 | for a family-shaped token, every index produced is below REGISTER_NUMBER, and every failure is an index error or a limit error |
| Registers.ParseReg | tb/asm.py:128-177 | `parse_reg(st)`, with the family letters corrected: every index it returns is below 32, and a token whose lower-cased form leaves the register alphabet is a format error naming the token; its values are given by the rows below |
| Registers.Resolve | tb/asm.py:128-177 | every resolved index is below 32; a token whose lower-cased form leaves the register alphabet is a format error naming the token |
| Registers.XNameResolves | tb/asm.py:172-175 | `x0`..`x31` resolve to their own index, so every alias and family rewrite lands on the index it names |
| Registers.CanonicalFixedPoint | tb/asm.py:128-177 | writing a resolved index back as `xN` and parsing it again gives the same index |
| Registers.AliasResolves | tb/asm.py:136-152 | a token whose lower-cased form is an alias resolves to that alias's register, in any letter case |
| Registers.AliasBeforeFamily | tb/asm.py:136-154 | aliases are matched before the families and regardless of case, so `T0` is register 6 |
| Registers.FirstTFamilyMember | tb/asm.py:164-167 | `t3` is register 28 |
| Registers.FamilyLetterIsCaseSensitive | tb/asm.py:154 | the family test uses the token as given, so `T3` is a format error |
| Registers.FamilyResolves | tb/asm.py:154-175 | a non-alias family letter followed by digits N gives `a`: 10+N for N ≤ 7, `t`: 25+N for N ≤ 6, `s`: 16+N for N ≤ 11, `x`: N for N ≤ 31, and otherwise a limit error citing 7, 6, 11 or 32 |
| Registers.NumberedResolves | tb/asm.py:159-175 | for a non-alias, family-shaped token, the rewrite through `x<N>` changes nothing in the numbered rule's result |
| Registers.FormatErrorCases | tb/asm.py:134-177 | a format error comes exactly when the lower-cased token leaves the alphabet, or when it is neither an alias nor a family letter followed by a digit |
| Registers.IndexErrorCases | tb/asm.py:155-158 | a family-shaped token in the alphabet fails with an index error naming its suffix exactly when the suffix is not all decimal digits |
| Registers.ZeroPaddedTSuffix | tb/asm.py:156-167 | `t00`, `t01` and `t02` reach registers 25..27, which the aliases `t0`..`t2` do not |
| Registers.SFamilyAsWritten | tb/asm.py:154 | with the call's arity repaired and the letters as listed (`a`, `t`, `x`), `s2` is a format error |
| Registers.SFamilyCorrected | tb/asm.py:168-171 | with `s` in the prefix test, `s2` is register 18 |
| Registers.AlphabetTestAsWritten | tb/asm.py:117 | the alphabet test as written rejects `x1`, which the intended test accepts |
| Immediates.PrefixBase | tb/asm.py:185-200 | a selected base is 16, 8 or 2, and the prefix that selects it is two characters, `0` followed by a non-digit, so a decimal literal never takes the prefixed branch |
| Immediates.ParseImm | tb/asm.py:180-210 | an accepted immediate is at most 255; a prefixed one is not negative; a prefix followed by a non-numeral of its base is a wrong-digits error naming the base and the digits |
| Immediates.PrefixedCases | tb/asm.py:185-208 | a prefixed literal is accepted exactly when at least one digit of the base follows and the digits spell at most 255; the value is what they spell |
| Immediates.PrefixedRoundTrip | tb/asm.py:185-208 | a number written in a base after its prefix, in either prefix case, reads back as that number, or as "too big" above 255 |
| Immediates.PrefixAlone | tb/asm.py:204-210 | a prefix with no digits is the `int` error for the empty string |
| Immediates.IntDecimal | tb/asm.py:202-205 | `int(i, base=10)` accepts exactly one or more decimal digits, optionally after a single `+` or `-`, and its value is the digits' value, negated after `-` |
| Immediates.DecimalCases | tb/asm.py:201-210 | a token without a base prefix is accepted exactly when it is an optionally signed decimal numeral of value at most 255, with that value; any other such token is the `int` error naming the whole token |
| Immediates.DecimalRoundTrip | tb/asm.py:201-208 | a number written in decimal reads back as that number, or as "too big" above 255 |
| Immediates.NegativeDecimal | tb/asm.py:201-208 | a negative decimal is accepted with its value: there is no lower bound |
| Assembler.LiOperands | tb/asm.py:220-222 | the operands are accepted exactly when `parse_reg(reg)` and `parse_imm(imm)` both succeed, and then they are those two results; a bad register is reported even if the immediate is bad too, and with a good register a bad immediate is reported |
| Assembler.Parse | tb/asm.py:213-239 | a line gives `None` exactly when it is `li` with more than two operands; otherwise the untouched fields keep their defaults, and write enable is set exactly when the line is `li` with two operands that both parse; any instruction whose write enable is not 1 is the default one, so a failed `li` or a line that is not `li` changes no field, and one with write enable holds `parse_reg` of the first operand in WA and `parse_imm` of the second in const, whatever the spacing |
| Assembler.LiEncoding | tb/asm.py:216-229 | `li reg imm` loads the register index into WA and the immediate into const and sets WE when both operands parse, and is the default instruction when either fails |
| Assembler.LiLoadsRegister | tb/asm.py:220-225 | `li xN V`, with N below 32 and V from 0 to 255 in decimal, gives the instruction writing V to register N |
| Assembler.LiSurplusOperand | tb/asm.py:216-219 | `li` with a third operand gives `None` |
| Assembler.ParsedFits | tb/asm.py:94-103 | every parsed instruction with a non-negative immediate fits the packing layout |
| Assembler.CompileLinesMeaning | tb/asm.py:242-254 | the result is nothing exactly when some line gives nothing; otherwise it has one entry per line, each the result for that line, in order |
| Assembler.CollectLines | tb/asm.py:243-254 | the flag-and-append loop computes the per-line collection, including when a line after a failure parses |
| Assembler.CompileProgram | tb/asm.py:242-254 | `compile(prog)` is `None` exactly when some line of `prog.split('\n')` parses to `None`; otherwise it is one instruction per line, each the parse of that line, in order |

## Left out

- The command-line driver (tb/asm.py:257-276): it reads files named on the command line and writes output. The model is pure.
- The `print` calls in `parse` (tb/asm.py:218, 227, 229) are left out. The model returns the `None` or the default instruction that follows them, and the caught error is not surfaced.
- `ls`, `beq`, `add`, `sub` and `jal` (tb/asm.py:230-238) have empty bodies. A line using them gives the default instruction, as does any unknown mnemonic or empty line.
- Text.Lower: only ASCII capitals are lower-cased. Python's Unicode `str.lower` can map non-ASCII characters, and those mappings are not modelled.
- Immediates.IntDecimal: models `int(s)` as an optional sign followed by ASCII digits. Python's surrounding whitespace, `_` separators and non-ASCII digits are not modelled.
- Text.Split: Python whitespace is the fixed list of code points `str.isspace` accepts. Other Unicode categories are not consulted.
- Registers.Resolve: a one-character token `a`, `t`, `s` or `x` is a format error here. In Python, `st[1]` raises `IndexError`. `parse` catches only `ImmidiateError` and `RegisterError` (tb/asm.py:226-229), so that `IndexError` escapes `parse` and `compile(prog)` and aborts the whole run. The model instead gives the default instruction for a line such as `li a 5`, and Assembler.CompileProgram returns `Some(…)` for a program containing it.
- Instructions.Compile: requires every field to fit its width. A negative field, which `bin` would spell with a minus sign, or a field wider than its width is not packed. `parse` can produce a negative immediate (see Immediates.NegativeDecimal), and Assembler.ParsedFits covers only non-negative ones.
- The "too big" immediate error carries no text. The source raises its message with the `{}` placeholder unformatted.

## Findings

| source | as written | input that shows it | evidently intended | confidence | as-written member | corrected member |
|---|---|---|---|---|---|---|
| tb/asm.py:117 | `contains_only` compares the union of character sets with `set(str)`, so it holds when `str` contains every character of `available` | `contains_only('x1', '0123456789rasgfptxzeo')` is false, so `parse_reg('x1')` raises a format error | compare with `set(available)`: every character of `str` is in `available` | not executed | Registers.AlphabetTestAsWritten | Text.ContainsOnlyCountingMeaning |
| tb/asm.py:154 | with the call's arity repaired and the letters as listed, the family prefix test accepts `'a', 't', 'x'` only, so the `case 's'` branch at lines 168-171 is unreachable | `parse_reg('s2')` raises a format error (read literally, the call raises `TypeError` first) | include `'s'`: `s2`..`s11` are registers 18..27 | not executed | Registers.SFamilyAsWritten | Registers.SFamilyCorrected |
