# billie_c compiler core in Dafny

This project models the front and middle of billie_c, a compiler for a tiny
C subset (`int main(void) { return <expr>; }` with `-`/`~` unaries and
parentheses). It covers each stage from source text to the assembly
instruction tree just before emission:

- **Scanner** (`scanner.dfy`, module `Scanner`): maximal-munch lexing into
  `Token`s. `ScanStep` is one call of `get_next_token_`. `ScanFrom` is the
  `get_tokens` loop. The class `TokenScanner` keeps the scanner's own
  mutable state (`start_`, `current_`, `curr_line_`, `tokens_`), and each
  method is proved equal to those functions. There is no case for `-` or
  `~`, so both characters are invalid tokens. No end-of-file token is
  appended.
- **Tokens** (`token.dfy`, `decimal.dfy`): the token and value types and the
  two debug renderings, written as string functions. `decimal.dfy` holds the
  decimal text of integers that those renderings and the temporaries'
  names use.
- **Parser** (`parser.dfy`, module `Parser`):
  - Recursive descent over a cursor. The functions `ParseExprAt` …
    `ParseProgramAt` take the cursor as an argument. The class
    `LanguageParser` keeps it as the field `idx` and is proved to agree with
    them.
  - `peek_` has no bounds check. A read past the last token is therefore the
    error `ReadPastEnd`.
  - A Unary node records the token after its operator.
  - A statement that does not start with `return` is the error
    `NotAStatement`.
- **IR lowering** (`tacky_generator.dfy`, module `TackyGen`): AST to Tacky.
  The temp counter is threaded through `LowerAt`/`LowerBody`. The class
  `TackyGenerator` holds it as the field `currTmpNum`. A literal whose value
  is not an `int` makes `std::get<int>` throw; that is the error
  `BadVariantAccess`.
- **Assembly generation** (`assembly_generator.dfy`, module `AsmGen`). The
  header `AssemblyGenerator.h` and the out-of-line `AssemblyGenerator.cpp`
  disagree on how a Return is lowered, so both are modelled as the
  `ReturnLowering` variants:
  - `MovToW0` (the header) emits `Compound[Mov(v, W0), Ret]`;
  - `NoMov` (the .cpp) emits `Compound[v, Ret]`.

  Every unary is lowered to `Not`.
- **Pseudo-register pass** (`pass_pseudo_register.dfy`, module
  `PseudoPass`):
  - `AllocNode`/`AllocList` thread the `offsets` list. `get_offset_` is
    `Offset`.
  - The class `PseudoRegisterPass` rewrites its instruction list and
    offsets in place.
  - Only Mov operands reached through Program, Function and Compound are
    rewritten. A pseudo-register under a Unary (the operand of `Not`)
    keeps its name.
  - The reference description is `MovNames` (the names reached) and
    `Resolve` (the rewritten tree).
- **Fix-instructions pass** (`pass_fix_instructions.dfy`, module
  `FixPass`):
  - Each Function gets `AllocateStack(size)` first.
  - A backward scan then runs over its instructions. The first top-level
    `Ret` it finds gets `DeAllocateStack(size)` inserted before it, and the
    scan stops. Each Compound passed before that gets one
    `DeAllocateStack` before its first `Ret`.
  - `Scanned` is the closed form of that scan. `Unfix` undoes the pass.
  - The Function visit does not recurse into the Function's own nodes.
  - The Mov handler dereferences the unset `curr_func` or an end iterator. The
    model treats reaching it as the failure `MovLookupUndefined`.
- **Pipeline** (`pipeline.dfy`, module `Pipeline`): the stages composed as
  `Compile`:
  - The pseudo-register pass starts from an empty offsets list, and its
    frame size is the fix pass's stack size.
  - `sources/main.cpp` does not compose the stages this way: it calls a
    `generate_assembler` that does not exist and feeds the AST straight to
    the assembly generator. `Compile` is therefore this model's own
    composition.
  - Proved of it: the fix pass never fails on a compiled program, and the
    output has a fixed shape. The frame is `4 ×` the number of distinct
    temporaries of Unary-valued returns with `NoMov`. It is always 0 with
    `MovToW0`, because there every lowered expression sits inside a Mov's
    source operand, which the pass does not enter.

Where the header and the source disagree elsewhere, the model follows the
.cpp file. `AssemblerPassPseudoRegister.h` is a stale variant of the pass,
and only its constructor is modelled.

Integers are unbounded. The only explicit bound is the 32-bit `int` range
of `std::stoi` on number lexemes.

## Model

| member | source | states |
|---|---|---|
| Tokens.RenderValue | libs/scanner/include/scanner/Token.h:21-43 | every value renders to at least five characters, "empty" being the shortest; that the rendering reads back and is injective is `Tokens.ParseRenderValue` and `Tokens.RenderValueInjective` |
| Tokens.RenderToken | libs/scanner/include/scanner/Token.h:45-51 | the rendering of a token is non-empty and ends in a newline; its four-line layout is `Tokens.RenderTokenLines` |
| Tokens.ParseRenderValue | libs/scanner/include/scanner/Token.h:21-43 | rendering a value is invertible: reading back "empty", "string: s", "int: n", "bool: 0/1" or "nullptr" gives the value |
| Tokens.RenderValueInjective | libs/scanner/include/scanner/Token.h:21-43 | two values with the same rendering are equal |
| Tokens.RenderTokenLines | libs/scanner/include/scanner/Token.h:45-51 | a rendered token splits into exactly the four lines type, value, lexeme, line, in that order, and ends in a newline |
| Tokens.Line | libs/scanner/include/scanner/Token.h:45-51 | each rendered field is newline-terminated |
| Decimal.SignedValueOfIntToString | libs/scanner/include/scanner/Token.h:29-31 | the decimal text of an int reads back as that int |
| Decimal.IntToStringInjective | libs/scanner/include/scanner/Token.h:29-31 | distinct ints render differently |
| Decimal.DigitsValueOfNatToString | libs/codegen/include/codegen/TackyGenerator.h:60-66 | the digits of a temp number read back as that number |
| Decimal.NatToStringInjective | libs/codegen/include/codegen/TackyGenerator.h:60-66 | distinct counters give distinct digit strings |
| Scanner.ScanStep | libs/scanner/sources/TokenScanner.cpp:23-68 | one step advances past at least one valid character; a token's lexeme is exactly the characters consumed and carries the current line; a blank consumes one character and adds a line only for `\n`/`\r`; it fails exactly on an invalid character (InvalidToken with that character) or a number above the `int` range; a step that starts on a digit or a letter consumes the whole maximal run (`Scanner.RunEnd`), as the loops of `number_` and `identifier_` do |
| Scanner.ScanFrom | libs/scanner/sources/TokenScanner.cpp:14-21 | the `get_tokens` loop from a position yields at most one token per remaining character; the token shapes, lexemes, lines and failures of the loop are `Scanner.ScanTokensWellFormed`, `Scanner.ScanLexemes`, `Scanner.ScanLines`, `Scanner.InvalidCharFails` and `Scanner.InvalidTokenIsInvalidChar` |
| Scanner.Scan | libs/scanner/sources/TokenScanner.cpp:9-21 | a scan from position 0 on line 1 yields at most as many tokens as the input has characters; that it never yields ENDOFFILE and rejects `-` and `~` is `Scanner.ScanHasNoEndOfFile` and `Scanner.MinusAndComplementRejected` |
| Scanner.RunEnd | libs/scanner/sources/TokenScanner.cpp:84-87 | the run of digits (or of alphanumerics and `_`) is maximal: every character up to the end is in the run and the next one is not |
| Scanner.ScanTokensWellFormed | libs/scanner/sources/TokenScanner.cpp:14-142 | every scanned token is a punctuation token with its own character and no value, a NUMBER with the decimal value of its digit lexeme, a keyword with no value, or an IDENTIFIER carrying its lexeme |
| Scanner.ScanHasNoEndOfFile | libs/scanner/sources/TokenScanner.cpp:14-21 | a successful scan contains no end-of-file token |
| Scanner.ScanLexemes | libs/scanner/sources/TokenScanner.cpp:14-142 | the lexemes concatenated equal the input with blanks and newlines removed |
| Scanner.ScanLines | libs/scanner/sources/TokenScanner.cpp:46-49 | token lines are non-decreasing and lie between the start line and start line plus the number of newlines |
| Scanner.InvalidCharFails | libs/scanner/sources/TokenScanner.cpp:55-64 | any invalid character in the rest of the input makes the scan fail |
| Scanner.MinusAndComplementRejected | libs/scanner/sources/TokenScanner.cpp:23-68 | an input containing `-` or `~` does not scan |
| Scanner.DigitRunIsOneNumber | libs/scanner/sources/TokenScanner.cpp:84-92 | `12` scans as the single NUMBER 12, not as one token per digit |
| Scanner.KeywordPrefixIsOneIdentifier | libs/scanner/sources/TokenScanner.cpp:109-121 | `intx` scans as the single IDENTIFIER `intx`, not as INT followed by `x` |
| Scanner.InvalidTokenIsInvalidChar | libs/scanner/sources/TokenScanner.cpp:61-63 | an invalid-token error names a character that occurs in the input and is invalid |
| Scanner.KeywordTable | libs/scanner/include/scanner/TokenScanner.h:21-35 | the keyword table has exactly 13 entries |
| Scanner.KeywordsLowerCase | libs/scanner/include/scanner/TokenScanner.h:21-35 | every keyword is lower-case letters |
| Scanner.LanguageKeywords | libs/scanner/sources/TokenScanner.cpp:109-121 | "int", "void" and "return" scan as INT, VOID and RETURN with no value |
| Scanner.CaseVariantIsIdentifier | libs/scanner/sources/TokenScanner.cpp:109-121 | a word with an upper-case letter is an IDENTIFIER carrying its lexeme |
| Scanner.IsAlpha | libs/scanner/sources/TokenScanner.cpp:70-74 | a letter or `_` is neither a digit, a punctuation character nor a blank, so the word case of `get_next_token_` never overlaps the others |
| Scanner.IsAlphaNumeric | libs/scanner/sources/TokenScanner.cpp:76-82 | a word character is a character some case of the scanner accepts |
| Scanner.StringToInt | libs/scanner/sources/TokenScanner.cpp:84-92 | the `std::stoi` of a digit run succeeds exactly when its value fits in an `int`, yields that value, and otherwise fails with the out-of-range literal |
| Scanner.WordToken | libs/scanner/sources/TokenScanner.cpp:109-121 | a word keeps its lexeme and line, is an IDENTIFIER carrying its text exactly when it is not a keyword, and a keyword carries no value; see `Scanner.LanguageKeywords` and `Scanner.CaseVariantIsIdentifier` |
| Scanner.TokenScanner.constructor | libs/scanner/sources/TokenScanner.cpp:9-12 | a fresh scanner has no tokens, start = current = 0 and line 1 |
| Scanner.TokenScanner.GetTokens | libs/scanner/sources/TokenScanner.cpp:14-21 | the result is the tokens already held followed by the scan of the rest of the input, and on success current is the input length |
| Scanner.TokenScanner.NextToken | libs/scanner/sources/TokenScanner.cpp:23-68 | the new state is exactly one `ScanStep`: its token appended, current and line moved, or its error returned |
| Scanner.TokenScanner.Number | libs/scanner/sources/TokenScanner.cpp:84-92 | current reaches the end of the digit run and a NUMBER with its value is appended, or the out-of-range error is returned |
| Scanner.TokenScanner.Identifier | libs/scanner/sources/TokenScanner.cpp:109-121 | current reaches the end of the word and its keyword or identifier token is appended |
| Scanner.TokenScanner.AddToken | libs/scanner/sources/TokenScanner.cpp:124-142 | appends one token whose lexeme is `source[start..current)` at the current line |
| Scanner.TokenScanner.Advance | libs/scanner/sources/TokenScanner.cpp:144-150 | returns the current character and moves current by one |
| Scanner.TokenScanner.IsAtEnd | libs/scanner/sources/TokenScanner.cpp:152-154 | true exactly when current is the input length |
| Scanner.TokenScanner.Peek | libs/scanner/sources/TokenScanner.cpp:156-162 | the current character, or `\0` at the end |
| Parser.PeekAt | libs/parser/sources/LanguageParser.cpp:111-113 | the token at the cursor, or ReadPastEnd when the cursor is past the last token |
| Parser.IsAtEndAt | libs/parser/sources/LanguageParser.cpp:123-125 | true exactly at an ENDOFFILE token |
| Parser.CheckAt | libs/parser/sources/LanguageParser.cpp:80-87 | true exactly when the current token has the kind and is not ENDOFFILE |
| Parser.ConsumeAt | libs/parser/sources/LanguageParser.cpp:101-108 | succeeds exactly on a current token of the expected kind, returning it; otherwise UnexpectedToken with the message |
| Parser.ThenConsume | libs/parser/sources/LanguageParser.cpp:66-69 | a parse followed by a required token keeps the node and moves past that token |
| Parser.MatchAt | libs/parser/sources/LanguageParser.cpp:89-99 | answers unless the cursor is past the last token with a kind left to test (the unchecked `peek_`); answers true exactly when the current token has one of the kinds and is not ENDOFFILE; the cursor move is `Parser.LanguageParser.Match` |
| Parser.ParseHeaderAt | libs/parser/sources/LanguageParser.cpp:17-24 | succeeds exactly on INT IDENTIFIER `(` VOID `)` `{` and yields the IDENTIFIER as the name |
| Parser.ParseExprAt | libs/parser/sources/LanguageParser.cpp:59-78 | a success consumes at least one token; a cursor past the last token is ReadPastEnd; a current token other than NUMBER, `-`, `~` or `(` is InvalidExpression; what it parses is `Parser.ParseExprIsSpells` |
| Parser.ParseReturnAt | libs/parser/sources/LanguageParser.cpp:49-57 | a success is a Return holding the `return` token just before the cursor and ends at a `;` |
| Parser.ParseStmtAt | libs/parser/sources/LanguageParser.cpp:41-47 | a cursor past the last token is ReadPastEnd; a current token other than `return` is NotAStatement; a success consumes tokens; see `Parser.ParseStmtShape` and `Parser.ParseStmtComplete` |
| Parser.ParseBlockAt | libs/parser/sources/LanguageParser.cpp:29-39 | a cursor past the last token is ReadPastEnd; ENDOFFILE at the cursor is UnexpectedToken "Expected right brace"; a success consumes tokens; both directions against the grammar are `Parser.ParseBlockIsSpells`; see also `Parser.ParseBlockComplete`, `Parser.ParseBlockSound`, `Parser.ParseBlockEndsInBrace` and `Parser.ParseBlockAllReturns` |
| Parser.ParseFunctionAt | libs/parser/sources/LanguageParser.cpp:17-27 | fails unless the header `int NAME ( void ) {` is at the cursor; a success is a Function named by the token after `int` and ends past the header |
| Parser.ParseProgramAt | libs/parser/sources/LanguageParser.cpp:13-15 | a success is a Program holding a Function and ends past the six header tokens; both directions against the grammar are `Parser.ParseProgramIsSpells`; see also `Parser.ParseProgramShape`, `Parser.ParseProgramSound` and `Parser.ParseProgramComplete` |
| Parser.ParseExprSound | libs/parser/sources/LanguageParser.cpp:59-74 | a parsed expression is spelled by the tokens it consumed |
| Parser.ParseExprComplete | libs/parser/sources/LanguageParser.cpp:59-74 | every spelling of an expression parses to it, consuming exactly its tokens |
| Parser.ParseExprIsSpells | libs/parser/sources/LanguageParser.cpp:59-74 | parsing yields (e, j) if and only if the tokens from the cursor to j spell e |
| Parser.ParseExprFrame | libs/parser/sources/LanguageParser.cpp:59-74 | an expression parse depends only on the tokens from the cursor on |
| Parser.OperatorForgotten | libs/parser/sources/LanguageParser.cpp:62-65 | `-` and `~` at the cursor parse to the same result, because the Unary keeps the token after the operator |
| Parser.ParseExprIsExpr | libs/parser/sources/LanguageParser.cpp:59-78 | a parsed expression is built only from Unary and Literal nodes |
| Parser.ParseStmtShape | libs/parser/sources/LanguageParser.cpp:41-57 | a parsed statement is a Return holding its `return` token and ends at a `;` |
| Parser.ParseStmtComplete | libs/parser/sources/LanguageParser.cpp:41-57 | `return e ;` parses to the Return of e |
| Parser.ParseStmtSound | libs/parser/sources/LanguageParser.cpp:41-57 | the tokens a successful statement parse consumes spell `return e ;` for the Return of e it returns |
| Parser.ParseBlockComplete | libs/parser/sources/LanguageParser.cpp:29-39 | a sequence of return statements followed by `}` parses to exactly those statements, past the brace |
| Parser.ParseBlockSound | libs/parser/sources/LanguageParser.cpp:29-39 | the tokens a successful block parse consumes spell its statements one after another, then the `}` just before where it stops |
| Parser.ParseBlockIsSpells | libs/parser/sources/LanguageParser.cpp:29-39 | a block parse returns a body and stops after position `close` exactly when the tokens spell that body and then `}` at `close` |
| Parser.ParseBlockStep | libs/parser/sources/LanguageParser.cpp:29-39 | before `}` or EOF the block parses one statement and continues, or fails with that statement's error |
| Parser.ParseBlockClose | libs/parser/sources/LanguageParser.cpp:29-39 | a block at `}` is empty and ends after the brace |
| Parser.ParseBlockEndsInBrace | libs/parser/sources/LanguageParser.cpp:29-39 | a parsed block always ends with a `}` |
| Parser.ParseBlockAllReturns | libs/parser/sources/LanguageParser.cpp:29-57 | every statement of a parsed block is a Return of an expression |
| Parser.ParseProgramShape | libs/parser/sources/LanguageParser.cpp:13-27 | a parsed program starts with the function header, ends at `}`, is a Program of one Function named by the IDENTIFIER token, and every statement is a Return of an expression |
| Parser.ParseProgramComplete | libs/parser/sources/LanguageParser.cpp:13-39 | a header followed by a spelled block parses to the program with that name and body |
| Parser.ParseProgramSound | libs/parser/sources/LanguageParser.cpp:13-39 | a parsed program is the header `int NAME ( void ) {` naming its Function, followed by a spelled block whose `}` is the last token consumed |
| Parser.ParseProgramIsSpells | libs/parser/sources/LanguageParser.cpp:13-39 | the program parse returns a Function with a name and body exactly when the tokens are the header with that name followed by a spelled block of that body |
| Parser.ParseProgramOfBlock | libs/parser/sources/LanguageParser.cpp:13-27 | a header followed by any successful block parse is the program of that block, ending where the block ends |
| Parser.LanguageParser.constructor | libs/parser/sources/LanguageParser.cpp:9-11 | the cursor starts at 0 over the given tokens |
| Parser.LanguageParser.Advance | libs/parser/sources/LanguageParser.cpp:115-117 | returns the current token and moves the cursor by one |
| Parser.LanguageParser.Match | libs/parser/sources/LanguageParser.cpp:89-99 | moves by exactly one if and only if the current token has a listed kind, otherwise stays |
| Parser.LanguageParser.Consume | libs/parser/sources/LanguageParser.cpp:101-108 | agrees with `ConsumeAt` and moves by one on success |
| Parser.LanguageParser.ParseExpr | libs/parser/sources/LanguageParser.cpp:59-78 | result and final cursor agree with `ParseExprAt` |
| Parser.LanguageParser.ParseReturn | libs/parser/sources/LanguageParser.cpp:49-57 | result and final cursor agree with `ParseReturnAt`, whose token is the one `previous_` returns |
| Parser.LanguageParser.ParseStmt | libs/parser/sources/LanguageParser.cpp:41-47 | result and final cursor agree with `ParseStmtAt` |
| Parser.LanguageParser.ParseBlock | libs/parser/sources/LanguageParser.cpp:29-39 | result and final cursor agree with `ParseBlockAt` |
| Parser.LanguageParser.ParseFunction | libs/parser/sources/LanguageParser.cpp:17-27 | result and final cursor agree with `ParseFunctionAt` |
| Parser.LanguageParser.ParseProgram | libs/parser/sources/LanguageParser.cpp:13-15 | result and final cursor agree with `ParseProgramAt` |
| TackyGen.LowerAt | libs/codegen/include/codegen/TackyGenerator.h:27-56 | lowering succeeds exactly when no literal holds a non-int value, and advances the counter by the number of Unary nodes |
| TackyGen.LowerBody | libs/codegen/include/codegen/TackyGenerator.h:31-38 | a body lowers to one node per statement, advancing the counter by the body's Unary count |
| TackyGen.LowerShape | libs/codegen/include/codegen/TackyGenerator.h:27-56 | the lowered node corresponds to the AST node (literal to IntConst of its int, Unary to Unary with a Var destination, Return to Return, same function name and order) and its temporaries are exactly tmp.k to tmp.(next-1) in order |
| TackyGen.LowerComplete | libs/codegen/include/codegen/TackyGenerator.h:27-56 | every corresponding node whose temporaries are the next names in order is the lowering |
| TackyGen.LowerIsCorresponds | libs/codegen/include/codegen/TackyGenerator.h:27-56 | lowering yields t if and only if t corresponds to the node and uses the next consecutive temp names |
| TackyGen.LowerBodyAt | libs/codegen/include/codegen/TackyGenerator.h:31-38 | statement i of a body is lowered with the counter left by the statements before it |
| TackyGen.TempCount | libs/codegen/include/codegen/TackyGenerator.h:44-52 | the lowered node uses one temporary per Unary |
| TackyGen.TempRangeAt | libs/codegen/include/codegen/TackyGenerator.h:60-66 | the i-th name of a range is tmp.(a+i) |
| TackyGen.TempNamesDistinct | libs/codegen/include/codegen/TackyGenerator.h:60-66 | the names of a temp range are pairwise distinct |
| TackyGen.TempName | libs/codegen/include/codegen/TackyGenerator.h:60-66 | a temporary's name is `tmp.` followed by a non-empty run of digits; distinctness over a range is `TackyGen.TempNamesDistinct` and `TackyGen.TempRangeAt` |
| TackyGen.GenerateTackyTemps | libs/codegen/include/codegen/TackyGenerator.h:23-66 | a generated program corresponds to the AST and uses tmp.0 to tmp.(N-1), all distinct, for its N unaries |
| TackyGen.GeneratedIsProgram | libs/codegen/include/codegen/TackyGenerator.h:27-56 | a parsed program lowers to a Program of one Function, same name and length, whose every instruction is a Return of an expression |
| TackyGen.GenerateTacky | libs/codegen/include/codegen/TackyGenerator.h:23-25 | `generate_tacky` succeeds exactly when no literal holds a non-int value, and then the result corresponds node for node to the AST and uses exactly the temporaries tmp.0 to tmp.(N-1) for its N unaries; see `TackyGen.GenerateTackyTemps` and `TackyGen.GeneratedIsProgram` |
| TackyGen.TackyGenerator.constructor | libs/codegen/include/codegen/TackyGenerator.h:19-21 | the counter starts at 0 |
| TackyGen.TackyGenerator.Generate | libs/codegen/include/codegen/TackyGenerator.h:23-25 | result and final counter agree with `LowerAt` on the program |
| TackyGen.TackyGenerator.GenerateTempName | libs/codegen/include/codegen/TackyGenerator.h:60-66 | returns tmp.N for the current counter N and increments it by one |
| TackyGen.TackyGenerator.Visit | libs/codegen/include/codegen/TackyGenerator.h:27-56 | result and final counter agree with `LowerAt` |
| AsmGen.LowerNode | libs/codegen/include/codegen/AssemblyGenerator.h:31-77 | a node lowers to a Program exactly when it is one; a Function keeps its name and length; a Return or Unary becomes a two-entry Compound; see `AsmGen.NeverNeg`, `AsmGen.PseudoNamesAreVars` and `AsmGen.VariantsDifferByMov` |
| AsmGen.GenerateAssembly | libs/codegen/include/codegen/AssemblyGenerator.h:22-29 | the instruction list holds exactly one node, a Program exactly when the IR is one |
| AsmGen.LowerList | libs/codegen/include/codegen/AssemblyGenerator.h:35-43 | one assembly node per IR instruction |
| AsmGen.LowerListAt | libs/codegen/include/codegen/AssemblyGenerator.h:35-43 | node i of the lowered list is the lowering of instruction i |
| AsmGen.LowerListSnoc | libs/codegen/include/codegen/AssemblyGenerator.h:35-43 | the Function loop lowers instructions in order, each appended after the previous |
| AsmGen.NeverNeg | libs/codegen/include/codegen/AssemblyGenerator.h:57-69 | a lowered node contains no Neg: every unary becomes Not |
| AsmGen.ListNeverNeg | libs/codegen/include/codegen/AssemblyGenerator.h:57-69 | a lowered instruction list contains no Neg |
| AsmGen.PseudoNamesAreVars | libs/codegen/include/codegen/AssemblyGenerator.h:57-77 | the pseudo-registers of a lowered node are exactly the IR node's Var names |
| AsmGen.ListPseudoNamesAreVars | libs/codegen/include/codegen/AssemblyGenerator.h:57-77 | the same for a list |
| AsmGen.VariantsDifferByMov | libs/codegen/sources/AssemblyGenerator.cpp:28-34 | the .cpp lowering is the header lowering with each Return's Mov into W0 replaced by its source |
| AsmGen.ListVariantsDifferByMov | libs/codegen/sources/AssemblyGenerator.cpp:28-34 | the same for a list |
| AsmGen.AssemblyGenerator.constructor | libs/codegen/include/codegen/AssemblyGenerator.h:18-20 | holds the program, the variant and an empty instruction list |
| AsmGen.AssemblyGenerator.Generate | libs/codegen/include/codegen/AssemblyGenerator.h:22-29 | the list is cleared and ends holding exactly the one lowered program, which is returned |
| AsmGen.AssemblyGenerator.Visit | libs/codegen/include/codegen/AssemblyGenerator.h:31-77 | the loop-based visit returns `LowerNode` |
| PseudoPass.Offset | libs/codegen/sources/AssemblerPassPseudoRegister.cpp:64-83 | the list is only extended, by at most one entry, and afterwards holds the name; memoisation and slot positions are `PseudoPass.OffsetSlotted` |
| PseudoPass.AllocOperand | libs/codegen/sources/AssemblerPassPseudoRegister.cpp:48-62 | a Pseudo operand becomes a Stack operand; any other operand and the list are unchanged; see `PseudoPass.AllocOperandSlotted` |
| PseudoPass.AllocNode | libs/codegen/sources/AssemblerPassPseudoRegister.cpp:20-62 | a node the pass does not dispatch on (not Program, Compound, Function or Mov) and the list are unchanged; a Function keeps its name and length; see `PseudoPass.AllocNodeSound` |
| PseudoPass.AllocList | libs/codegen/sources/AssemblerPassPseudoRegister.cpp:32-46 | one output node per input node; see `PseudoPass.AllocListSound` |
| PseudoPass.FrameSize | libs/codegen/sources/AssemblerPassPseudoRegister.cpp:12-17 | a non-negative multiple of 4, zero exactly for an empty list |
| PseudoPass.FindFrom | libs/codegen/sources/AssemblerPassPseudoRegister.cpp:68-73 | the first entry from i named like the key, or none when no entry from i has that name |
| PseudoPass.Find | libs/codegen/sources/AssemblerPassPseudoRegister.cpp:68-73 | the `find_if` finds nothing exactly when no entry has the name, and otherwise an in-range entry with that name; stability under appending is `PseudoPass.FindExtends` |
| PseudoPass.OffsetSlotted | libs/codegen/sources/AssemblerPassPseudoRegister.cpp:64-83 | a known name keeps its memoised offset and the list is unchanged; a new name is appended at 4 × the list length (the list becomes `AddName` of the name); the list stays duplicate-free with entry i at 4·i |
| PseudoPass.FindExtends | libs/codegen/sources/AssemblerPassPseudoRegister.cpp:64-83 | appending new names does not change where a known name is found |
| PseudoPass.AllocOperandSlotted | libs/codegen/sources/AssemblerPassPseudoRegister.cpp:48-62 | a Pseudo operand becomes its Stack slot, other operands are unchanged, the list records the operand's name if new, and the invariant is kept |
| PseudoPass.AllocNodeSound | libs/codegen/sources/AssemblerPassPseudoRegister.cpp:20-62 | the pass on a node keeps the invariant, only appends to the list, and records exactly the Mov names reached in order of first reference (each Mov's source before its destination: the list is `AppendNew` of `MovNameSeq`); it yields the reference rewrite `Resolve` under the final list |
| PseudoPass.AllocListSound | libs/codegen/sources/AssemblerPassPseudoRegister.cpp:32-46 | the same for a list, its nodes visited in order |
| PseudoPass.AppendNewConcat | libs/codegen/sources/AssemblerPassPseudoRegister.cpp:64-83 | recording one sequence of names and then another is recording their concatenation |
| PseudoPass.SourceBeforeDestination | libs/codegen/sources/AssemblerPassPseudoRegister.cpp:48-62 | a Mov between two distinct new pseudo-registers gives the source offset 0 and the destination offset 4 |
| PseudoPass.ResolveClears | libs/codegen/sources/AssemblerPassPseudoRegister.cpp:48-62 | after the rewrite no reached Mov operand is a pseudo-register |
| PseudoPass.ResolveListClears | libs/codegen/sources/AssemblerPassPseudoRegister.cpp:32-46 | the same for a list |
| PseudoPass.DistinctNamesCount | libs/codegen/sources/AssemblerPassPseudoRegister.cpp:64-83 | a duplicate-free list has as many names as entries |
| PseudoPass.SlottedFrame | libs/codegen/sources/AssemblerPassPseudoRegister.cpp:12-17 | for a list keeping the invariant, the reported size is 4 × the number of names, and distinct names have distinct offsets |
| PseudoPass.PassFrame | libs/codegen/sources/AssemblerPassPseudoRegister.cpp:6-18 | from an empty list, the offsets are the distinct Mov names in order of first reference, `process` returns 4 × their number (0 for none), no reached pseudo-register is left, and distinct names get distinct offsets |
| PseudoPass.PseudoRegisterPass.constructor | libs/codegen/include/codegen/AssemblerPassPseudoRegister.h:15-17 | holds the instructions and an empty offsets list |
| PseudoPass.PseudoRegisterPass.Process | libs/codegen/sources/AssemblerPassPseudoRegister.cpp:6-18 | instructions and offsets become those of `AllocList`, and the frame size is returned |
| PseudoPass.PseudoRegisterPass.ProcessNode | libs/codegen/sources/AssemblerPassPseudoRegister.cpp:20-62 | node and offsets agree with `AllocNode` |
| PseudoPass.PseudoRegisterPass.ProcessList | libs/codegen/sources/AssemblerPassPseudoRegister.cpp:32-46 | list and offsets agree with `AllocList` |
| PseudoPass.PseudoRegisterPass.GetOffset | libs/codegen/sources/AssemblerPassPseudoRegister.cpp:64-83 | offset and list agree with `Offset` |
| FixPass.FixCompoundBody | libs/codegen/sources/AssemblerPassFixInstructions.cpp:47-51 | a body without Ret is unchanged, and at most one node is added; see `FixPass.DropFixCompound` |
| FixPass.FixCompound | libs/codegen/sources/AssemblerPassFixInstructions.cpp:45-52 | a node that is not a Compound is left as it is; a Compound stays a Compound and gains at most one instruction; that the gain is a stack instruction is `FixPass.DropFixCompound` |
| FixPass.ScanBack | libs/codegen/sources/AssemblerPassFixInstructions.cpp:40-53 | the backward loop adds at most one node and keeps the first; its closed form is `FixPass.ScanBackIsScanned` |
| FixPass.FixFunctionBody | libs/codegen/sources/AssemblerPassFixInstructions.cpp:34-54 | the body starts with AllocateStack(size) and is one or two nodes longer than the input; see `FixPass.FixFunctionWithRet`, `FixPass.FixFunctionWithoutRet` and `FixPass.UnfixFixFunction` |
| FixPass.FixNode | libs/codegen/sources/AssemblerPassFixInstructions.cpp:11-22 | a Mov fails with MovLookupUndefined; a Function is fixed and keeps its name; a node the pass does not dispatch on is returned unchanged |
| FixPass.FixList | libs/codegen/sources/AssemblerPassFixInstructions.cpp:5-9 | a success has one node per input node; see `Pipeline.CompileFixNeverFails` |
| FixPass.InsertAt | libs/codegen/sources/AssemblerPassFixInstructions.cpp:59-61 | insertion puts the node at k and shifts the rest by one, order kept |
| FixPass.FirstRetFrom | libs/codegen/sources/AssemblerPassFixInstructions.cpp:47-51 | the first Ret from i, or the end when there is none |
| FixPass.LastRet | libs/codegen/sources/AssemblerPassFixInstructions.cpp:40-44 | the last top-level Ret in 1..i, or 0 when there is none |
| FixPass.ScanBackIsScanned | libs/codegen/sources/AssemblerPassFixInstructions.cpp:40-53 | the backward loop equals its closed form: a DeAllocate before the last Ret, the inner fix on each entry after it, the rest untouched |
| FixPass.FixFunctionWithoutRet | libs/codegen/sources/AssemblerPassFixInstructions.cpp:34-54 | with no top-level Ret, the body is AllocateStack followed by every instruction with its compound fix |
| FixPass.FixFunctionWithRet | libs/codegen/sources/AssemblerPassFixInstructions.cpp:34-54 | with last top-level Ret at j, the body is AllocateStack, the instructions before j unchanged, DeAllocate, the Ret, then the rest with their compound fix |
| FixPass.DropFixCompound | libs/codegen/sources/AssemblerPassFixInstructions.cpp:47-51 | a compound fix only inserts a stack instruction |
| FixPass.UnfixFixEach | libs/codegen/sources/AssemblerPassFixInstructions.cpp:40-53 | removing the inserted stack instructions from the fixed instructions gives back the input |
| FixPass.UnfixFixFunction | libs/codegen/sources/AssemblerPassFixInstructions.cpp:34-54 | apart from the inserted Allocate/DeAllocate nodes, the Function visit keeps every node in content and order |
| FixPass.UnfixWithRet | libs/codegen/sources/AssemblerPassFixInstructions.cpp:34-54 | the same for the stopped form |
| FixPass.FixInstructionsPass.constructor | libs/codegen/include/codegen/AssemblerPassFixInstructions.h:16-20 | holds the instructions and the stack size |
| FixPass.FixInstructionsPass.Process | libs/codegen/sources/AssemblerPassFixInstructions.cpp:5-9 | returns `FixList` of the instructions and stores it on success |
| FixPass.FixInstructionsPass.ProcessNode | libs/codegen/sources/AssemblerPassFixInstructions.cpp:11-32 | agrees with `FixNode` |
| FixPass.FixInstructionsPass.ProcessList | libs/codegen/sources/AssemblerPassFixInstructions.cpp:24-28 | agrees with `FixList` |
| FixPass.FixInstructionsPass.VisitFunction | libs/codegen/sources/AssemblerPassFixInstructions.cpp:34-54 | the in-place insert loop agrees with `FixFunctionBody` |
| FixPass.FixInstructionsPass.FixCompoundInstructions | libs/codegen/sources/AssemblerPassFixInstructions.cpp:47-51 | the inner loop agrees with `FixCompoundBody` |
| FixPass.FixInstructionsPass.FixAt | libs/codegen/sources/AssemblerPassFixInstructions.cpp:45-52 | one step of the outer loop past a non-Ret node: the node gets exactly the compound fix and no other node changes |
| FixPass.FixInstructionsPass.CheckRet | libs/codegen/sources/AssemblerPassFixInstructions.cpp:56-65 | finds a Ret exactly when the node is one, and then inserts DeAllocate just before it; otherwise nothing changes |
| Pipeline.Backend | libs/codegen/sources/AssemblerPassPseudoRegister.cpp:6-18 | this model's composition of assembly generation and both passes; a success is a single node; its shape and frame are `Pipeline.BackendShape`, `Pipeline.BackendOutput` and `Pipeline.BackendFrame` |
| Pipeline.Compile | libs/codegen/sources/AssemblerPassFixInstructions.cpp:5-9 | this model's composition of all stages; a success needs a successful scan and is a single node; see `Pipeline.CompileShape` and `Pipeline.CompileFixNeverFails` |
| Pipeline.ExprMovNames | libs/codegen/sources/AssemblyGenerator.cpp:36-48 | a lowered expression exposes to the pass only its outermost Unary's temporary, and nothing under the header's Mov into W0 |
| Pipeline.LoweredMovNames | libs/codegen/sources/AssemblerPassPseudoRegister.cpp:20-62 | on a lowered program body the pass reaches exactly the temporaries of Unary-valued returns (`NoMov`), or none (`MovToW0`) |
| Pipeline.BackendFrame | libs/codegen/sources/AssemblerPassPseudoRegister.cpp:6-18 | the frame is 4 × the number of those temporaries with `NoMov`, and 0 with `MovToW0` |
| Pipeline.HeaderUnresolved | libs/codegen/sources/AssemblerPassPseudoRegister.cpp:48-62 | with the header lowering the pass leaves each Return's Mov untouched, pseudo-registers included |
| Pipeline.BackendShape | libs/codegen/sources/AssemblerPassFixInstructions.cpp:34-54 | the back end yields one Program of one Function with the IR name: AllocateStack(frame), then per Return its rewritten statement, DeAllocateStack(frame) and Ret |
| Pipeline.BackendOutput | libs/codegen/sources/AssemblerPassFixInstructions.cpp:34-54 | the output body is one longer than the IR body, starts with AllocateStack of a non-negative multiple of 4 (0 with `MovToW0`), and each later entry ends with DeAllocateStack of that size and Ret |
| Pipeline.CompileShape | libs/codegen/sources/AssemblerPassFixInstructions.cpp:34-65 | every successful compilation has that shape |
| Pipeline.CompileFixNeverFails | libs/codegen/sources/AssemblerPassFixInstructions.cpp:11-22 | compilation never fails in the fix pass: its Mov handler is never reached, because the Function visit does not descend |

## Left out

- `sources/main.cpp` and `sources/RuntimeConfig.h`: command-line parsing, file reading, output and exit codes are I/O. The file is also stale, so `Pipeline.Compile` is this model's own composition of the stages.
- Error plumbing (`Errors.{h,cpp}`, `ErrorHelpers`, `ScannerError.h`, `ParserError.h`, `RuntimeError.h`): error codes, source locations and message texts become the abstract errors `InvalidToken`, `LiteralOutOfRange`, `UnexpectedToken`, `InvalidExpression`, `NotAStatement`, `ReadPastEnd`, `BadVariantAccess` and `MovLookupUndefined`.
- `AstPrinter.{h,cpp}`: debug printing to stdout.
- `AssemblerPassEmit.h`: declarations without bodies.
- `AssemblerPassPseudoRegister.h`: a stale variant of the pass (its `process` returns the last offset); the .cpp is modelled instead.
- `TokenScanner::string_` and `peek_next_`: no character dispatches to them, so they are unreachable.
- Rendering of `token_type`: TokenType.h is not part of this model, so the kind's name is a function parameter of `Tokens.RenderToken`.
- The `accept` dispatch of `Ast.h` and `TackyAst.h`: it is a `match` on the datatype. The unrecognised-kind branch (Ast.h:153-156) cannot arise with a closed datatype.
- `unique_ptr` ownership, moves and in-place rewriting of nodes: the passes return new trees. The moved-from state of `instructions` after `generate_assembly` returns is not modelled.
- The fix pass's `curr_func` field: it is only read by the Mov handler. The handler's whole behaviour is undefined, so no stack-to-stack split is modelled and reaching it is `MovLookupUndefined`. After a failure the instruction list is unspecified.
- The assembly `Store` node appears in the datatype but no stage produces or handles it.
- `std::isdigit`/`std::isalpha` locale behaviour: only ASCII letters and digits count.
- TackyGen.TackyGenerator.GenerateTempName: the `int` counter `curr_tmp_num_` is unbounded here, so its overflow is not modelled.
- PseudoPass.Offset: offsets are unbounded integers, so `curr_offset+4` never overflows.
- PseudoPass.FrameSize: the conversion of `offsets.size() * 4` from `size_t` to the `int` that `process` returns (AssemblerPassPseudoRegister.cpp:17) is not modelled; sizes are unbounded.
- Token lines and the scanner's `int` positions are unbounded; overflow on huge inputs is not modelled.
