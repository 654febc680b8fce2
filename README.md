# k9cc in Dafny

A model of the core of k9cc, a small C compiler written step by step in the
style of "low-level programming for compilers" tutorials. The compiler reads
one C-like program from its command line and prints x86-64 assembly
(Intel syntax). This project models these parts of it:

- **The lexer** (`lexer.c`). `tokenize` turns the input into a token list. It
  skips whitespace; tries the keywords `return`, `if`, `else` and `while`;
  reads identifiers, then the operator table (two-character operators
  first); reads decimal numbers with `strtol`; and ends with an EOF token.
  The model also covers the token cursor the parser drives: `consume`,
  `consume_kind`, `consume_ident`, `expect`, `expect_number` and `at_eof`.
- **The parser** (`parser.c`). A recursive-descent parser with these levels:
  `program`, `stmt`, `expr`, `assign`, `equality`, `relational`, `add`,
  `mul`, `unary` and `primary`. It stores the statements in the fixed array
  `code[100]`.
- **The code generator** (`codegen.c`). `gen` emits stack-machine code for an
  expression tree. `codegen` wraps it with `pop rax; ret`.
- **The first-stage compiler** (`k9cc.c`). A separate, earlier program that
  compiles `n0 ± n1 ± … ± nk` into `mov`/`add`/`sub`/`ret`.

How it is modelled:

- **Lexer and parser.** Each is written twice: an imperative method that
  follows the C loop or recursion (`Lexer.Tokenize`, `Parser.Expr`, …), and a
  functional specification (`LexerSpec.LexFrom`, `ParserSpec.PExpr`, …) that
  the method is proved to compute.
- **What is proved about the lexer.** It is *maximal munch*: it accepts
  exactly the token lists that cover the input with well-formed tokens. It
  fails exactly when the input holds a character no rule accepts, and it
  reports the first such character.
- **What is proved about the parser.** It reads back every tree it can build
  when that tree is printed with the fewest parentheses (`Show`). From this
  follow the precedence, the associativity, the operand swap of `>` and `>=`,
  and the unambiguity of the grammar.
- **Code generation.** The emitted code runs on a small x86-64 machine
  (`X86.Step`): 64-bit words, the flags `cmp` sets, a stack, and `idiv`
  faults. It is proved to compute the tree's value (`Codegen.Eval`): `+`,
  `-` and `*` wrap around in two's complement as the instructions do, `/`
  truncates toward zero, and the code faults only on a zero divisor and on
  LONG_MIN / -1.
- **Stage one.** The model proves that `main` compiles exactly the inputs
  that read `n0 ± n1 ± … ± nk` (blanks allowed between the parts), and that
  the emitted program returns that sum, wrapped to 64 bits.

Errors that end the C program with `exit(1)` become the `Failure`/`Fail`
case of a `Result`/`Outcome`. It carries the character position (lexer,
stage one) or the index of the offending token (parser).

## Model

| member | source | states |
|---|---|---|
| CLib.DigitEnd | lexer.c:160-166 | the digit run `strtol` consumes: every character before the end is a digit, the character at the end is not |
| CLib.DigitEndIs | lexer.c:160-166 | any digit run stopped by a non-digit is the maximal one |
| CLib.ToInt32 | lexer.c:162 | storing `strtol`'s `long` result in the `int` field `val` keeps it congruent modulo 2^32 and inside the `int` range |
| CLib.StrtolInt | lexer.c:162 | the `int` that `strtol` stores lies in the `int` range, and a digit run of value LONG_MAX or more (saturated by `strtol`) is stored as -1 |
| CLib.StrtolIntExact | lexer.c:162 | a digit run whose value fits in an `int` yields exactly its decimal value |
| CLib.SizeT | lexer.c:163 | storing the negative difference `p - q` in the `size_t` field `len` wraps it modulo 2^64 |
| Words.Signed | codegen.c:32-66 | the two's-complement reading of a register is in the `long` range and stores back to the same word |
| Words.Wrap | codegen.c:36-44 | a mathematical result wrapped into the `long` range differs from it by a multiple of 2^64 |
| Words.SignedToWord | codegen.c:24-27 | a `long` value stored in a register reads back unchanged |
| Words.Quot | codegen.c:45-48 | definition of the truncating quotient, without a contract of its own; `Words.QuotTruncates` states its meaning |
| Words.QuotTruncates | codegen.c:45-48 | the quotient rounds toward zero: its magnitude times `|y|` fits in `|x|` and one more does not, and it is negative exactly when the signs differ and `|x| >= |y|` |
| Words.QuotInLong | codegen.c:45-48 | a truncated quotient of two `long`s is a `long`, except for LONG_MIN / -1 |
| LexerSpec.IsFirstLetterOfSymbol | lexer.c:9-11 | definition without a contract: `_` or an ASCII letter |
| LexerSpec.IsLetterOfSymbol | lexer.c:13-15 | definition without a contract: a first letter or a digit |
| LexerSpec.LexFrom | lexer.c:102-171 | definition of the `tokenize` loop from a position, without a contract of its own; `LexerProofs.LexIsMaximalMunch` and `LexerProofs.LexFailsAtFirst` state what it computes |
| LexerSpec.Lex | lexer.c:102-171 | definition without a contract: `LexFrom` from the start of the input |
| LexerSpec.IdentEnd | lexer.c:136-141 | the identifier run ends at the first character that cannot continue an identifier |
| LexerSpec.FirstOperator | lexer.c:145-157 | the index of the first table entry found at the position; no earlier entry is found there |
| LexerSpec.SkipSpace | lexer.c:116-119 | the first non-blank position, with only blanks before it |
| LexerSpec.Scan | lexer.c:114-167 | one pass of the `tokenize` loop that emits a token always moves forward |
| LexerSpec.ScanIdent | lexer.c:136-141 | the identifier branch always emits a token and moves forward |
| LexerSpec.ScanOperatorOrNumber | lexer.c:145-166 | the operator and number branches move forward when they emit |
| LexerSpec.OperatorLengths | lexer.c:103-109 | the table holds four two-character operators, then one-character ones |
| LexerSpec.OperatorsLongestFirst | lexer.c:103-109 | no table entry is shorter than one that follows it |
| LexerSpec.OperatorFirstChars | lexer.c:103-109 | no operator starts with a digit, a letter, `_` or whitespace, so the branch order of `tokenize` does not hide any operator |
| LexerSpec.Views | lexer.c:81-88 | each token has exactly one lexeme view, and the views are the list of the tokens' views |
| LexerSpec.ViewsAt | lexer.c:81-88 | the k-th view is the view of the k-th token |
| LexerProofs.IdentEndIs | lexer.c:136-141 | any identifier run stopped by a non-letter is the maximal one |
| LexerProofs.SkipSpaceAt | lexer.c:116-119 | a blank is skipped; a non-blank stops the skip |
| LexerProofs.KeywordLetters | lexer.c:122-133 | every keyword character can continue an identifier |
| LexerProofs.NoKeywordInIdent | lexer.c:90-98 | inside a maximal identifier that is not a keyword, no keyword test succeeds, because `tokenize_keyword` demands a non-letter after the keyword |
| LexerProofs.KeywordNeedsLetter | lexer.c:90-98 | a keyword test fails where no identifier can start |
| LexerProofs.ScanSound | lexer.c:114-167 | each token one pass emits is well formed at its position, and scanning resumes right after it |
| LexerProofs.ScanIdentSound | lexer.c:136-141 | an identifier token spans the maximal identifier run |
| LexerProofs.ScanOperatorOrNumberSound | lexer.c:145-166 | an operator or number token is well formed and scanning resumes after its characters |
| LexerProofs.ScanComplete | lexer.c:114-167 | conversely, a well-formed token at a non-blank position is exactly what one pass emits there |
| LexerProofs.ScanKeyword | lexer.c:122-133 | a well-formed keyword token is what the keyword tests emit |
| LexerProofs.ScanIdentComplete | lexer.c:136-141 | a well-formed identifier token is what the identifier branch emits |
| LexerProofs.ScanOperator | lexer.c:145-157 | a well-formed operator token is what the operator loop emits |
| LexerProofs.ScanNumber | lexer.c:160-166 | a well-formed number token is what the number branch emits |
| LexerProofs.SamePrefix | lexer.c:148 | two texts of the same length found at one position are equal |
| LexerProofs.FirstIsLongest | lexer.c:145-157 | in a longest-first table, the first entry found is as long as any entry found |
| LexerProofs.FirstFindsLongest | lexer.c:145-157 | in a longest-first table, the first entry found is the longest one found |
| LexerProofs.OperatorChosen | lexer.c:145-157 | the operator loop emits the longest operator at the position |
| LexerProofs.LongestIndex | lexer.c:145-157 | the index of the first entry found is the index of a longest entry found |
| LexerProofs.ScanOperatorAt | lexer.c:145-157 | the entry the operator loop finds becomes a reserved token of that entry's length |
| LexerProofs.LexSound | lexer.c:102-171 | whatever `tokenize` returns is a token list covering the input |
| LexerProofs.LexEmits | lexer.c:114-167 | at a non-blank character, a successful run begins with a well-formed token and continues after it |
| LexerProofs.CoversSkip | lexer.c:116-119 | whitespace before a covering list changes nothing |
| LexerProofs.CoversCons | lexer.c:114-167 | a well-formed token followed by a covering list of the rest covers the input |
| LexerProofs.LexComplete | lexer.c:102-171 | every covering token list is what `tokenize` returns |
| LexerProofs.LexIsMaximalMunch | lexer.c:102-171 | `tokenize` returns a list if and only if that list covers the input (maximal munch) |
| LexerProofs.LexFailure | lexer.c:167 | `tokenize` fails only at a character that no rule accepts |
| LexerProofs.ScanSpanLexable | lexer.c:114-167 | no character inside the span of an emitted token is unlexable |
| LexerProofs.KeywordSpanLexable | lexer.c:90-98 | every character of a matched keyword starts an identifier or a number |
| LexerProofs.OperatorOrNumberSpanLexable | lexer.c:145-166 | every character of an operator or number token begins a token; the second character of a two-character operator is `=`, itself an operator |
| LexerProofs.LexFailsAtFirst | lexer.c:102-171 | from a position on, `tokenize` fails if and only if an unlexable character follows, and then no character before the error position is unlexable |
| LexerProofs.LexFailsAtFirstUnlexable | lexer.c:102-171 | `tokenize` fails if and only if the input holds an unlexable character, and it reports the first one |
| LexerProofs.ForIsIdentifier | lexer.c:122-141 | "for" is not a keyword: it lexes as one identifier of length 3 followed by EOF |
| LexerProofs.ReturnxIsIdentifier | lexer.c:90-141 | "returnx" is not the keyword `return`: it lexes as one identifier of length 7 followed by EOF |
| LexerProofs.StuckUnlexable | lexer.c:167 | the pass that reaches the error call stands at an unlexable character |
| LexerProofs.CoversShape | lexer.c:169 | a covering list ends with exactly one EOF token at the end of the input, and its operator and identifier tokens lie inside the input (number tokens, whose `str` follows the digits and whose `len` wraps, are not bounded) |
| LexerProofs.LexShape | lexer.c:169 | whatever `tokenize` returns is EOF-terminated, and its operator and identifier tokens lie inside the input |
| Lexer.TokenizeKeyword | lexer.c:90-98 | the keyword matches if and only if its text starts here and is followed by a non-letter; then exactly one token is appended and the position moves past it; otherwise nothing changes |
| Lexer.SkipIdentifier | lexer.c:136-141 | the loop stops at the end of the maximal identifier run |
| Lexer.FindOperator | lexer.c:145-157 | the search loop stops at the first table entry found, or at the end of the table |
| Lexer.FirstOperatorIs | lexer.c:145-157 | an index with no earlier match, matching itself or at the end of the table, is the first match |
| Lexer.LexStep | lexer.c:114-167 | one pass of the loop either skips a blank or appends the token that `LexFrom` begins with |
| Lexer.TokenizeStep | lexer.c:114-167 | one pass of the loop: stuck exactly where no rule applies; otherwise it skips a blank or appends the scanned token |
| Lexer.Tokenize | lexer.c:102-171 | the result is the specified token list; on success it covers the input; it fails if and only if the input holds an unlexable character, and then at the first one |
| Lexer.TokenCursor.constructor | lexer.c:102-171 | the cursor starts at the first token of an EOF-terminated list |
| Lexer.TokenCursor.AtEof | lexer.c:76-78 | true exactly at the last token, which is the EOF token |
| Lexer.TokenCursor.Consume | lexer.c:20-28 | it advances if and only if the current token is a reserved token spelled `op` (length and text); otherwise the cursor stays |
| Lexer.TokenCursor.ConsumeKind | lexer.c:33-40 | returns and skips the current token if and only if it has the given kind |
| Lexer.TokenCursor.ConsumeIdent | lexer.c:45-52 | returns and skips the current token if and only if it is an identifier |
| Lexer.TokenCursor.Expect | lexer.c:56-63 | passes and advances if and only if the current token is `op`; otherwise fails at the current token's index |
| Lexer.TokenCursor.ExpectNumber | lexer.c:67-74 | returns the value of a number token and advances; any other token fails at its index |
| ParserSpec.PProgram | parser.c:31-41 | definition of `program` on the lexemes, without a contract of its own; `ParserProofs.ProgramRoundTrip` and `Parser.Program` state what it computes |
| ParserSpec.StmtCount | parser.c:31-41 | definition without a contract: the number of statements `program` reads, the index `i` it ends with |
| ParserSpec.RelationalOp | parser.c:77-97 | definition without a contract: the node kind of each comparison lexeme, and whether `relational` swaps the operands; `ParserProofs.OperatorLevel` and `ParserProofs.GreaterSwapsAt` state its effect |
| ParserSpec.SlotOffset | parser.c:150-155 | definition without a contract: `(c - 'a' + 1) * 8` stored in the `size_t` field `offset`, so it wraps modulo 2^64 for names before `a`; `ParserProofs.SlotOfVarChar` and `ParserProofs.VarCharOfSlot` state that it names the variable back |
| ParserSpec.PExpr | parser.c:49-51 | `expr` consumes at least one token when it succeeds and never reads past the end |
| ParserSpec.PAssign | parser.c:53-59 | `assign` consumes at least one token on success |
| ParserSpec.PEquality | parser.c:61-75 | `equality` consumes at least one token on success |
| ParserSpec.PEqualityRest | parser.c:64-74 | the `==`/`!=` loop never moves backwards |
| ParserSpec.PRelational | parser.c:77-97 | `relational` consumes at least one token on success |
| ParserSpec.PRelationalRest | parser.c:80-96 | the `<`/`<=`/`>`/`>=` loop never moves backwards |
| ParserSpec.PAdd | parser.c:99-113 | `add` consumes at least one token on success |
| ParserSpec.PAddRest | parser.c:102-112 | the `+`/`-` loop never moves backwards |
| ParserSpec.PMul | parser.c:115-129 | `mul` consumes at least one token on success |
| ParserSpec.PMulRest | parser.c:118-128 | the `*`/`/` loop never moves backwards |
| ParserSpec.PUnary | parser.c:131-139 | `unary` consumes at least one token on success |
| ParserSpec.PPrimary | parser.c:141-160 | `primary` consumes at least one token on success |
| ParserSpec.PStmt | parser.c:43-47 | `stmt` consumes at least one token on success |
| Parser.Expr | parser.c:49-51 | the method returns what `PExpr` specifies, leaving the cursor after the parsed tokens; on failure it reports the token index `PExpr` gives |
| Parser.Assign | parser.c:53-59 | the method computes `PAssign` |
| Parser.Equality | parser.c:61-75 | the method computes `PEquality` |
| Parser.ConsumeRelational | parser.c:80-95 | the four `consume` tests, in order, pick the relational operator the current token spells, and advance only then |
| Parser.Relational | parser.c:77-97 | the method computes `PRelational` |
| Parser.Add | parser.c:99-113 | the method computes `PAdd` |
| Parser.Mul | parser.c:115-129 | the method computes `PMul` |
| Parser.Unary | parser.c:131-139 | the method computes `PUnary` |
| Parser.Primary | parser.c:141-160 | the method computes `PPrimary` |
| Parser.Stmt | parser.c:43-47 | the method computes `PStmt` |
| Parser.ProgramStep | parser.c:35-38 | one pass of the `program` loop either fails with that statement's error or appends the statement and counts it |
| Parser.Program | parser.c:33-41 | `code` holds exactly the parsed statements, followed by NULL, if and only if the statements parse; otherwise it fails with the specified error |
| ParserProofs.ShowBin | parser.c:61-129 | a printed binary tree splits into its left operand, its operator and its right operand |
| ParserProofs.ShowParen | parser.c:143-147 | a tree printed in parentheses is the full expression between `(` and `)` |
| ParserProofs.ShowAtom | parser.c:150-159 | a number or variable prints as one lexeme, and that lexeme names it back |
| ParserProofs.PrintedLevels | parser.c:61-129 | printing a tree at any level it does not need parentheses for gives the same text |
| ParserProofs.OperatorLevel | parser.c:61-129 | an operator is not taken by any tighter level, and `relational` maps `<`/`<=` back to their node kinds |
| ParserProofs.SlotOfVarChar | parser.c:150-156 | every slot offset (a `size_t` whose signed reading is a multiple of 8 naming a character) is the offset of the character it names |
| ParserProofs.MulRestStop | parser.c:118-128 | the `mul` loop stops before a lexeme that is not `*` or `/` |
| ParserProofs.AddRestStop | parser.c:102-112 | the `add` loop stops before a lexeme that is not `+` or `-` |
| ParserProofs.RelationalRestStop | parser.c:80-96 | the `relational` loop stops before a lexeme that is not a comparison |
| ParserProofs.EqualityRestStop | parser.c:64-74 | the `equality` loop stops before a lexeme that is not `==` or `!=` |
| ParserProofs.MulRestStep | parser.c:120-125 | one pass of the `mul` loop builds the node from the accumulated left operand |
| ParserProofs.AddRestStep | parser.c:104-109 | one pass of the `add` loop builds the node from the accumulated left operand |
| ParserProofs.RelationalRestStep | parser.c:82-89 | a pass of the `relational` loop for `<`/`<=` keeps the operand order |
| ParserProofs.EqualityRestStep | parser.c:66-71 | one pass of the `equality` loop builds the node from the accumulated left operand |
| ParserProofs.MulFromUnary | parser.c:116-117 | `mul` starts with one `unary` and then runs its loop |
| ParserProofs.AddFromMul | parser.c:100-101 | `add` starts with one `mul` and then runs its loop |
| ParserProofs.RelationalFromAdd | parser.c:78-79 | `relational` starts with one `add` and then runs its loop |
| ParserProofs.EqualityFromRelational | parser.c:62-63 | `equality` starts with one `relational` and then runs its loop |
| ParserProofs.AssignStep | parser.c:53-59 | `lhs = assign` builds an assignment node whose right side is parsed recursively |
| ParserProofs.AssignStop | parser.c:53-59 | without `=`, `assign` is its `equality` |
| ParserProofs.PrimaryParen | parser.c:143-147 | `( expr )` parses to the inner tree |
| ParserProofs.PrimaryAtom | parser.c:150-159 | a number parses to a number node, and a name to a variable node at its stack offset |
| ParserProofs.UnaryRoundTrip | parser.c:131-160 | `unary` and `primary` read back every printed atom or parenthesised tree |
| ParserProofs.MulRoundTrip | parser.c:115-129 | `mul` reads back every tree printed at its level |
| ParserProofs.AddRoundTrip | parser.c:99-113 | `add` reads back every tree printed at its level |
| ParserProofs.RelationalRoundTrip | parser.c:77-97 | `relational` reads back every tree printed at its level |
| ParserProofs.EqualityRoundTrip | parser.c:61-75 | `equality` reads back every tree printed at its level |
| ParserProofs.AssignRoundTrip | parser.c:53-59 | `assign` reads back every tree printed at its level |
| ParserProofs.ExprRoundTrip | parser.c:49-129 | `expr` reads back every tree it can build, printed with the fewest parentheses, when no operator follows |
| ParserProofs.ShowInjective | parser.c:49-160 | two trees with the same printed form are equal: the grammar is unambiguous for the trees the parser builds |
| ParserProofs.VarCharOfSlot | parser.c:150-156 | every name gets a slot, 8-aligned in its signed reading, and the slot names it back, also when it wraps modulo 2^64 |
| ParserProofs.SlotWraps | parser.c:154 | the `size_t` slot of `_` is 2^64 - 8 and that of `A` is 2^64 - 248; that of `a` is 8 |
| ParserProofs.LeftGroups | parser.c:61-129 | `a op1 b op2 c` groups as `(a op1 b) op2 c` when `op1` is not `=` and `op2` binds no more tightly than `op1` (left associativity, precedence); `=` groups to the right (`ParserProofs.AssignRightAssociative`) |
| ParserProofs.RightGroups | parser.c:61-129 | `a op1 b op2 c` groups as `a op1 (b op2 c)` when `op2` binds strictly more tightly |
| ParserProofs.AssignRightAssociative | parser.c:53-59 | `x = y = n` assigns `n` to `y` and the result to `x` |
| ParserProofs.RelationalRestSwap | parser.c:84-86 | a pass of the loop for `>` or `>=` builds the node with its operands swapped |
| ParserProofs.GreaterSwapsAt | parser.c:84-92 | `a > b` parses as `b < a`, and `a >= b` as `b <= a` |
| ParserProofs.GreaterSwapsOperands | parser.c:84-92 | the printed `a > b` (or `a >= b`) parses to the `<` (`<=`) node with `b` on the left |
| ParserProofs.UnarySigns | parser.c:131-139 | `-x` parses as `0 - x`, and `+x` as `x` |
| ParserProofs.ShowStarts | parser.c:141-160 | a printed tree is never empty and never starts with the EOF |
| ParserProofs.StmtRoundTrip | parser.c:43-47 | a statement reads back with its `;`; a missing `;` is reported at the token that stands in its place |
| ParserProofs.ProgramStep | parser.c:35-38 | one more statement in front of a parsed program is one more statement in its result |
| ParserProofs.ProgramSplit | parser.c:35-38 | a printed program splits into its first statement, its `;` and the rest |
| ParserProofs.ProgramRoundTrip | parser.c:33-41 | `program` reads back every printed list of statements and counts them |
| X86.RunAppend | codegen.c:23-67 | running two pieces of code in turn is running their concatenation |
| X86.NetAppend | codegen.c:23-67 | the stack effect of concatenated code is the sum of the pieces' effects |
| X86.StaysAboveAppend | codegen.c:23-67 | two pieces that each stay above the entry depth stay above it together |
| X86.StaysAboveHigher | codegen.c:23-67 | code that stays above a depth stays above any higher one |
| X86.StackNeutral | codegen.c:35-64 | code without pushes or pops leaves the depth unchanged |
| Codegen.Relation | codegen.c:16-21 | definition without a contract: `cmp rax, rdi; set<cc> al; movzb rax, al`; `Codegen.RelationYieldsFlag` states what it computes |
| Codegen.Operation | codegen.c:35-64 | definition without a contract: the instructions of each switch case, none for a kind without a case; `Codegen.OperationCorrect` states what they compute |
| Codegen.Tail | codegen.c:32-66 | definition without a contract: pop both operands, the switch case, push; `Codegen.TailCorrect` states what it computes |
| Codegen.Gen | codegen.c:23-67 | `gen` pushes exactly one word net and never pops below its entry depth |
| Codegen.Codegen | codegen.c:75-86 | the emitted program leaves the stack as it found it and never pops below it |
| Codegen.Apply | codegen.c:35-64 | every defined result of an operator is a `long` |
| Codegen.Eval | codegen.c:23-67 | every defined value of a tree is a `long` |
| Codegen.WrapAgrees | codegen.c:36-44 | `add`, `sub` and `imul` on words agree with signed arithmetic wrapped to 64 bits |
| Codegen.CqoExtends | codegen.c:46 | `cqo` sign-extends `rax` into `rdx:rax` |
| Codegen.QuotFits | codegen.c:47 | the machine's overflow test for `idiv` rejects exactly LONG_MIN / -1 |
| Codegen.LowByte | codegen.c:18-19 | `set<cc> al` then `movzb rax, al` leaves exactly the flag bit |
| Codegen.RelationYieldsFlag | codegen.c:16-21 | `gen_relation` leaves 1 in `rax` if the comparison holds of the signed operands, else 0 |
| Codegen.SetAndWiden | codegen.c:18-19 | `set<cc> al; movzb rax, al` replaces `rax` with the condition's bit and changes nothing else |
| Codegen.Widen | codegen.c:19 | `movzb rax, al` keeps only the low byte |
| Codegen.SetLowByte | codegen.c:18 | `set<cc> al` writes the condition's bit into the low byte only |
| Codegen.OperationCorrect | codegen.c:35-64 | each switch case computes the operator's value in `rax` (two's-complement wrap-around for `+`, `-`, `*`; truncating `/`), and faults exactly on a zero divisor and on LONG_MIN / -1 |
| Codegen.NoOperation | codegen.c:35-64 | a kind without a switch case leaves the left operand in `rax` |
| Codegen.ArithCorrect | codegen.c:36-44 | `add`, `sub` and `imul` compute the wrapped sum, difference and product |
| Codegen.DivCorrect | codegen.c:45-48 | `cqo; idiv rdi` is C's truncating `/`, faulting on a zero divisor and on LONG_MIN / -1 |
| Codegen.TailCorrect | codegen.c:32-66 | the tail replaces the two operands on top of the stack with their result, and faults exactly on a zero divisor and on LONG_MIN / -1 |
| Codegen.OperateAndPush | codegen.c:35-66 | the switch case followed by `push rax` pushes the operator's value |
| Codegen.ThenPush | codegen.c:66 | `push rax` pushes the value computed in `rax` |
| Codegen.PopTwo | codegen.c:32-33 | `pop rdi; pop rax` loads the right operand into `rdi` and the left into `rax` |
| Codegen.GenCorrect | codegen.c:23-67 | `gen`'s code pushes the tree's value (`+`, `-`, `*` wrapping in two's complement) on top of the untouched stack, and faults exactly when some division in the tree has a zero divisor or is LONG_MIN / -1 |
| Codegen.CodegenReturns | codegen.c:75-86 | the program returns the tree's value in `rax` with the stack restored, or faults exactly when some division in the tree has a zero divisor or is LONG_MIN / -1 |
| Codegen.Epilogue | codegen.c:84-85 | `pop rax; ret` returns the word on top of the stack |
| Codegen.BinaryBalance | codegen.c:29-66 | both operands' code plus the tail push one word net |
| Codegen.TailBalance | codegen.c:32-66 | the tail pops two words and pushes one |
| Codegen.OperationNeutral | codegen.c:35-64 | no switch case pushes or pops |
| Codegen.BracketBalance | codegen.c:32-66 | two pops, a neutral case and a push pop one word net and need two on the stack |
| Codegen.GreaterMeaning | codegen.c:55-60 | the swapped node the parser builds for `a > b` or `a >= b` has the value of the comparison as written |
| StageOne.LexFrom | k9cc.c:100-126 | definition of the stage-one `tokenize` loop from a position, without a contract of its own; `StageOne.LexCovers` and `StageOne.LexFailsAtFirstBad` state what it computes |
| StageOne.LexSkip | k9cc.c:107-110 | blanks before a position change nothing in the tokenization |
| StageOne.TokenAt | k9cc.c:112-120 | definition without a contract: the token a `+`, `-` or digit run yields at a non-blank position |
| StageOne.After | k9cc.c:112-120 | the position after a token lies past its start, inside the input |
| StageOne.Covers | k9cc.c:100-126 | definition without a contract: a token list for the text from a position: after blanks, one token per sign or digit run, then one EOF token at the end |
| StageOne.LexCovers | k9cc.c:100-126 | `tokenize` returns a list if and only if that list covers the text |
| StageOne.FirstBad | k9cc.c:100-126 | the first character no rule accepts, with only acceptable ones before it |
| StageOne.LexFailsAtFirstBad | k9cc.c:122 | `tokenize` fails if and only if the input holds an unacceptable character, and reports the first one |
| StageOne.SkipGood | k9cc.c:100-126 | skipping acceptable characters does not move the first bad one |
| StageOne.LexShape | k9cc.c:100-126 | a successful tokenization ends with its only EOF token, and each token sits at a character of its class with the value `strtol` reads (soundness only; `StageOne.LexCovers` states completeness) |
| StageOne.ConsShape | k9cc.c:90-96 | a well-placed token in front of a well-formed list keeps it well formed |
| StageOne.Tokenize | k9cc.c:100-126 | the loop computes the specified tokenization |
| StageOne.Cursor.constructor | k9cc.c:152 | the cursor starts at the first token of a well-formed list |
| StageOne.Cursor.AtEof | k9cc.c:85-87 | true exactly at the last token |
| StageOne.Cursor.Consume | k9cc.c:57-63 | advances if and only if the current token is an operator whose first character is `op` |
| StageOne.Cursor.Expect | k9cc.c:67-72 | passes and advances on operator `op`; otherwise fails at the current token's position in the input |
| StageOne.Cursor.ExpectNumber | k9cc.c:76-83 | returns and skips a number token; otherwise fails at the current token's position in the input |
| StageOne.Steps | k9cc.c:163-171 | definition of the compile loop from a token, without a contract of its own; `StageOne.StepsComplete` and `StageOne.StepsSound` state what it computes |
| StageOne.Translate | k9cc.c:159-172 | definition without a contract: the first number, then the loop, then `ret`; `StageOne.TranslateComplete` and `StageOne.TranslateSound` state what it computes |
| StageOne.Compile | k9cc.c:159-172 | the compile loop computes the specified translation |
| StageOne.ValueFirst | k9cc.c:163-171 | folding the first term in first gives the same sum |
| StageOne.StepsComplete | k9cc.c:163-171 | the loop accepts every spelled list of terms, and its code turns the accumulator in `rax` into the running sum |
| StageOne.StepsSound | k9cc.c:163-171 | whatever the loop accepts spells some list of terms |
| StageOne.TranslateComplete | k9cc.c:159-172 | every `n0 ± … ± nk` compiles, and the program returns its sum wrapped to 64 bits |
| StageOne.TranslateSound | k9cc.c:159-172 | whatever compiles spells `n0 ± … ± nk` |
| StageOne.CompileMain | k9cc.c:144-174 | `main` computes tokenize-then-translate of its argument |
| StageOne.Compiled | k9cc.c:144-174 | definition without a contract: tokenize, then translate; `StageOne.CompiledValue` and `StageOne.ReadsCompile` state what it computes |
| StageOne.TermsText | k9cc.c:100-126 | definition without a contract: from a position, after blanks, the text reads a sign, then a digit run whose `strtol` value is the term, for each term, then only blanks |
| StageOne.NumberText | k9cc.c:117-120 | definition without a contract: after blanks, a digit run whose `strtol` value is `n`, then the terms |
| StageOne.Reads | k9cc.c:144-174 | definition without a contract: the whole input reads `n0 ± n1 ± … ± nk` |
| StageOne.SpellsShift | k9cc.c:163-171 | a token in front of a list shifts the terms it spells by one place |
| StageOne.TermsTextLex | k9cc.c:100-126 | the text reads `± n1 ± … ± nk` from a position if and only if `tokenize` succeeds there with a list that spells those terms |
| StageOne.TermsTextAt | k9cc.c:105-123 | the same at a non-blank position, case by case |
| StageOne.NumberTextLex | k9cc.c:100-126 | the text reads `n ± n1 ± … ± nk` from a position if and only if `tokenize` succeeds there with a list that spells them |
| StageOne.CompiledValue | k9cc.c:144-174 | whatever `main` compiles reads `n0 ± n1 ± … ± nk` in the input text (blanks allowed between the parts), and its program returns that sum wrapped to 64 bits |
| StageOne.ReadsCompile | k9cc.c:144-174 | every input text reading `n0 ± n1 ± … ± nk` compiles, to a program that returns that sum wrapped to 64 bits |
| Pipeline.CompilesToValue | codegen.c:75-86 | an expression's printed form parses back to the tree, and the compiled tree returns the tree's value |
| Pipeline.ParsesBack | parser.c:49-51 | the printed form of a tree followed by EOF parses back to that tree |
| Pipeline.ParsesAt | parser.c:49-51 | a tree printed before the EOF parses back to that tree |
| Pipeline.GreaterCompiles | parser.c:84-92 | the compiled `a > b` (`a >= b`) returns 1 exactly when the comparison holds as written, although the parser swaps the operands and the code uses `setl` (`setle`) |
| Pipeline.GreaterRuns | codegen.c:55-60 | the swapped comparison node runs to 1 exactly when the comparison holds as written |

## Left out

- `report.c`, `utility.c` and `type.c` are not part of this model. They hold error printing, helpers and types the core does not reach.
- Printing is not modelled. `cprintf`, `print_header` and the assembly text are not modelled; instructions are datatypes, and a program is the list of instructions it would print.
- The argument-count check of `main` (k9cc.c:145-147) is not modelled. Reading `argv[1]` becomes the input string parameter.
- Output already printed before a fatal error is not modelled. A `Failure` discards it, and the messages of `error`/`error_at` are reduced to the reported position.
- Heap allocation and the linked token list are not modelled. `calloc` and the `next` links become sequences, and `new_node`/`new_node_num`/`new_token` (parser.c:5-17, lexer.c:81-88, k9cc.c:90-96) become datatype constructors.
- `is_1st_letter_of_symbol` and `is_letter_of_symbol` (lexer.c:9-15) are predicates. ctype functions follow the "C" locale, on ASCII only.
- `strtol` is modelled by its result on a run of decimal digits: saturation at LONG_MAX, then conversion to `int` modulo 2^32. `errno` and `endptr` beyond the digit run are not modelled.
- `Codegen.Gen`: requires a tree without variable nodes (`Generable`). `gen` of `codegen.c` has no case for `ND_LVAR` and would follow the null children of a variable node. A binary node of kind `ND_NUM` is excluded as well. An `ND_ASSIGN` node with generable operands is accepted: the switch has no case for it, so no operation is emitted and the node's value is its left operand (`Codegen.NoOperation`).
- `Codegen.Eval`: signed overflow of `+`, `-` and `*`, undefined in C, is given the two's-complement wrap-around that `add`, `sub` and `imul` perform.
- `Codegen.Gen`: `push <imm>` takes any integer and stores it wrapped to 64 bits. The assembler's 32-bit immediate range is not checked.
- `Lexer.TokenCursor.ConsumeKind`: keeps the cursor invariant only for kinds other than EOF. Consuming the EOF token leaves the cursor past the end of the list, as in the source.
- `Parser.Program`: requires that the statements fit in `code[100]`, with at least one slot left for the final NULL. With more statements, parser.c:37 writes past the array, which is undefined behaviour.
- Error positions are not all character positions. The lexer's and stage one's errors carry the character position that `error_at` prints. The parser's errors carry the index of the offending token in the token list; `error_at` would print the character position stored in that token, which the model does not look up.
- `expect`'s message text (`'%c'`/`"%s"` of the expected operator) is not modelled, only the position.
- Keywords are only `return`, `if`, `else` and `while`, as `tokenize` tries them. `for` lexes as an identifier.
