# pfxcalc in Dafny

pfxcalc is a calculator for integer expressions in prefix notation: `+ 1 2`
means `1 + 2`. The source text passes through three stages:

- a lexer (`lexer.cpp`) turns characters into tokens;
- a recursive-descent parser (`parser.cpp`) builds a syntax tree of `E`
  (expression) nodes over token leaves;
- an evaluator (`interp.cpp`) walks a chain of `U` (unit) nodes and evaluates
  each expression against a variable environment.

This project models the three stages as pure functions and proves their
properties.

- **Lexer**: maximal munch over a whole input, the one-token lookahead
  buffer, and a round trip through a rendering of tokens. It also covers the
  position counters, both as `unread` is written and with the counters rolled
  back.
- **Parser**: a tree comes out exactly when its leaves, read left to right,
  are the tokens consumed. Parsing fails only by running out of tokens.
- **Evaluator**: an evaluation changes only the variables its tree assigns,
  and an assignment binds its name. A well-formed expression fails only on an
  undefined variable or a zero divisor. Evaluation agrees with an independent
  stack-machine reading of prefix notation.

Modules and files:

| file | module | contents |
|---|---|---|
| `options.dfy` | `Options` | `Option` |
| `syntax.dfy` | `Syntax` | token kinds, tokens, locations, the `Leaf`/`E`/`U` tree, leaves in pre-order, the expression grammars |
| `errors.dfy` | `Errors` | the program's error conditions and `Result` |
| `lexer.dfy` | `Lexer` | `read`, `unread`, `read_token`, `read_continued_token`, `fill`, `next`, `peek`; the token stream |
| `lexer_properties.dfy` | `LexerProperties` | lemmas about the lexer |
| `decimal.dfy` | `Decimal` | base-10 `strtol` and the decimal spelling it inverts |
| `parser.dfy` | `Parser` | `peek`, `next`, `parse_E`, `parse`, and `parse_E` as written |
| `parser_properties.dfy` | `ParserProperties` | lemmas about the parser |
| `interp.dfy` | `Interp` | `eval`, `exec`, C++ integer division |
| `interp_properties.dfy` | `InterpProperties` | lemmas about the evaluator, and the stack-machine reference |
| `pipeline.dfy` | `Pipeline` | lexing, parsing and evaluation end to end, as the driver does it and corrected |

Modelling choices:

- **Input.** The input is a `string` (`seq<char>`), not a `FILE*`. Reading
  past the end sets the sticky end-of-file flag, as `fgetc` returning a
  negative value does.
- **Character classes.** `isspace`, `isalpha` and `isdigit` use their ASCII
  ("C" locale) classes.
- **Errors.** The fatal errors become values of `Errors.Error`:
  - `err_fatal`, `SemanticError::raise` and `RuntimeError::raise` become the
    matching error values;
  - the native division trap becomes `DivisionByZero`;
  - tree shapes that the code meets with undefined behaviour or a failed
    `assert` become `MalformedTree`.
- **The parser's lexer.** The lexer is deterministic, and the parser reaches
  it only through `lexer_next`. So the parser's lexer is the sequence of
  tokens those calls return (`Lexer.Scan`) together with how that sequence
  stops. A lexer error after the parsed expression is never reached.
- **Two lexers.** `unread` (lexer.cpp:69-71) pushes the character back but
  leaves the line and column counters advanced. `Lexer.LexState` carries a
  flag choosing that behaviour or counters rolled back to their values before
  the read. `Lexer.Init` starts the corrected lexer, `Lexer.InitAsWritten`
  the one as written. The parser runs over either (`Parser.ParseFrom`).
  `Parser.Parse` and `Pipeline.Run` use the corrected one;
  `Parser.ParseAsWritten` and `Pipeline.RunAsWritten` use the one as
  written.
- **Counters.** `Lexer.Advance` gives the counters after reading a text
  from given counters, one character at a time. `Lexer.LineCol` is the
  physical line and column of an index, which is `Advance` from line 1,
  column 1 over everything before it. Each lexer step states how it moves
  the counters in terms of `Advance`, whichever `unread` it uses.
- **Nodes.** A node built by `node_build0` carries no source location
  (`at == None`). The node wrapping a token is attributed to `<input>` at the
  token's line and column.
- **Evaluation order.** Operands are evaluated left first, then right. C++
  leaves this order unspecified; it matters whenever one operand assigns a
  variable the other reads, or both operands fail (which error is reported).
- **Leaf expressions.** A leaf expression is an `E` node with one child, the
  token's leaf: `eval` tests for one child (interp.cpp:51), and `parse_E`
  builds an operand's `E` with the token as its only child
  (parser.cpp:87-93).

## Model

| member | source | states |
|---|---|---|
| Lexer.Read | lexer.cpp:53-67 | a character advances the position; a newline increments the line and resets the column to 1, any other character increments the column (the counters move over it as `Advance` says), so exact counters stay exact; at the end of input no character is read, the counters are unchanged and the sticky eof flag is set |
| Lexer.Unread | lexer.cpp:69-71 | after `unread` the next `read` returns the same character and moves to the same position; corrected, the counters return to their values before the read, exact counters stay exact, and re-reading leaves the lexer exactly as the first read did; as written, the counters stay where the read left them, so exact counters become wrong |
| Lexer.Init | lexer.cpp:35-36 | a fresh lexer is at line 1, column 1, with nothing read or buffered, and its counters are exact |
| Lexer.InitAsWritten | lexer.cpp:35-36 | a fresh lexer as written: line 1, column 1, nothing read or buffered, exact counters, and an `unread` that leaves the counters advanced |
| Lexer.AdvanceAppend | lexer.cpp:53-67 | reading two texts one after the other moves the counters as reading them joined does |
| Lexer.LineColAdvance | lexer.cpp:53-67 | the physical line and column of an index are the counters after reading everything before it from line 1, column 1 |
| Lexer.FirstNonSpace | lexer.cpp:83-90 | whitespace is skipped up to the first character that is not whitespace, or the end |
| Lexer.SkipSpace | lexer.cpp:80-95 | the skip loop returns the first non-whitespace character, the one just before the position it stops at, without moving back over it; at the end of input it returns no character and sets eof; when the counters were exact, the counters it returns are the character's physical line and column, and the counters it leaves stay exact |
| Lexer.SkipSpaceMoves | lexer.cpp:80-95 | with either `unread`, the counters the loop returns are the counters it started from, moved over the whitespace it skipped |
| Lexer.SkipSpaceReads | lexer.cpp:80-95 | with either `unread`, the loop leaves the counters moved over every character it read, the returned one included |
| Lexer.RunEnd | lexer.cpp:124-138 | reference definition of where the loop of `read_continued_token` stops: a run of one character class extends as far as it can; `Decimal.Strtol` measures its digits with it |
| Lexer.ReadContinued | lexer.cpp:124-138 | the lexeme is extended by the maximal run of the class; the character ending the run is not consumed; eof is set exactly when the run reaches the end of input; with counters rolled back and exact, they stay exact |
| Lexer.ReadContinuedMoves | lexer.cpp:124-138 | with either `unread`, the counters move over the run, and as written once more over the character that ends it before the end of input |
| LexerProperties.ReadContinuedRunEnd | lexer.cpp:124-138 | `read_continued_token` stops exactly at the end of the maximal run of its class, the place `RunEnd` defines |
| Lexer.OperatorKind | lexer.cpp:105-113 | `+ - * /` map to their arithmetic token kinds, every other character to none |
| Lexer.Classify | lexer.cpp:97-118 | after whitespace, a letter gives the maximal identifier, a digit the maximal literal, an operator a one-character token, and any other character an unrecognized-character error on the token's line; the token is reported at the counters the skip loop returned |
| Lexer.ClassifyMoves | lexer.cpp:97-118 | with either `unread`, the counters move from just after the first character over the rest of the token, and as written once more over the character ending an identifier or a literal |
| Lexer.ClassifyChains | lexer.cpp:79-118 | counters that moved up to the token's first character go on moving over the token, as written once more over the character ending an identifier or a literal |
| Lexer.ReadToken | lexer.cpp:79-119 | only whitespace left gives no token and sets eof; otherwise the scan follows maximal munch from the first non-whitespace character; with counters rolled back and exact, the token carries that character's physical line and column and the counters stay exact |
| Lexer.ReadTokenPosition | lexer.cpp:79-119 | with either `unread`, the token, or the error, is reported at the counters moved over the whitespace before it |
| Lexer.ReadTokenMoves | lexer.cpp:79-138 | with either `unread`, the counters move over every character consumed, and as written once more over the character ending an identifier or a literal |
| Lexer.Fill | lexer.cpp:73-77 | a full buffer or a lexer past eof is left alone; otherwise the buffer receives the token `read_token` scans, or the scan's error is reported |
| Lexer.Next | lexer.cpp:41-46 | returns the buffered token and empties the buffer; with an empty buffer it scans a token; after eof it returns none; every token returned decreases the remaining input |
| Lexer.Peek | lexer.cpp:48-51 | returns the buffered token, scanning one into an empty buffer first, and leaves it buffered; after eof with an empty buffer it returns none and changes nothing |
| Lexer.Tokenize | lexer.cpp:152-154 | the token list successive `lexer_next` calls return up to `None`; the only way it fails is an unrecognized character |
| Lexer.Scan | lexer.cpp:152-154 | the tokens successive `lexer_next` calls return and how they stop; a failure is always an unrecognized character (`ScanTokenize` and `ScanLocated` relate it to `Tokenize` and to the input) |
| LexerProperties.PeekIdempotent | lexer.cpp:48-51 | a second `peek` returns the same token and state as the first |
| LexerProperties.NextAfterPeek | lexer.cpp:41-51 | `peek` does not consume: it succeeds when `next` does, with the same token, and `next` after it behaves as `next` alone |
| LexerProperties.NextNoneAtEnd | lexer.cpp:92-95 | `next` returns no token exactly when the buffer is empty and only whitespace remains |
| LexerProperties.MaximalRunUnique | lexer.cpp:124-138 | maximal munch is determined: two maximal runs from one index end at the same place |
| LexerProperties.NextCovers | lexer.cpp:79-119 | everything a successful `next` moves past is whitespace, letters, digits or operators |
| LexerProperties.TokenizeCovers | lexer.cpp:79-119 | an input the lexer reads to the end holds only those characters |
| LexerProperties.AssignAndSemicolonRejected | lexer.cpp:114-116 | an `=` or `;` anywhere in the unread input makes lexing fail |
| LexerProperties.TokenizeWellSpelled | lexer.cpp:100-113 | every token is a letter run, a digit run, or one operator character of its kind |
| LexerProperties.TokenizeRender | lexer.cpp:79-138 | rendering any well-spelled tokens with a space before each and lexing the text gives back the same kinds and lexemes |
| LexerProperties.DigitsAreOneLiteral | lexer.cpp:102-103 | a run of digits lexes as exactly one integer literal with that text, at line 1, column 1 |
| LexerProperties.LettersAreOneIdentifier | lexer.cpp:100-101 | a run of letters lexes as exactly one identifier with that text, at line 1, column 1 |
| LexerProperties.OperatorAfterLiteralColumn | lexer.cpp:131-135 | with counters rolled back, `12+` lexes as the literal `12` and then `+` at column 3: the character ending the run starts the next token |
| LexerProperties.OperatorAfterLiteralColumnAsWritten | lexer.cpp:69-71 | as written, `12+` reports the `+` at column 4: the `+` ending the literal is counted when read and again when read after `unread` |
| LexerProperties.PlusOneStream | lexer.cpp:69-71 | `+ 1` and a newline stream as `+` and `1` and stop at the end on line 2 with counters rolled back, on line 3 as written |
| LexerProperties.NextLocated | lexer.cpp:84-86 | with counters rolled back, the token `next` returns lies in the input at its reported line and column, and the counters stay exact |
| LexerProperties.TokenizeLocated | lexer.cpp:84-86 | with counters rolled back, every token of an input lies in it at its reported line and column |
| LexerProperties.ScanTokenize | lexer.cpp:152-154 | the tokens successive `lexer_next` calls return are the whole token list when the lexer reaches the end, and the stream stops with the lexer's error otherwise |
| LexerProperties.ScanCount | lexer.cpp:41-46 | each token `next` hands out is the buffered one or takes at least one character, so the stream holds no more tokens than the characters left plus a buffered one |
| LexerProperties.TokenizeCount | lexer.cpp:41-46 | the same bound on the token list of a successful tokenizing |
| LexerProperties.ScanKinds | lexer.cpp:100-113 | the lexer hands out only operands and arithmetic operators |
| LexerProperties.ScanLocated | lexer.cpp:53-67 | with counters rolled back and exact, every streamed token lies in the input at its reported position, and at the end the line counter is the line the input ends on |
| LexerProperties.CountersRolledBack | lexer.cpp:53-71 | with counters rolled back, `ab\ncd` lexes as `ab` at line 1 and `cd` at line 2, column 1 |
| LexerProperties.CountersDriftAsWritten | lexer.cpp:69-71 | as written, `ab\ncd` reports `cd` at line 3, while its physical line is 2 |
| Decimal.Strtol | interp.cpp:54-56 | a lexeme of digits converts to its base-10 value, which is not negative |
| Decimal.DecimalRoundTrip | interp.cpp:54-56 | the conversion reads back the decimal spelling of every natural number |
| Decimal.DecimalOfValue | interp.cpp:54-56 | a digit string without leading zeros is the spelling of its value |
| Decimal.StrtolSign | interp.cpp:56 | `strtol` on a `-` or `+` followed by any digit string, empty or with leading zeros, is the digits' value, negated for `-` |
| Decimal.StrtolSigned | interp.cpp:56 | a leading `-` negates and a leading `+` keeps the value of the spelling that follows |
| Parser.Wrap | parser.cpp:66-70 | the node wrapping a token has its kind and lexeme and is located at `<input>`, the token's line and column |
| Parser.Start | parser.cpp:42-50 | parsing over a lexer starts with nothing buffered and every token the lexer will hand out still to be consumed, wrapped, in order |
| Parser.ParseFrom | parser.cpp:48-50 | over any lexer, with `return e` restored, a successful parse yields one expression tree |
| Parser.Peek | parser.cpp:62-75 | the next pending node, buffered without consuming it; at most one token is taken from the lexer; none when the lexer has reached the end; the lexer's error when it fails |
| Parser.Next | parser.cpp:52-60 | succeeds exactly when a node is pending, hands out the first pending node and empties the buffer; otherwise fails with unexpected end of input at the lexer's line, or with the lexer's error |
| Parser.ParseE | parser.cpp:80-107 | the tree built is an expression of the grammar, and its leaves in pre-order are exactly the nodes consumed, in order |
| Parser.ParseOperands | parser.cpp:94-103 | after an arithmetic operator, two operand expressions are parsed in order; the tree built is a three-child expression headed by the operator, whose leaves are the operator and exactly the nodes consumed |
| Parser.Parse | parser.cpp:48-50 | over the corrected lexer, a successful parse yields one expression tree |
| Parser.ParseEAsWritten | parser.cpp:80-107 | as written, `parse_E` reads the same tokens but hands back no node |
| Parser.ParseAsWritten | parser.cpp:48-50 | as written, over the lexer as written, `parse` never yields a tree |
| ParserProperties.PeekIdempotent | parser.cpp:62-75 | a second `peek` returns the same node and state as the first |
| ParserProperties.NextAfterPeek | parser.cpp:52-60 | `next` after `peek` hands out the peeked node and empties the buffer; a `peek` that finds nothing makes `next` report the end of input |
| ParserProperties.NextTakesOneToken | parser.cpp:62-71 | with an empty buffer, `next` takes exactly one token from the lexer and wraps it, or reports how the lexer stopped |
| ParserProperties.ParseEIffLeaves | parser.cpp:82-103 | parsing yields a tree exactly when it is an expression tree whose pre-order leaves are the next pending nodes |
| ParserProperties.ParseFromIffPrefix | parser.cpp:48-50 | over any lexer, `parse` yields a tree exactly when its leaves are the first tokens the lexer hands out, wrapped; later tokens play no part |
| ParserProperties.ParseIffPrefix | parser.cpp:48-50 | the same, over the corrected lexer reading an input |
| ParserProperties.ParseIffTokenPrefix | parser.cpp:48-50 | the same, against the full token list of an input the lexer accepts |
| ParserProperties.ParsedLeavesLocated | parser.cpp:66-70 | over the corrected lexer, every leaf of a parsed tree is a token of the input, located at `<input>` and the physical position of its first character |
| ParserProperties.ParseEIllegal | parser.cpp:104-106 | a leading node that is neither an operand nor an operator is an illegal expression naming its line and lexeme |
| ParserProperties.ParseEFailsOnlyAtStop | parser.cpp:52-60 | over lexed tokens, parsing fails only by reading past the last token |
| ParserProperties.ParseFromFailsOnlyAtStop | parser.cpp:52-60 | over any lexer with nothing buffered, `parse` fails only with the error the lexer stops with: its failure, or unexpected end of input at its line counter |
| ParserProperties.ParseFailsOnlyAtStop | parser.cpp:52-60 | over the corrected lexer, `parse` fails with the lexer's error, or with unexpected end of input on the line where the input ends |
| ParserProperties.OperatorShortOfOperand | parser.cpp:94-103 | an operator followed by only one operand fails reading its second operand, with the error the lexer stops with |
| ParserProperties.EndOfInputLineAsWritten | parser.cpp:52-60 | for `+ 1` and a newline, the end of input is reported on line 2 with counters rolled back and on line 3 as written, whether or not `parse_E` returns its node |
| ParserProperties.AsWrittenReadsTheSame | parser.cpp:80-107 | as written, `parse_E` consumes the same tokens and fails exactly when and how the corrected one does |
| ParserProperties.ParseAsWrittenLosesTree | parser.cpp:48-50 | over the lexer as written, `parse` as written fails exactly when and with the error that `parse` with `return e` restored does, and where that one yields a tree, it succeeds with none |
| Interp.TruncDiv | interp.cpp:80-81 | the quotient leaves a remainder smaller than the divisor and of the dividend's sign, so it rounds toward zero |
| Interp.Arith | interp.cpp:73-81 | the four operators fail exactly on division by zero |
| Interp.Eval | interp.cpp:44-100 | a successful evaluation keeps every variable defined |
| Interp.ExecUnit | interp.cpp:24-39 | a chain of units succeeds exactly when evaluating its expressions in order succeeds, yields the last value, and reports the first failure; a unit that is not a chain fails |
| Interp.Exec | interp.cpp:20-42 | no tree gives -1; a chain is run in an empty environment and gives the value of its last expression |
| InterpProperties.EvalFrame | interp.cpp:83-95 | an evaluation changes no variable other than those the tree assigns |
| InterpProperties.EvalPure | interp.cpp:51-81 | a tree without `=` leaves the environment exactly as it was |
| InterpProperties.EvalAssign | interp.cpp:83-95 | `= x e` has the value of `e`, binds `x` to it, leaves every other variable as `e` left it, and fails exactly when `e` fails |
| InterpProperties.AssignKeepsOthers | interp.cpp:92 | after `= x e` every other variable that `e` does not assign keeps its old binding |
| InterpProperties.ArithIsExpr | parser.cpp:89-103 | every tree the parser builds is an expression the evaluator is written for, and assigns nothing |
| InterpProperties.ExprErrors | interp.cpp:58-81 | a well-formed expression fails only on an undefined variable or a zero divisor |
| InterpProperties.EvalUnknownOperator | interp.cpp:97-98 | a three-child node whose operator is not arithmetic or assignment is an unknown operator reported with its tag |
| InterpProperties.UndefinedVariableReported | interp.cpp:58-64 | an identifier evaluates to its binding, and an unbound one is an undefined variable at the expression's location |
| InterpProperties.LiteralValue | interp.cpp:54-56 | a literal spelling a number evaluates to that number and changes nothing |
| InterpProperties.TruncDivUnique | interp.cpp:80-81 | exactly one quotient has a remainder smaller than the divisor and of the dividend's sign |
| InterpProperties.TruncDivNegative | interp.cpp:80-81 | `-7 / 2` is -3 under C++ division where Euclidean division gives -4, and the other sign cases |
| InterpProperties.RunBackAppend | interp.cpp:73-81 | running the stack machine over two pieces of leaves runs the right piece first |
| InterpProperties.RunBackLeaves | interp.cpp:73-81 | the stack machine over an expression's leaves pushes exactly its value, and fails exactly where evaluation fails |
| InterpProperties.EvalIsPolish | interp.cpp:44-81 | evaluating a parsed expression agrees with the stack-machine reading of its leaves and changes no variable |
| InterpProperties.ChainUnits | parser.cpp:10-11 | the unit chain built from expressions by `U -> E ; U` gives them back in order |
| InterpProperties.ExecChain | interp.cpp:20-42 | executing a chain built from expressions evaluates them in order, each in the environment the previous left, and yields the last value |
| Pipeline.RunAsWritten | main.cpp:61-69 | as written, over the lexer as written and with `return e` restored, the driver fails with the parser's error when parsing fails |
| Pipeline.RunAsWrittenFails | main.cpp:61-69 | as written, the driver never yields a value: every input that parses makes `exec` fail on a tree it cannot read |
| Pipeline.Run | main.cpp:61-69 | corrected, the driver's result is the parsed expression's value in an empty environment, or the parser's error |
| Pipeline.RunIsPolish | main.cpp:61-69 | corrected, the result is the value the first expression's tokens denote in prefix notation |
| Pipeline.RunErrors | main.cpp:61-69 | corrected, the driver fails only with the lexer's error, unexpected end of input, an undefined variable or a zero divisor |
| Pipeline.RunIdentifierUndefined | interp.cpp:58-64 | since parsed input never assigns, an input whose expression names a variable fails |

## Left out

- `main.cpp` and `main.c`: flag handling, opening a file or standard input, printing tokens, trees and results, and rendering errors with exit codes. These are I/O. The token-printing loop of `main.cpp:47-59` calls `peek` and never consumes, and is not modelled.
- `Parser::Parser` (parser.cpp:42-43): the constructor leaves `m_lexer` and `m_next` uninitialised, so any use of the parser is undefined behaviour. The model starts the parser in the evidently intended state: it owns the lexer and its buffer is empty.
- `parse_U` (parser.cpp:77-78) has an empty body, and the `U` productions are not parsed. Chains of units are built directly (`InterpProperties.MakeChain`) to state what `exec` does.
- The null check after `next()` (parser.cpp:83-85) is unreachable: `next` never returns null. It is not modelled.
- `parser_create`, `parser_destroy` and `parser_parse` (parser.cpp:113-120) have empty bodies. The lexer API wrappers (lexer.cpp:144-166), token.c and the node allocation of node.h are memory management; immutable datatypes replace them.
- `ParserTreePrint` is debug output and is not part of this model.
- The laziness of the lexer: the parser reads a pre-scanned token stream, which returns the same tokens in the same order.
- Lexer.SkipSpace: its own contract gives the returned counters as a physical position only when the counters were exact. For any counters, `Lexer.SkipSpaceMoves` and `Lexer.SkipSpaceReads` state how they move; they are separate lemmas so that each proof stays small.
- Lexer.ReadContinued: likewise its own contract keeps the counters exact only when they are rolled back; `Lexer.ReadContinuedMoves` states how they move for either `unread`.
- Lexer.Classify: likewise its own contract says nothing about the counters it leaves; `Lexer.ClassifyMoves` and `Lexer.ClassifyChains` do.
- Lexer.ReadToken: likewise its own contract gives the token's physical line and column only for the corrected lexer with exact counters. For either `unread`, `Lexer.ReadTokenPosition` gives the reported position as the incoming counters moved over the whitespace, and `Lexer.ReadTokenMoves` gives the counters it leaves.
- LexerProperties.OperatorAfterLiteralColumn: one input on the corrected lexer; the same input as written is `LexerProperties.OperatorAfterLiteralColumnAsWritten`, with `+` at column 4, and the general rule is `Lexer.ReadTokenMoves`.
- ParserProperties.ParsedLeavesLocated: states physical positions for the corrected lexer only. As written, positions drift by one column or line for each run-ending character counted twice; `Lexer.ReadTokenPosition` and `Lexer.ReadTokenMoves` state the drift one token at a time, and `LexerProperties.CountersDriftAsWritten` shows it.
- ParserProperties.ParseFailsOnlyAtStop: states the end-of-input line for the corrected lexer only. Over the lexer as written, `ParserProperties.ParseFromFailsOnlyAtStop` still holds, but the line counter can run past the last line (`ParserProperties.EndOfInputLineAsWritten`).
- Pipeline.RunAsWritten: restores `parse_E`'s `return e`, because without it the driver receives no tree; what `exec` does with a missing return value is undefined behaviour and is not modelled.
- Interp.Arith: does not model 64-bit `long` overflow; integers are unbounded.
- Decimal.Strtol: does not model saturation at the `long` range or `errno`, and `isspace` is ASCII.
- Interp.Eval: operand evaluation order is fixed left then right. C++ leaves it unspecified.
- Locale-dependent character classes are not modelled; ASCII classes are used.

## Findings

| source | as written | input that shows it | evidently intended | confidence | as-written member | corrected member |
|---|---|---|---|---|---|---|
| lexer.cpp:69-71 | `unread` pushes a character back with `ungetc` but leaves `m_line`/`m_col` advanced, so the character that ends a run is counted twice | `ab\ncd`: `cd` is reported on line 3 | the counters are restored, so every token reports its physical position (`cd` on line 2) | not executed | LexerProperties.CountersDriftAsWritten | LexerProperties.ScanLocated |
| parser.cpp:80-107 | `parse_E` builds the node `e` and ends without returning it | `1`: `parse` hands back no tree | `return e;` at the end of `parse_E` | not executed | ParserProperties.ParseAsWrittenLosesTree | ParserProperties.ParseEIffLeaves |
| main.cpp:61-69 | the `E` root that `parse` returns is handed to `Interpreter`, whose `exec` expects a chain of `U` units and evaluates the root's first child, a token leaf | `1`: `exec` reads a child of the leaf `1`, which has none | run the parsed expression as a one-unit chain | not executed | Pipeline.RunAsWrittenFails | Pipeline.RunIsPolish |
