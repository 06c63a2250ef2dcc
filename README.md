# A verified model of a small Scheme interpreter

This project models the core of a Scheme interpreter written in Java: the
parser-combinator library and the grammar built from it, the token-level
lexer, the expression tree, the environments, the primitive procedures of
`Core`, the derived forms `cond` and `let`, and the `eval`/`apply` pair that
runs a program.

The modules follow the Java packages:

- `Wrappers`: `Option` and `Attempt`. `Attempt` is a value or a thrown
  exception. JDK exceptions are named by their class, such as
  "IndexOutOfBoundsException".
- `Strings`, `Characters`: `Strings.java`, and the character classes the
  grammar and the lexer test for.
- `Results`, `Parsers`, `References`, `Syntax`: `Result.java`, `Parsers.java`,
  `Parser.java` (with `Parser.Reference`) and `Syntax.java`.
  - A parser is a function from the input text to a `Result`, or to a thrown
    exception.
  - Each loop of `Parsers.java` is also a method, proved equal to the
    function that specifies it.
- `Reading`, `ReadingForms`, `ReadingAlternatives`, `ReadingExpressions`,
  `ReadingExamples`: what the grammar reads from whole texts.
  - Each special form gives the expression its builder makes.
  - `EXPRESSION` tries its alternatives in order and picks the form whose
    keyword is ahead.
  - The cases of `SyntaxTest.java` parse to the expressions that print as
    the input.
- `Pushback`, `Lexing`: `PushbackIterator.java` and `Lexer.java`, as classes
  whose methods update their fields.
- `Ast`: the classes of `scheme/expression` and `Pair.java`, folded into one
  datatype, with `toString` as `Show`.
- `Utilities`: `Utilities.java`, covering the kind tests, the checked casts
  and the `make*` builders.
- `Scopes`: what an environment denotes, namely its chain of binding maps,
  innermost first, with `lookup`, `define` and `set`.
- `Environments`: `Environment.java` and `DefaultEnvironment.java`, as classes.
  - A frame holds a link to the environment it extends.
  - A frame's bindings table is an object that can be shared.
  - Each method is proved against `Scopes`.
- `Stores`: the same environments as a value. A store is a sequence of frames,
  and the evaluator works on it.
- `Core`: `Core.java`, the primitives.
- `Forms`: `CondExpression.expand` and `LetExpression.toCombinationExpression`.
- `Evaluator`: the `eval` methods of the expression classes, together with
  `PrimitiveProcedure.apply` and `CompoundProcedure.apply`/`bindings`.

Recursion depth is modelled by a `fuel` argument. Running out of fuel
throws "StackOverflowError", as a Java stack overflow would.

## Model

| member | source | states |
|---|---|---|
| Strings.TrimPrefix | src/main/java/scheme/Strings.java:4-10 | with the prefix present, the input is the prefix followed by the result; otherwise the input is returned unchanged |
| Strings.TrimSuffix | src/main/java/scheme/Strings.java:12-18 | with the suffix present, the input is the result followed by the suffix; otherwise the input is returned unchanged |
| Strings.TrimAffix | src/main/java/scheme/Strings.java:20-25 | at most one affix is removed at each end, the front first; with the affix at both ends the input is affix + result + affix, and with it at neither end the input comes back unchanged |
| Strings.JoinedCons | src/main/java/scheme/Strings.java:27-36 | a join is the first element, then the delimiter before each further element |
| Strings.JoinedAppend | src/main/java/scheme/Strings.java:27-36 | joining two non-empty halves puts exactly one delimiter between their joins |
| Strings.JoinedLength | src/main/java/scheme/Strings.java:27-36 | a join is as long as its elements plus one delimiter per gap |
| Strings.Join | src/main/java/scheme/Strings.java:27-36 | the loop that appends the current delimiter and then the element builds exactly the join |
| Characters.Span | src/main/java/scheme/syntax/Parsers.java:37-48 | the longest prefix whose characters pass the test: all of them pass, and the next character, if any, fails |
| Characters.SpanOfRun | src/main/java/scheme/syntax/Parsers.java:37-48 | a run of passing characters followed by a failing one has exactly the run's length as its span |
| Characters.SpanAfterRun | src/main/java/scheme/syntax/Parsers.java:37-48 | a span continues through a passing run into the text after it |
| Characters.DigitRun | src/main/java/scheme/syntax/Lexer.java:46-61 | the length of the run of digits at the front: all digits, and the next character is not one |
| Results.Describe | src/main/java/scheme/syntax/Result.java:45-52 | the text starts with "Success: `" exactly for a success and with "Failure: " exactly for a failure, ends with " (Remaining: `rest`)", and the printed value or the message can be cut back out of it |
| Results.SuccessIsSuccess | src/main/java/scheme/syntax/Result.java:4-6 | a success is a success and not a failure, and it keeps its remaining text and its value |
| Results.FailureIsFailure | src/main/java/scheme/syntax/Result.java:8-10 | a failure is a failure and not a success, and it keeps its remaining text and its message |
| Results.DescribeTellsOutcome | src/main/java/scheme/syntax/Result.java:45-52 | the printed text starts with 'S' exactly for a success and with 'F' for a failure |
| Parsers.CharacterSatisfyingReadsOne | src/main/java/scheme/syntax/Parsers.java:37-48 | a character test reads one character exactly when the character passes; it fails otherwise, including on empty input, without reading anything |
| Parsers.CharacterReadsOne | src/main/java/scheme/syntax/Parsers.java:24-35 | `character(c)` reads c when the input starts with it; otherwise it fails at the input, with "Expected/Actual" or "Unexpected EOF" |
| Parsers.TextReadsPrefix | src/main/java/scheme/syntax/Parsers.java:72-84 | a literal succeeds exactly when the input is non-empty and starts with the literal, and leaves the rest; even the empty literal fails on empty input |
| Parsers.NamedPrefixesError | src/main/java/scheme/syntax/Parsers.java:126-135 | `named` leaves successes alone and puts "`name`. " in front of a failure's message |
| Parsers.AsMapsValue | src/main/java/scheme/syntax/Parsers.java:173-182 | `as` maps the value of a success and keeps its position; a failure is reported at the original input; a throw passes through |
| Parsers.AsOrThrowMapsValue | src/main/java/scheme/syntax/Parsers.java:173-182 | with a mapping that throws, `as` succeeds exactly when the inner parser succeeds and the mapping returns; otherwise it rethrows the mapping's exception or fails at the input |
| Parsers.AsStringKeepsValue | src/main/java/scheme/syntax/Parsers.java:184-186 | `asString` keeps the characters its parser read, as a string |
| Parsers.OptionalNeverFails | src/main/java/scheme/syntax/Parsers.java:236-245 | `optional` never fails; without a match it gives no value and reads nothing |
| Parsers.AllOfOneValueEach | src/main/java/scheme/syntax/Parsers.java:139-155 | a success of `allOf` holds one value per parser: the i-th is the value of the i-th parser applied where the parsers before it stopped |
| Parsers.AllOfFailureIsNotRewound | src/main/java/scheme/syntax/Parsers.java:139-155 | as written, `allOf` reports a failure of a later parser at the point where that parser started, not at the original input |
| Parsers.AllOfRewoundIsWellBehaved | src/main/java/scheme/syntax/Parsers.java:139-155 | `allOf` with failures reported at the original input both rewinds on failure and reads a prefix on success |
| Parsers.AllOfAdvances | src/main/java/scheme/syntax/Parsers.java:139-155 | a success of `allOf` leaves a suffix of its input when every parser does |
| Parsers.AnyOfFailsWhenAllFail | src/main/java/scheme/syntax/Parsers.java:159-170 | when every alternative fails, `anyOf` fails at its input with "Nothing" |
| Parsers.AnyOfTakesFirstNonFailure | src/main/java/scheme/syntax/Parsers.java:159-170 | `anyOf` gives exactly the reply of the first alternative that does not fail |
| Parsers.AnyOfAfterFailures | src/main/java/scheme/syntax/Parsers.java:159-170 | the same, with the failing alternatives given as a prefix |
| Parsers.AnyOfIsWellBehaved | src/main/java/scheme/syntax/Parsers.java:159-170 | `anyOf` over well-behaved alternatives is well behaved |
| Parsers.SeparatedByExactCount | src/main/java/scheme/syntax/Parsers.java:190-221 | `separatedBy` over n parsers succeeds only with n values, and it fails at its original input |
| Parsers.BetweenKeepsMiddle | src/main/java/scheme/syntax/Parsers.java:346-365 | `between` succeeds exactly when its three parts succeed in turn, gives the middle value and the position after the third part, and fails at its input |
| Parsers.BeforeKeepsFirst | src/main/java/scheme/syntax/Parsers.java:330-344 | `before` succeeds exactly when both parts succeed in turn, keeps the first value, and fails at its input |
| Parsers.AfterKeepsSecond | src/main/java/scheme/syntax/Parsers.java:367-381 | `after` succeeds exactly when both parts succeed in turn, gives the second part's reply, and fails at its input |
| Parsers.BetweenYields | src/main/java/scheme/syntax/Parsers.java:346-365 | every value of `between` is a value of the parser it wraps |
| Parsers.AfterYields | src/main/java/scheme/syntax/Parsers.java:367-381 | every value of `after` is a value of the parser it wraps |
| Parsers.BetweenIsWellBehaved | src/main/java/scheme/syntax/Parsers.java:346-365 | `between` of advancing parsers rewinds on failure and reads a prefix on success |
| Parsers.RepeatNeverFails | src/main/java/scheme/syntax/Parsers.java:248-260 | the `zeroOrMore` loop never fails |
| Parsers.SeparatedRepeatNeverFails | src/main/java/scheme/syntax/Parsers.java:262-282 | the separated repetition loop never fails |
| Parsers.ZeroOrMoreNeverFails | src/main/java/scheme/syntax/Parsers.java:248-260 | `zeroOrMore` never fails |
| Parsers.RepeatIsGreedy | src/main/java/scheme/syntax/Parsers.java:248-260 | for a parser that reads something when it succeeds, `zeroOrMore` stops only where the parser no longer succeeds |
| Parsers.OneOrMoreIsOneThenZeroOrMore | src/main/java/scheme/syntax/Parsers.java:285-301 | `oneOrMore` fails exactly when the first attempt fails, and at the input; otherwise it is that value followed by `zeroOrMore`, with at least one value |
| Parsers.OneOrMoreSeparatedByNonEmpty | src/main/java/scheme/syntax/Parsers.java:303-327 | `oneOrMoreSeparatedBy` fails exactly when the first item fails, and otherwise gives at least one value |
| Parsers.ZeroOrMoreSeparatedByRelatesToOneOrMore | src/main/java/scheme/syntax/Parsers.java:262-282 | `zeroOrMoreSeparatedBy` is an empty success where the first item fails, and otherwise equals `oneOrMoreSeparatedBy`; it never fails |
| Parsers.SeparatedRepeatLeavesNoPair | src/main/java/scheme/syntax/Parsers.java:262-282 | a separated repetition stops where no further separator-and-item pair follows |
| Parsers.RepeatAdvances | src/main/java/scheme/syntax/Parsers.java:248-260 | the repetition of an advancing parser leaves a suffix of its input |
| Parsers.OneOrMoreIsWellBehaved | src/main/java/scheme/syntax/Parsers.java:285-301 | `oneOrMore` of an advancing parser rewinds on failure and reads a prefix on success |
| Parsers.CharacterSatisfyingReadsCharacter | src/main/java/scheme/syntax/Parsers.java:37-48 | `characterSatisfying(test)` reads exactly one character that passes the test |
| Parsers.RepeatReadsSpan | src/main/java/scheme/syntax/Parsers.java:248-260 | repeating a one-character parser reads the whole run of passing characters, and no more |
| Parsers.OneOrMoreReadsSpan | src/main/java/scheme/syntax/Parsers.java:285-301 | `oneOrMore` of a one-character parser reads the whole run, and fails at the input when the run is empty |
| Parsers.WhitespacesReadsRun | src/main/java/scheme/syntax/Parsers.java:86-88 | `whitespaces` reads the whole run of whitespace at the front, at least one character |
| Parsers.ApplyAllOf | src/main/java/scheme/syntax/Parsers.java:139-155 | the loop of `allOf` computes `AllOf` |
| Parsers.Repeat | src/main/java/scheme/syntax/Parsers.java:248-260 | the loop of `zeroOrMore`, started with values already parsed, gives those values followed by the repetition |
| Parsers.ApplyZeroOrMore | src/main/java/scheme/syntax/Parsers.java:248-260 | the method computes `ZeroOrMore` |
| Parsers.ApplyOneOrMore | src/main/java/scheme/syntax/Parsers.java:285-301 | the method computes `OneOrMore` |
| Parsers.ApplySeparatedBy | src/main/java/scheme/syntax/Parsers.java:190-221 | the loop of `separatedBy` computes `SeparatedBy` |
| Parsers.RepeatSeparated | src/main/java/scheme/syntax/Parsers.java:262-282 | the loop shared by the separated repetitions gives the values already parsed followed by the rest |
| Parsers.ApplyZeroOrMoreSeparatedBy | src/main/java/scheme/syntax/Parsers.java:262-282 | the method computes `ZeroOrMoreSeparatedBy` |
| Parsers.ApplyOneOrMoreSeparatedBy | src/main/java/scheme/syntax/Parsers.java:303-327 | the method computes `OneOrMoreSeparatedBy` |
| Parsers.ApplyAnyOf | src/main/java/scheme/syntax/Parsers.java:159-170 | the loop of `anyOf` computes `AnyOf` |
| References.Reference.constructor | src/main/java/scheme/syntax/Parser.java:21-23 | a new reference holds no parser |
| References.Reference.Set | src/main/java/scheme/syntax/Parser.java:9 | after `set`, the reference holds the parser |
| References.Reference.Apply | src/main/java/scheme/syntax/Parser.java:10-18 | the lazy parser throws NullPointerException while the reference is empty, and applies the stored parser once it is set |
| References.LateBinding | src/main/java/scheme/syntax/Parser.java:10-18 | a lazy parser taken before `set` sees the parser set afterwards |
| References.ExpressionReference | src/main/java/scheme/Syntax.java:246-248 | REF_EXPRESSION, once set to EXPRESSION, parses as EXPRESSION does |
| Pushback.PushbackIterator.constructor | src/main/java/scheme/syntax/PushbackIterator.java:10-13 | a new iterator has an empty stash and hands out what the underlying iterator has |
| Pushback.PushbackIterator.HasNext | src/main/java/scheme/syntax/PushbackIterator.java:16-18 | there is a next element exactly when the stash or the underlying iterator has one |
| Pushback.PushbackIterator.Next | src/main/java/scheme/syntax/PushbackIterator.java:21-23 | pops the stash first, and otherwise takes from the underlying iterator; it throws NoSuchElementException when both are empty |
| Pushback.PushbackIterator.Remove | src/main/java/scheme/syntax/PushbackIterator.java:26-28 | always throws UnsupportedOperationException |
| Pushback.PushbackIterator.Stash | src/main/java/scheme/syntax/PushbackIterator.java:30-32 | the stashed element is handed out next, ahead of everything else |
| Pushback.StashThenNext | src/main/java/scheme/syntax/PushbackIterator.java:21-32 | stash then next gives back the element and leaves the iterator as it was |
| Pushback.StashTwiceThenNext | src/main/java/scheme/syntax/PushbackIterator.java:21-32 | stashed elements come back last in, first out, ahead of the underlying elements |
| Lexing.Lexer.constructor | src/main/java/scheme/syntax/Lexer.java:137-139 | the lexer reads the given text |
| Lexing.Lexer.ReadWhile | src/main/java/scheme/syntax/Lexer.java:9-24 | reads exactly the run of characters passing the test and unreads the first one that fails |
| Lexing.Lexer.FindWhitespaces | src/main/java/scheme/syntax/Lexer.java:9-24 | reads exactly the run of whitespace at the front |
| Lexing.Lexer.FindOneCharacterLexeme | src/main/java/scheme/syntax/Lexer.java:26-44 | reads one parenthesis or quote character, or nothing |
| Lexing.Lexer.FindNumberLiteral | src/main/java/scheme/syntax/Lexer.java:46-61 | reads exactly the run of digits at the front |
| Lexing.Lexer.FindStringLiteral | src/main/java/scheme/syntax/Lexer.java:63-87 | reads from a double quote to the next one, quotes included; without a closing quote it throws "Unexpected EOF" |
| Lexing.Lexer.FindIdentifier | src/main/java/scheme/syntax/Lexer.java:89-107 | reads exactly the run of identifier characters at the front |
| Lexing.Lexer.FindLexeme | src/main/java/scheme/syntax/Lexer.java:109-147 | skips whitespace, then reads with the first rule that reads something; the lexeme and the text left are those of `Scan` |
| Lexing.LexemeIterator.constructor | src/main/java/scheme/syntax/Lexer.java:150-153 | a new iterator has no lexeme read ahead |
| Lexing.LexemeIterator.HasNext | src/main/java/scheme/syntax/Lexer.java:155-163 | reads one lexeme ahead unless one is waiting, and answers whether it is non-empty |
| Lexing.LexemeIterator.Next | src/main/java/scheme/syntax/Lexer.java:165-177 | hands out the waiting lexeme, even an empty one; with none waiting it reads ahead first and throws NoSuchElementException when nothing is left |
| Lexing.LexemeIterator.CheckedNext | src/main/java/scheme/syntax/Lexer.java:165-177 | as `next`, but it never hands out the empty lexeme: it throws NoSuchElementException instead |
| Lexing.LexemeIterator.Remove | src/main/java/scheme/syntax/Lexer.java:179-182 | always throws UnsupportedOperationException |
| Lexing.ExhaustedNext | src/main/java/scheme/syntax/Lexer.java:155-177 | as written, `next()` after a `hasNext()` that answered false returns the empty lexeme instead of throwing |
| Lexing.ExhaustedCheckedNext | src/main/java/scheme/syntax/Lexer.java:155-177 | with the checked `next()`, the same calls throw NoSuchElementException |
| Lexing.WhitespaceIsDropped | src/main/java/scheme/syntax/Lexer.java:109-133 | whitespace in front of a lexeme does not change what is read |
| Lexing.NoWhitespaceAhead | src/main/java/scheme/syntax/Lexer.java:9-24 | text that does not start with whitespace is left whole by the whitespace rule |
| Lexing.PunctuationStandsAlone | src/main/java/scheme/syntax/Lexer.java:26-44 | a parenthesis or a quote is a lexeme of its own |
| Lexing.NumberBeforeIdentifier | src/main/java/scheme/syntax/Lexer.java:46-61 | a lexeme that starts with a digit is the run of digits and nothing more, even when letters follow |
| Lexing.StringKeepsQuotes | src/main/java/scheme/syntax/Lexer.java:63-87 | a string lexeme keeps both of its quotes; without a closing quote the lexer throws, having read everything |
| Lexing.IdentifierStartsNothingElse | src/main/java/scheme/syntax/Lexer.java:89-107 | an identifier character is not punctuation, a quote or whitespace |
| Lexing.IdentifierIsLongestRun | src/main/java/scheme/syntax/Lexer.java:89-107 | any other identifier start begins the longest run of identifier characters |
| Lexing.EmptyLexeme | src/main/java/scheme/syntax/Lexer.java:109-133 | the lexeme is empty exactly at the end of the text or before a character no rule reads, and then only the whitespace is read |
| Ast.MakeIteratively | src/main/java/scheme/expression/CombinationExpression.java:16-30 | the iterative build gives the same chain as the recursive one |
| Ast.ExpressionsOfMake | src/main/java/scheme/expression/CombinationExpression.java:8-14 | flattening a built chain gives its elements back, in order |
| Ast.MakeOfExpressions | src/main/java/scheme/expression/CombinationExpression.java:51-62 | building from a chain's elements gives the chain back, so the two are inverses |
| Ast.CollectExpressions | src/main/java/scheme/expression/CombinationExpression.java:51-62 | the loop of `expressions()` collects exactly the chain's elements |
| Ast.Car | src/main/java/scheme/expression/UnitExpression.java:24-32 | a cell's car is its first element; the unit value throws "car is not supported" |
| Ast.Cdr | src/main/java/scheme/expression/UnitExpression.java:24-32 | a cell's cdr holds the rest of the elements; the unit value throws "cdr is not supported" |
| Ast.UnitHasNoElements | src/main/java/scheme/expression/UnitExpression.java:34-37 | the unit value has no elements, and building from no elements gives it |
| Ast.IntegralText | src/main/java/scheme/expression/IntegralExpression.java:44-47 | the printed form of a long is never empty |
| Ast.IntegralTextIsDecimal | src/main/java/scheme/expression/IntegralExpression.java:44-47 | a long prints as Long.toString does: a minus sign exactly when it is negative, then digits with no leading zero whose decimal value is its magnitude |
| Ast.NaturalTextValue | src/main/java/scheme/expression/IntegralExpression.java:44-47 | the digits printed for a natural number have that number as their decimal value, with no leading zero |
| Ast.WithCar | src/main/java/scheme/Pair.java:23-25 | the car setter replaces the car and leaves the cdr as it was |
| Ast.WithCdr | src/main/java/scheme/Pair.java:31-33 | the cdr setter replaces the cdr and leaves the car as it was |
| Ast.PairSetters | src/main/java/scheme/Pair.java:23-33 | the two setters commute, a second set of the same field wins, and setting a field to its own value changes nothing |
| Ast.ShowChain | src/main/java/scheme/expression/CombinationExpression.java:76-79 | one printed text per element of the chain |
| Ast.ShowAll | src/main/java/scheme/expression/CombinationExpression.java:76-79 | one printed text per expression |
| Ast.ShowAllPointwise | src/main/java/scheme/expression/CombinationExpression.java:76-79 | the i-th printed text is the text of the i-th expression |
| Ast.ShowChainIsShowAll | src/main/java/scheme/expression/CombinationExpression.java:76-79 | printing a chain prints its elements in order |
| Ast.Wrap32 | src/main/java/scheme/expression/SymbolExpression.java:43-46 | 32-bit wrap-around: in the int range and congruent modulo 2^32 |
| Ast.SymbolIdentity | src/main/java/scheme/expression/SymbolExpression.java:29-46 | symbols are equal exactly when their names are, equal symbols hash alike, and a symbol prints as its name |
| Ast.SymbolNotString | src/main/java/scheme/expression/SymbolExpression.java:29-41 | a symbol never equals a string expression with the same text |
| Utilities.Truthiness | src/main/java/scheme/Utilities.java:62-80 | only the false symbol is false; 0, "" and () are true; () is null, a list and a pair; a cons cell is a pair but not a list |
| Utilities.AsSymbol | src/main/java/scheme/Utilities.java:12-18 | succeeds exactly on a symbol and gives its name; otherwise it throws "Not a symbol: " and the printed expression |
| Utilities.AsPair | src/main/java/scheme/Utilities.java:29-35 | succeeds exactly on a pair, the expression itself; otherwise it throws "Not a pair: " |
| Utilities.AsCombination | src/main/java/scheme/Utilities.java:37-43 | succeeds exactly on a combination and gives its chain; otherwise it throws "Not a combination: " |
| Utilities.AsProcedure | src/main/java/scheme/Utilities.java:54-60 | succeeds exactly on a procedure; otherwise it throws "Not a procedure: " |
| Utilities.AsSymbolsOfSymbols | src/main/java/scheme/Utilities.java:20-27 | a list of symbols casts to their names, one for one |
| Utilities.AsSymbolsFailsAtFirst | src/main/java/scheme/Utilities.java:20-27 | the first element that is not a symbol decides the exception |
| Utilities.MapAsSymbol | src/main/java/scheme/Utilities.java:20-27 | the loop computes `AsSymbols` |
| Utilities.AsCombinationsOkIff | src/main/java/scheme/Utilities.java:45-52 | the cast succeeds exactly on a list of combinations and keeps each chain |
| Utilities.AsCombinationsFailsAtFirst | src/main/java/scheme/Utilities.java:45-52 | the first element that is not a combination decides the exception |
| Utilities.MapAsCombination | src/main/java/scheme/Utilities.java:45-52 | the loop computes `AsCombinations` |
| Utilities.MakeIntegral | src/main/java/scheme/Utilities.java:109-111 | Long.valueOf succeeds exactly on a non-empty digit run below 2^63, with its decimal value; otherwise it throws NumberFormatException's message |
| Utilities.MakeFractional | src/main/java/scheme/Utilities.java:113-115 | Double.valueOf of "w.f", "w." or ".f" is w plus the fraction f |
| Utilities.MakeQuoteCombination | src/main/java/scheme/Utilities.java:133-135 | the quotation's long form: a two-element list of `quote` and the expression |
| Utilities.MakeLambda | src/main/java/scheme/Utilities.java:137-145 | succeeds exactly on a parameter combination of symbols followed by a body combination, and builds the lambda of those names and that body |
| Utilities.MakeDefinitionOfSymbol | src/main/java/scheme/Utilities.java:147-167 | (define x e) defines x as e |
| Utilities.MakeDefinitionShorthand | src/main/java/scheme/Utilities.java:147-167 | (define (f p...) body...) defines f as (lambda (p...) body...) |
| Utilities.MakeDefinitionMalformed | src/main/java/scheme/Utilities.java:147-167 | a target that is neither a symbol nor a combination throws "Malformed definition" |
| Utilities.MakeLambdaOfSymbols | src/main/java/scheme/Utilities.java:137-145 | a parameter combination of symbols and a body combination build the lambda of exactly those names and that body |
| Utilities.MakeLambdaNeedsSymbols | src/main/java/scheme/Utilities.java:137-145 | a parameter that is not a symbol makes the build throw, naming the first such parameter |
| Utilities.MakeAssignment | src/main/java/scheme/Utilities.java:169-171 | succeeds exactly on a symbol target and a value, and assigns that value to that name |
| Utilities.MakeIf | src/main/java/scheme/Utilities.java:177-179 | succeeds exactly on three or more elements and uses the first three |
| Utilities.MakeCond | src/main/java/scheme/Utilities.java:181-183 | succeeds exactly when every clause is a combination, and keeps them in order |
| Utilities.MakeLet | src/main/java/scheme/Utilities.java:185-189 | succeeds exactly on a combination of binding combinations followed by a body combination; the i-th binding is the i-th element of the first, and the body is the elements of the second |
| Syntax.FractionalLength | src/main/java/scheme/Syntax.java:29 | the match of ^(\d+\.\d+ or \d+\. or \.\d+) fits in the input |
| Syntax.UnitLiteralReadsParentheses | src/main/java/scheme/Syntax.java:10-13 | UNIT succeeds exactly on "()" and gives the unit value; otherwise it fails at its input; it never throws |
| Syntax.IntegralPatternReadsRun | src/main/java/scheme/Syntax.java:19-23 | the pattern ^\d+ reads the whole digit run |
| Syntax.UnitLiteralReads | src/main/java/scheme/Syntax.java:10-13 | "()" parses as the unit value |
| Syntax.UnitLiteralFails | src/main/java/scheme/Syntax.java:10-13 | input that does not start with "(" fails |
| Syntax.IntegralLiteralReadsDigits | src/main/java/scheme/Syntax.java:19-23 | INTEGRAL reads the digit run as its value when that value fits in a long |
| Syntax.IntegralLiteralOverflows | src/main/java/scheme/Syntax.java:19-23 | a digit run too large for a long makes INTEGRAL throw, and the whole parse with it |
| Syntax.FractionalLiteralReads | src/main/java/scheme/Syntax.java:29-33 | FRACTIONAL reads the longest of "w.f", "w." and ".f" at the front |
| Syntax.FractionalValue | src/main/java/scheme/Syntax.java:29-33 | "w.f" has the value w + f / 10^(digits of f) |
| Syntax.StringBodyReads | src/main/java/scheme/Syntax.java:39-45 | the body of a string is the run of characters up to the next double quote |
| Syntax.StringLiteralReadsToQuote | src/main/java/scheme/Syntax.java:39-45 | STRING reads from a double quote to the next one, and its value is the text between; with no closing quote it fails at its input |
| Syntax.StringLiteralNeedsQuote | src/main/java/scheme/Syntax.java:39-45 | STRING fails at its input unless it starts with a double quote |
| Syntax.SymbolCharacterReads | src/main/java/scheme/Syntax.java:51-61 | a symbol character is a letter, a digit or one of + - * / < = > ? !, read one at a time |
| Syntax.SymbolNameReadsRun | src/main/java/scheme/Syntax.java:51-61 | SYMBOL reads the whole run of symbol characters, at least one |
| Syntax.FormNeedsParenthesis | src/main/java/scheme/Syntax.java:70-78 | every parenthesised form fails at its input unless the input starts with "(" |
| Syntax.FractionalLiteralFails | src/main/java/scheme/Syntax.java:29-33 | without a fractional match, FRACTIONAL fails at its input |
| Syntax.IntegralLiteralFails | src/main/java/scheme/Syntax.java:19-23 | without a leading digit, INTEGRAL fails at its input |
| Syntax.IntegralLiteralDoesNotFail | src/main/java/scheme/Syntax.java:19-23 | with a leading digit, INTEGRAL succeeds or throws, but does not fail |
| Syntax.ExpressionIsAnyOf | src/main/java/scheme/Syntax.java:231-244 | EXPRESSION is `anyOf` of its twelve alternatives, in order |
| Syntax.ExpressionIsAlternative | src/main/java/scheme/Syntax.java:231-244 | an expression is what the first alternative that does not fail gives |
| Syntax.FractionalFirst | src/main/java/scheme/Syntax.java:231-244 | the first alternative reads a fractional literal where one starts |
| Syntax.FractionalFailsFirst | src/main/java/scheme/Syntax.java:231-244 | the first alternative fails where no fractional literal starts |
| Syntax.IntegralSecond | src/main/java/scheme/Syntax.java:231-244 | the second alternative is INTEGRAL and does not fail on a digit |
| Syntax.IntegralFailsSecond | src/main/java/scheme/Syntax.java:231-244 | the second alternative fails where no digit starts |
| Syntax.StringThird | src/main/java/scheme/Syntax.java:231-244 | the third alternative reads a closed string literal |
| Syntax.StringFailsThird | src/main/java/scheme/Syntax.java:231-244 | the third alternative fails without a leading double quote |
| Syntax.SymbolFourth | src/main/java/scheme/Syntax.java:231-244 | the fourth alternative reads the run of symbol characters |
| Syntax.SymbolFailsFourth | src/main/java/scheme/Syntax.java:231-244 | the fourth alternative fails where no symbol character starts |
| Syntax.UnitFifth | src/main/java/scheme/Syntax.java:231-244 | the fifth alternative reads "()" as the unit value |
| Syntax.UnitFailsFifth | src/main/java/scheme/Syntax.java:231-244 | the fifth alternative fails without a leading "(" |
| Syntax.QuoteSixth | src/main/java/scheme/Syntax.java:84-104 | the sixth alternative reads 'x as the quotation of x |
| Syntax.FirstOneFails | src/main/java/scheme/Syntax.java:231-244 | where no fractional literal starts, the first alternative fails |
| Syntax.FirstTwoFail | src/main/java/scheme/Syntax.java:231-244 | where no number starts, the first two alternatives fail |
| Syntax.FirstThreeFail | src/main/java/scheme/Syntax.java:231-244 | where neither a number nor a string starts, the first three alternatives fail |
| Syntax.PunctuationStartsNoLiteral | src/main/java/scheme/Syntax.java:19-61 | a parenthesis or a quote starts no number, string or symbol |
| Syntax.FirstFourFail | src/main/java/scheme/Syntax.java:231-244 | where a parenthesis or a quote starts, the first four alternatives fail |
| Syntax.FirstFiveFail | src/main/java/scheme/Syntax.java:231-244 | where a quote starts, the first five alternatives fail |
| Syntax.ExpressionReadsFractionalFirst | src/main/java/scheme/Syntax.java:231-244 | where a fractional literal starts, an expression is that literal, before any integral reading |
| Syntax.ExpressionReadsIntegral | src/main/java/scheme/Syntax.java:231-244 | where no fractional literal starts but a digit does, an expression is INTEGRAL's reply |
| Syntax.ExpressionReadsString | src/main/java/scheme/Syntax.java:231-244 | a closed string literal is read as a string expression |
| Syntax.SymbolIsNotNumberOrString | src/main/java/scheme/Syntax.java:19-61 | a symbol character that is not a digit starts no number and no string |
| Syntax.ExpressionReadsSymbol | src/main/java/scheme/Syntax.java:231-244 | a non-digit symbol character starts a symbol, which runs as far as the symbol characters do |
| Syntax.ExpressionReadsUnit | src/main/java/scheme/Syntax.java:231-244 | "()" is read as the unit value, never as a combination form |
| Syntax.ExpressionReadsQuoteShorthand | src/main/java/scheme/Syntax.java:84-104 | 'x is the quotation of the expression after the quote |
| Syntax.QuoteFormReadsShorthand | src/main/java/scheme/Syntax.java:84-104 | the shorthand branch of QUOTE reads the expression after the quote |
| Syntax.FormYields | src/main/java/scheme/Syntax.java:70-78 | the parenthesised frame gives the value of what it wraps |
| Syntax.KeywordYields | src/main/java/scheme/Syntax.java:191-206 | a keyword form gives the value of its operands |
| Syntax.IfFormBuildsIf | src/main/java/scheme/Syntax.java:191-206 | IF succeeds exactly when its three operands are read, and then gives the if of exactly those three expressions, where they stopped |
| Syntax.BeginFormBuildsBegin | src/main/java/scheme/Syntax.java:212-225 | BEGIN succeeds exactly when its operands are read, and then gives the begin of those expressions, at least one, where they stopped |
| Syntax.ProgramIsNotEmpty | src/main/java/scheme/Syntax.java:251-257 | a program holds at least one expression |
| ReadingForms.QuoteLongFormReads | src/main/java/scheme/Syntax.java:84-104 | (quote t) gives the quotation of what the inner parser reads from t, and stops after the closing parenthesis |
| ReadingForms.ParameterListReads | src/main/java/scheme/Syntax.java:122-130 | a parenthesised run of names separated by single spaces reads as the combination of those symbols |
| ReadingForms.EmptyParameterListReads | src/main/java/scheme/Syntax.java:122-130 | "()" reads as the empty parameter combination |
| ReadingForms.LambdaFormReads | src/main/java/scheme/Syntax.java:110-136 | (lambda (p ...) x ...) gives the lambda of exactly those parameter names and that body, in order |
| ReadingForms.DefinitionFormReadsSymbol | src/main/java/scheme/Syntax.java:142-165 | (define name x) takes the first branch and gives the definition of the name as x |
| ReadingForms.DefinitionFormReadsShorthand | src/main/java/scheme/Syntax.java:142-165 | (define (f p ...) x ...) takes the second branch and defines f as the lambda of the parameters and the body |
| ReadingForms.AssignmentFormReads | src/main/java/scheme/Syntax.java:171-185 | (set! name x) gives the assignment of x to the name |
| ReadingForms.IfFormReads | src/main/java/scheme/Syntax.java:191-206 | (if p c a) gives the if of the three expressions read, in order |
| ReadingForms.BeginFormReads | src/main/java/scheme/Syntax.java:212-225 | (begin x ...) gives the begin of all the expressions read, in order |
| ReadingForms.CombinationFormReads | src/main/java/scheme/Syntax.java:70-78 | (x ...) gives the combination of all the expressions read, in order |
| ReadingAlternatives.ParenthesisedAlternativesFail | src/main/java/scheme/Syntax.java:231-244 | on "(" followed by an item that is not ")", with no keyword ahead of a form before the k-th, every alternative before the k-th fails |
| ReadingAlternatives.SpecialFormIsTried | src/main/java/scheme/Syntax.java:231-244 | with a form's keyword ahead, every alternative before that form fails |
| ReadingAlternatives.ExpressionIsSpecialForm | src/main/java/scheme/Syntax.java:231-244 | with a form's keyword ahead, EXPRESSION gives exactly that form's reply whenever the form does not fail |
| ReadingExpressions.ExpressionReadsQuote | src/main/java/scheme/Syntax.java:84-104 | EXPRESSION reads (quote x) as the quotation of the expression it reads inside |
| ReadingExpressions.ExpressionReadsQuoteMark | src/main/java/scheme/Syntax.java:84-104 | EXPRESSION reads 'x as the quotation of the expression it reads after the quote mark |
| ReadingExpressions.ExpressionReadsLambda | src/main/java/scheme/Syntax.java:110-136 | EXPRESSION reads (lambda (p ...) x ...) as the lambda of those names and that body |
| ReadingExpressions.ExpressionReadsDefinition | src/main/java/scheme/Syntax.java:142-165 | EXPRESSION reads (define name x) as the definition of the name as x |
| ReadingExpressions.ExpressionReadsDefinitionShorthand | src/main/java/scheme/Syntax.java:142-165 | EXPRESSION reads (define (f p ...) x ...) as the definition of f as (lambda (p ...) x ...) |
| ReadingExpressions.ExpressionReadsAssignment | src/main/java/scheme/Syntax.java:171-185 | EXPRESSION reads (set! name x) as the assignment of x to the name |
| ReadingExpressions.ExpressionReadsIf | src/main/java/scheme/Syntax.java:191-206 | EXPRESSION reads (if p c a) as the if of those three expressions |
| ReadingExpressions.ExpressionReadsBegin | src/main/java/scheme/Syntax.java:212-225 | EXPRESSION reads (begin x ...) as the begin of those expressions, in order |
| ReadingExpressions.ExpressionReadsCombination | src/main/java/scheme/Syntax.java:231-244 | with no keyword ahead, EXPRESSION reads (x ...) as the combination of those expressions, in order, after every special form has failed |
| ReadingExamples.CombinationExample | src/test/java/scheme/SyntaxTest.java:21-31 | COMBINATION reads (0) and (0 1 2) to the end, as the combinations that print as the input |
| ReadingExamples.QuoteExample | src/test/java/scheme/SyntaxTest.java:33-68 | QUOTE reads 'x and (quote x) to the end, as the same quotation, which prints as x |
| ReadingExamples.LambdaExample | src/test/java/scheme/SyntaxTest.java:70-88 | LAMBDA reads (lambda () 42) and (lambda (x) x) to the end, as the lambdas that print as the input |
| ReadingExamples.DefinitionExample | src/test/java/scheme/SyntaxTest.java:90-109 | DEFINITION reads (define x 42), (define (x) 42) and (define (identity x) x) to the end; the shorthand ones print as definitions of a lambda |
| ReadingExamples.AssignmentExample | src/test/java/scheme/SyntaxTest.java:111-121 | ASSIGNMENT reads (set! x 42) to the end, as the assignment that prints as the input |
| ReadingExamples.IfExample | src/test/java/scheme/SyntaxTest.java:123-133 | IF reads (if 42 x y) to the end, as the if that prints as the input |
| ReadingExamples.BeginExample | src/test/java/scheme/SyntaxTest.java:135-145 | BEGIN reads (begin 42) to the end, as the begin that prints as the input |
| ReadingExamples.IfExpressionExample | src/main/java/scheme/Syntax.java:231-244 | EXPRESSION reads (if 42 x y) as the if of 42, x and y, and not as a combination |
| ReadingExamples.QuoteExpressionExample | src/main/java/scheme/Syntax.java:231-244 | EXPRESSION gives the same quotation of x for 'x and (quote x) |
| ReadingExamples.CombinationExpressionExample | src/main/java/scheme/Syntax.java:231-244 | EXPRESSION reads (0 1 2) as the combination of 0, 1 and 2 |
| ReadingExamples.ShorthandExpressionExample | src/main/java/scheme/Syntax.java:231-244 | EXPRESSION reads (define (identity x) x) as the definition of identity as (lambda (x) x) |
| Scopes.Owner | src/main/java/scheme/DefaultEnvironment.java:56-63 | the innermost frame that binds the name, or none exactly when no frame does |
| Scopes.LookupFindsOwner | src/main/java/scheme/DefaultEnvironment.java:56-63 | lookup gives the innermost binding, and throws "Unbound variable" exactly when no frame binds the name |
| Scopes.EmptyBindsNothing | src/main/java/scheme/Environment.java:8-28 | on EMPTY, lookup and set throw, and define does nothing |
| Scopes.DefineThenLookup | src/main/java/scheme/DefaultEnvironment.java:65-68 | after define, the name denotes the value, other names are unchanged, and only the own frame changes |
| Scopes.DefineShadows | src/main/java/scheme/DefaultEnvironment.java:65-68 | a definition in an inner frame hides an outer binding without changing it |
| Scopes.SetChangesOwner | src/main/java/scheme/DefaultEnvironment.java:70-78 | set succeeds exactly when some frame binds the name, and then it changes that frame only; otherwise it throws "Unbound variable" |
| Scopes.SetKeepsNames | src/main/java/scheme/DefaultEnvironment.java:70-78 | set adds no name to any frame |
| Scopes.SetThenLookup | src/main/java/scheme/DefaultEnvironment.java:70-78 | after set, the name denotes the new value and every other name is unchanged |
| Environments.Table.constructor | src/main/java/scheme/DefaultEnvironment.java:9-35 | a table holds the given bindings |
| Environments.NewPrimitives | src/main/java/scheme/DefaultEnvironment.java:9-35 | a fresh table holding the primitive bindings |
| Environments.Frame.constructor | src/main/java/scheme/DefaultEnvironment.java:42-45 | a frame over an enclosing environment, with its own table, and a valid chain |
| Environments.Frame.Default | src/main/java/scheme/DefaultEnvironment.java:47-49 | the one-argument constructor uses the shared primitives table itself |
| Environments.Lookup | src/main/java/scheme/DefaultEnvironment.java:56-63 | lookup through the frames computes `Scopes.Lookup` of the chain |
| Environments.Define | src/main/java/scheme/DefaultEnvironment.java:65-68 | define updates this frame's table in place, and the chain becomes `Scopes.Define` of the old one |
| Environments.Set | src/main/java/scheme/DefaultEnvironment.java:70-78 | set updates the nearest table that binds the name, and the chain becomes `Scopes.Set` of the old one; otherwise it throws and nothing changes |
| Environments.Extend | src/main/java/scheme/DefaultEnvironment.java:51-54 | a fresh frame over this one, whose chain is the new table in front of the old chain; EMPTY extended is EMPTY |
| Environments.PrimitivesAreShared | src/main/java/scheme/DefaultEnvironment.java:47-49 | two global environments share the primitives table, so a definition through one is seen through the other |
| Environments.DefinitionStaysLocal | src/main/java/scheme/DefaultEnvironment.java:51-68 | a definition in an extended frame is not seen from the frame it extends |
| Stores.DefineDenotes | src/main/java/scheme/DefaultEnvironment.java:65-68 | define on the store changes the chain as `Scopes.Define` does |
| Stores.SetDenotes | src/main/java/scheme/DefaultEnvironment.java:70-78 | set on the store changes the chain as `Scopes.Set` does, and fails exactly when it does |
| Stores.SetOnlyBelow | src/main/java/scheme/DefaultEnvironment.java:70-78 | set leaves every frame above the environment's own as it was |
| Stores.ExtendDenotes | src/main/java/scheme/DefaultEnvironment.java:51-54 | extend puts the new bindings in front of the chain, and every existing environment keeps its chain |
| Stores.ExtendKeepsOrder | src/main/java/scheme/DefaultEnvironment.java:51-54 | extending keeps every link pointing to an earlier frame |
| Stores.DefineSetKeepOrder | src/main/java/scheme/DefaultEnvironment.java:65-78 | define and set never change links |
| Core.Wrap64 | src/main/java/scheme/Core.java:87-100 | 64-bit wrap-around: in the long range and congruent modulo 2^64 |
| Core.Unwrap | src/main/java/scheme/Core.java:67-75 | succeeds exactly on numbers; otherwise it throws "Expression is not a number: " and the printed expression |
| Core.Wrap | src/main/java/scheme/Core.java:87-100 | wrapping a number and unwrapping it again gives it back |
| Core.UnwrapAll | src/main/java/scheme/Core.java:77-84 | one number per argument, or the exception of some argument |
| Core.UnwrapAllOfNumbers | src/main/java/scheme/Core.java:77-84 | numeric arguments unwrap one for one |
| Core.UnwrapAllFailsAtFirst | src/main/java/scheme/Core.java:77-84 | the first non-number decides the exception |
| Core.MapUnwrapNumber | src/main/java/scheme/Core.java:77-84 | the loop computes `UnwrapAll` |
| Core.ArithmeticNumbers | src/main/java/scheme/Core.java:87-144 | the loops of addNumbers, subtractNumbers and multiplyNumbers compute `Arithmetic` |
| Core.FoldOfLongs | src/main/java/scheme/Core.java:87-144 | over longs only, the result is the exact result wrapped to 64 bits |
| Core.DoubleIsContagious | src/main/java/scheme/Core.java:87-144 | once a double is met, the result is a double |
| Core.IntegralArithmetic | src/main/java/scheme/Core.java:87-144 | integral arguments give the exact sum, difference or product, from 0 or 1, wrapped to 64 bits |
| Core.FractionalArithmetic | src/main/java/scheme/Core.java:87-144 | one fractional argument makes the result fractional |
| Core.SubtractionStartsFromZero | src/main/java/scheme/Core.java:109-122 | (- a) is -a and (- a b) is -a-b, because subtraction starts from 0 |
| Core.Quotient | src/main/java/scheme/Core.java:153-175 | the division loop throws only "Division by zero", and any divisor makes the result a double |
| Core.DivideNumbers | src/main/java/scheme/Core.java:153-175 | the loop of divideNumbers computes `DivideBy` |
| Core.DivideOne | src/main/java/scheme/Core.java:153-175 | (/ x) is x unchanged; (/) throws "Invalid number of arguments" |
| Core.DivideIsFractional | src/main/java/scheme/Core.java:153-175 | with two or more arguments, a quotient is fractional |
| Core.QuotientFailsIff | src/main/java/scheme/Core.java:153-175 | the division fails exactly when some divisor is rejected |
| Core.DivisionRejectsOnlyZero | src/main/java/scheme/Core.java:153-175 | with the corrected check, division fails exactly when a divisor is zero and otherwise succeeds |
| Core.HalfIsRejectedAsWritten | src/main/java/scheme/Core.java:160 | as written, (/ 1 0.5) throws "Division by zero"; corrected, it is 2.0 |
| Core.UnquotedAll | src/main/java/scheme/Core.java:28-34 | each argument's unquoted text, one for one |
| Core.Error | src/main/java/scheme/Core.java:36-53 | `error` always throws, with the joined message |
| Core.ErrorMessageJoins | src/main/java/scheme/Core.java:36-46 | the message is "Error: " and the arguments one space apart, with strings unquoted |
| Core.Cons | src/main/java/scheme/Core.java:196-204 | a pair of the first two arguments; fewer throw IndexOutOfBoundsException |
| Core.ConsCarCdr | src/main/java/scheme/Core.java:196-233 | car and cdr take a cons apart; a cons is a pair and not null; () is null and a pair, and it has no car or cdr |
| Core.CarCdrOfList | src/main/java/scheme/Core.java:206-222 | car and cdr of a list are its head and its tail |
| Core.CarNeedsPair | src/main/java/scheme/Core.java:206-233 | anything that is not a pair makes car and cdr throw ClassCastException, and pair? answers false |
| Forms.IsElseClause | src/main/java/scheme/expression/CondExpression.java:29-31 | true exactly when the head is the symbol `else`; a unit clause throws "car is not supported" |
| Forms.ExpandFailsIff | src/main/java/scheme/expression/CondExpression.java:33-48 | the expansion fails exactly when a unit clause comes before any `else` clause, and then with "car is not supported" |
| Forms.ExpandIsIfChain | src/main/java/scheme/expression/CondExpression.java:33-52 | an expansion is a chain of `if`s, one per clause before the first `else`, testing each clause's head with its body; it ends in that `else` body or in `false` |
| Forms.Part | src/main/java/scheme/expression/LetExpression.java:31-40 | a binding gives its name and initialiser exactly when it is well formed; otherwise it throws what asSymbol or car throws |
| Forms.Parts | src/main/java/scheme/expression/LetExpression.java:31-40 | one name and one initialiser per binding |
| Forms.ToCombinationExpression | src/main/java/scheme/expression/LetExpression.java:31-40 | the loop computes `ToCombination` |
| Forms.PartsOfWellFormed | src/main/java/scheme/expression/LetExpression.java:31-40 | the parts are found exactly when every binding is well formed, and they are the names and initialisers in order |
| Forms.ToCombinationShape | src/main/java/scheme/expression/LetExpression.java:31-40 | the rewrite succeeds exactly on well-formed bindings, and gives the lambda of the names and the body applied to the initialisers |
| Forms.ToCombinationFailsAtFirst | src/main/java/scheme/expression/LetExpression.java:31-40 | the first binding that is not well formed decides the exception |
| Evaluator.EvalAll | src/main/java/scheme/Utilities.java:95-102 | mapEval gives one value per expression |
| Evaluator.Bind | src/main/java/scheme/procedure/CompoundProcedure.java:49-63 | binding succeeds exactly when the counts agree; otherwise it throws "Too many" or "Too few arguments supplied" with both lists |
| Evaluator.Bindings | src/main/java/scheme/procedure/CompoundProcedure.java:49-63 | the loop of `bindings` computes `Bind` |
| Evaluator.ZipBindsParameters | src/main/java/scheme/procedure/CompoundProcedure.java:57-60 | exactly the parameters are bound |
| Evaluator.ZipBindsInOrder | src/main/java/scheme/procedure/CompoundProcedure.java:57-60 | each parameter is bound to the argument at its position, with the last of a repeated name winning |
| Evaluator.MapEval | src/main/java/scheme/Utilities.java:95-102 | the loop of mapEval computes `EvalAll` |
| Evaluator.EvalCombination | src/main/java/scheme/expression/CombinationExpression.java:64-74 | the operator first, then the operands collected in a loop, then apply; the method computes `Eval` of the combination |
| Evaluator.CombinationOrder | src/main/java/scheme/expression/CombinationExpression.java:64-74 | a combination evaluates its operator first and stops there unless it gives a procedure |
| Evaluator.ApplyCompound | src/main/java/scheme/procedure/CompoundProcedure.java:65-75 | the body loop, keeping the last value, computes `Apply` of the compound procedure |
| Evaluator.EvalAllSnoc | src/main/java/scheme/Utilities.java:95-102 | mapEval goes from left to right: one more expression at the end is evaluated last, in the store the others left |
| Evaluator.EvalAllStops | src/main/java/scheme/Utilities.java:95-102 | the first exception stops mapEval, in the store where it was thrown |
| Evaluator.EvalAllPrefixThrows | src/main/java/scheme/Utilities.java:95-102 | once a prefix throws, the whole list throws the same |
| Evaluator.EvalAllPointwise | src/main/java/scheme/Utilities.java:95-102 | the i-th value is the value of the i-th expression in the store the first i left |
| Evaluator.EvalAtoms | src/main/java/scheme/expression/QuoteExpression.java:17-20 | literals and the unit value are themselves; a quotation is what it quotes; a lambda closes over the environment; a symbol is looked up; a pair throws "Evaluation is not supported" |
| Evaluator.IfOfQuoted | src/main/java/scheme/expression/IfExpression.java:36-40 | only the false symbol selects the alternative |
| Evaluator.IfTestThrows | src/main/java/scheme/expression/IfExpression.java:36-40 | a test that throws stops the `if` before either branch |
| Evaluator.BeginEmpty | src/main/java/scheme/expression/BeginExpression.java:23-26 | an empty `begin` throws IndexOutOfBoundsException |
| Evaluator.BeginIsLast | src/main/java/scheme/expression/BeginExpression.java:23-26 | `begin` gives the value of the last expression, evaluated after all the others |
| Evaluator.DefinitionBinds | src/main/java/scheme/expression/DefinitionExpression.java:29-33 | `define` evaluates the value, then binds it in the environment's own frame: the name denotes it, other names and outer frames are unchanged, and the result is () |
| Evaluator.AssignmentUpdatesOwner | src/main/java/scheme/expression/AssignmentExpression.java:29-33 | `set!` evaluates the value, then throws "Unbound variable" when no frame binds the name, and otherwise updates the binding and gives () |
| Evaluator.NotAProcedure | src/main/java/scheme/Utilities.java:54-60 | an operator that is not a procedure throws "Not a procedure: " before any operand is evaluated |
| Evaluator.ArityIsChecked | src/main/java/scheme/procedure/CompoundProcedure.java:49-56 | a compound procedure refuses more or fewer arguments than parameters |
| Evaluator.ApplyExtendsCaptured | src/main/java/scheme/procedure/CompoundProcedure.java:65-75 | the body runs in a new frame over the captured environment, where parameters denote their arguments and other names what they denote in the captured environment |
| Evaluator.ApplyInEmpty | src/main/java/scheme/procedure/CompoundProcedure.java:65-75 | a procedure made in EMPTY runs in EMPTY, because extending EMPTY drops the bindings |
| Evaluator.ApplyPrimitiveSpreads | src/main/java/scheme/Core.java:56-64 | `apply` calls the procedure on the elements of the list |
| Evaluator.CondFailsFirst | src/main/java/scheme/expression/CondExpression.java:54-57 | a `cond` whose expansion fails throws before evaluating anything |
| Evaluator.CondEmpty | src/main/java/scheme/expression/CondExpression.java:54-57 | a `cond` with no clauses is the symbol `false`, looked up |
| Evaluator.CondElse | src/main/java/scheme/expression/CondExpression.java:54-57 | an `else` clause first is the value of its body |
| Evaluator.CondStep | src/main/java/scheme/expression/CondExpression.java:54-57 | otherwise `cond` evaluates the first test once; a true value gives the clause's body, and a false one the `cond` of the other clauses |
| Evaluator.LetIsApplication | src/main/java/scheme/expression/LetExpression.java:42-45 | `let` evaluates the initialisers in order, then applies the lambda over the names to them |
| Evaluator.LetFaultFirst | src/main/java/scheme/expression/LetExpression.java:42-45 | a malformed binding throws before any initialiser is evaluated |
| Evaluator.AddInGlobal | src/main/java/scheme/Core.java:87-107 | (+ 1 2) in the global environment is 3 |
| Evaluator.DefineThenUse | src/main/java/scheme/expression/DefinitionExpression.java:29-33 | (begin (define x 5) x) is 5 |
| Evaluator.IdentityApplied | src/main/java/scheme/procedure/CompoundProcedure.java:65-75 | ((lambda (x) x) 7) is 7 |

## Left out

- Characters: only characters below 128 are classified. Java's Unicode letter, digit and whitespace classes are not modelled.
- Regular expressions: the two patterns of `Syntax` are written out as the functions they match (`DigitRun`, `FractionalLength`). `Parsers.pattern` is not modelled in general.
- Doubles are exact reals. Rounding, NaN, infinities and the printing of a double are not modelled; a fractional value prints as a placeholder.
- Ast.Show: `PrimitiveProcedure` and `CompoundProcedure` declare no `toString`, so Java prints `Object.toString()`, a class name and an identity hash. The model prints "#procedure" for both, because identity hashes are not modelled.
- Ast.WithCar: `Pair.car(Expression)` and `Pair.cdr(Expression)` update a pair in place. The model returns a new pair value instead, so aliasing of a mutated pair is not captured. Nothing in the interpreter calls either setter. The setters of the combination cells, which extend `Pair` in Java, are not modelled, because a cell's cdr is always a chain here.
- Evaluator.Native: `/` runs the corrected divisor test `Core.DivideBy(false, ...)`, so (/ 1 0.5) evaluates to 2.0, where the Java evaluator throws "Division by zero". The divisor test as written is `Core.DivideBy(true, ...)`; see the third row of "## Findings".
- `sqrt` is not bound in the model's primitive table, because it needs floating point.
- `display` and `newline` return their results, but the printing to standard output is not modelled.
- `CompoundProcedure.eval` returns null. The model turns that into the NullPointerException its first use would throw.
- Stack depth is a `fuel` argument. Running out of fuel is StackOverflowError, and the depth at which the JVM would overflow is not modelled.
- Parsers.RepeatFrom: where `zeroOrMore` loops forever on a parser that succeeds without reading, the model stops before that success and drops its value.
- Parsers.SeparatedRepeatFrom: the same applies to the separated repetitions.
- Syntax.ParseExpression: the self-reference through REF_EXPRESSION is a call on strictly shorter input. On input that has not shrunk it throws StackOverflowError, as left recursion would in Java; the grammar has no left recursion, so this never happens.
- ReadingExpressions.ExpressionReadsIf: this lemma and the other lemmas about whole texts cover texts with exactly one space between items and no space just inside the parentheses. Other layouts, which the grammar also accepts, are covered only by the combinator lemmas.
- Evaluator.Eval: the evaluator runs on a store value, not on heap frames. The classes of `Environments` model the in-place updates and the sharing of tables; the store gives each frame its own table.
- Evaluator.Eval: it is not proved that evaluation keeps `Stores.Ordered`, or that the store only grows. `Evaluator.DefinitionBinds` therefore requires the environment's frame to exist.
- Environments.Frame.constructor: it requires that the new table is not already used in the chain. The model needs this to reason about one frame at a time; Java does not check it.
- The old, superseded classes (`Combination.java`, `procedure/Compound.java`, `expression/If.java` and their kind) are not part of this model.
- The read-eval-print loops and the `Main` classes are not part of this model, nor is `ExpressionReader.java`.

## Findings

| source | as written | input that shows it | evidently intended | confidence | as-written member | corrected member |
|---|---|---|---|---|---|---|
| src/main/java/scheme/syntax/Parsers.java:139-155 | `allOf` overwrites its `input` in the loop, so a failure of a later parser is reported where that parser started | `allOf(character('a'), character('b'))` on "ac" fails with remaining "c" | a failure reported at the original input, as every other combinator does | medium, not executed | Parsers.AllOfFailureIsNotRewound | Parsers.AllOfRewoundIsWellBehaved |
| src/main/java/scheme/syntax/Lexer.java:155-177 | `next()` after `hasNext()` has read ahead hands out the waiting lexeme even when it is the empty end marker | `hasNext()` then `next()` on "" or "   " returns "" | NoSuchElementException once there is no lexeme, as the Iterator contract says | high, not executed | Lexing.ExhaustedNext | Lexing.ExhaustedCheckedNext |
| src/main/java/scheme/Core.java:160 | a divisor is rejected when its `longValue()` is 0, which truncates | (/ 1 0.5) throws "Division by zero" | only a zero divisor is rejected, so (/ 1 0.5) is 2.0 | high, not executed | Core.HalfIsRejectedAsWritten | Core.DivisionRejectsOnlyZero |
