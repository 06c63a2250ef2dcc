/** Syntax.java: the grammar of expressions and programs, built from the
    combinators of Parsers.

    The Java grammar ties itself together through a Parser.Reference that is
    set to the expression parser once, after all forms are built. Here every
    form that contains sub-expressions takes the expression parser as a
    parameter, and `ParseExpression` passes itself in, limited to inputs
    strictly shorter than its own: every such use in the grammar comes after
    an opening parenthesis or a quote has been read. */
module Syntax {
  import opened Wrappers
  import opened Results
  import opened Parsers
  import opened Ast
  import Utilities
  import Characters
  import Strings

  /** Characters a symbol may be made of. */
  predicate IsSymbolCharacter(c: char) {
    Characters.IsLetter(c) || Characters.IsDigit(c) || c in "+-*/" || c in "<=>" || c in "?!"
  }

  function OptionalWhitespace(): Parser<Option<string>> {
    Optional(Whitespaces())
  }

  /** The common frame of the special forms: "(", optional whitespace, the
      form's body, optional whitespace, ")". */
  function Form<X>(body: Parser<X>): Parser<X> {
    Parenthesised(Between(OptionalWhitespace(), body, OptionalWhitespace()))
  }

  /** A keyword, whitespace, then the form's operands. */
  function Keyword<X>(keyword: string, operands: Parser<X>): Parser<X> {
    After(Text(keyword), After(Whitespaces(), operands))
  }

  // ---------------------------------------------------------------- literals and symbols

  function UnitLiteral(): Parser<Expr> {
    As(Utilities.MakeUnit, Text("()"))
  }

  /** The pattern ^\d+ applied with Matcher.find. */
  function IntegralPattern(): Parser<string> {
    (s: string) =>
      if |s| == 0 then Ok(Failure(s, "Unexpected: `EOF`"))
      else if Characters.DigitRun(s) > 0 then Ok(Success(s[Characters.DigitRun(s)..], s[..Characters.DigitRun(s)]))
      else Ok(Failure(s, "Expected: `^\\d+`"))
  }

  function IntegralLiteral(): Parser<Expr> {
    AsOrThrow(Utilities.MakeIntegral, IntegralPattern())
  }

  /** The length of the match of ^(\d+\.\d+|\d+\.|\.\d+) at the front of `s`,
      or 0 when there is none. */
  function FractionalLength(s: string): (n: nat)
    ensures n <= |s|
  {
    var w := Characters.DigitRun(s);
    if w > 0 && w < |s| && s[w] == '.' then w + 1 + Characters.DigitRun(s[w + 1..])
    else if w == 0 && |s| > 1 && s[0] == '.' && Characters.DigitRun(s[1..]) > 0 then 1 + Characters.DigitRun(s[1..])
    else 0
  }

  function FractionalPattern(): Parser<string> {
    (s: string) =>
      if |s| == 0 then Ok(Failure(s, "Unexpected: `EOF`"))
      else if FractionalLength(s) > 0 then Ok(Success(s[FractionalLength(s)..], s[..FractionalLength(s)]))
      else Ok(Failure(s, "Expected: `^(\\d+\\.\\d+|\\d+\\.|\\.\\d+)`"))
  }

  function FractionalLiteral(): Parser<Expr> {
    As(Utilities.MakeFractional, FractionalPattern())
  }

  /** A double quote, any characters but a double quote, a double quote: there are no escapes. */
  function StringLiteral(): Parser<Expr> {
    As(Utilities.MakeString, Between(Character('"'), StringBody(), Character('"')))
  }

  function StringBody(): Parser<string> {
    AsString(ZeroOrMore(CharacterExcept("\"")))
  }

  function SymbolCharacter(): Parser<char> {
    AnyOf([Letter(), Digit(), CharacterOf("+-*/"), CharacterOf("<=>"), CharacterOf("?!")])
  }

  function SymbolName(): Parser<Expr> {
    As(Utilities.MakeSymbol, SymbolCharacters())
  }

  function SymbolCharacters(): Parser<string> {
    AsString(OneOrMore(SymbolCharacter()))
  }

  // ---------------------------------------------------------------- compound forms

  function CombinationForm(expression: Parser<Expr>): Parser<Expr> {
    As(Make, Form(OneOrMoreSeparatedBy(Whitespaces(), expression)))
  }

  /** `quote` read as a symbol. */
  function QuoteKeyword(): Parser<Expr> {
    As(Utilities.MakeSymbol, Text("quote"))
  }

  /** The element at index 1, as List.get(1) gives it. */
  function Second(xs: seq<Expr>): Attempt<Expr> {
    if |xs| > 1 then Ok(xs[1]) else Thrown(Utilities.OUT_OF_BOUNDS)
  }

  function QuoteForm(expression: Parser<Expr>): Parser<Expr> {
    As(Utilities.MakeQuote, AnyOf(QuoteAlternatives(expression)))
  }

  /** 'x, or (quote x). */
  function QuoteAlternatives(expression: Parser<Expr>): seq<Parser<Expr>> {
    [After(Text("'"), expression),
     Form(AsOrThrow(Second, SeparatedBy(Whitespaces(), [QuoteKeyword(), expression])))]
  }

  /** The parameter list of LAMBDA: symbols between parentheses, perhaps none. */
  function ParameterList(): Parser<Expr> {
    Form(As(Make, ZeroOrMoreSeparatedBy(Whitespaces(), SymbolName())))
  }

  function LambdaForm(expression: Parser<Expr>): Parser<Expr> {
    AsOrThrow(Utilities.MakeLambda,
      Form(Keyword("lambda",
        SeparatedBy(Whitespaces(), [ParameterList(), As(Make, OneOrMoreSeparatedBy(Whitespaces(), expression))]))))
  }

  function DefinitionForm(expression: Parser<Expr>): Parser<Expr> {
    AsOrThrow(Utilities.MakeDefinition,
      Form(Keyword("define",
        AnyOf([
          SeparatedBy(Whitespaces(), [SymbolName(), expression]),
          SeparatedBy(Whitespaces(), [CombinationForm(expression), As(Make, OneOrMoreSeparatedBy(Whitespaces(), expression))])]))))
  }

  function AssignmentForm(expression: Parser<Expr>): Parser<Expr> {
    AsOrThrow(Utilities.MakeAssignment,
      Form(Keyword("set!", SeparatedBy(Whitespaces(), [SymbolName(), expression]))))
  }

  /** The three operands of IF, before Utilities.makeIf sees them. */
  function IfOperands(expression: Parser<Expr>): Parser<seq<Expr>> {
    Form(Keyword("if", SeparatedBy(Whitespaces(), [expression, expression, expression])))
  }

  function IfForm(expression: Parser<Expr>): Parser<Expr> {
    AsOrThrow(Utilities.MakeIf, IfOperands(expression))
  }

  /** The operands of BEGIN, before Utilities.makeBegin sees them. */
  function BeginOperands(expression: Parser<Expr>): Parser<seq<Expr>> {
    Form(Keyword("begin", OneOrMoreSeparatedBy(Whitespaces(), expression)))
  }

  function BeginForm(expression: Parser<Expr>): Parser<Expr> {
    As(Utilities.MakeBegin, BeginOperands(expression))
  }

  /** The alternatives of EXPRESSION, in the order they are tried: the
      literals and symbols, then the forms in parentheses. */
  function Alternatives(expression: Parser<Expr>): seq<Parser<Expr>> {
    seq(12, k requires 0 <= k < 12 => Alternative(expression, k))
  }

  function Alternative(expression: Parser<Expr>, k: nat): Parser<Expr>
    requires k < 12
  {
    if k < 5 then LiteralAlternative(k) else FormAlternative(expression, k)
  }

  /** The first five alternatives: the literals and the symbol. */
  function LiteralAlternative(k: nat): (p: Parser<Expr>)
    requires k < 5
    ensures k == 0 ==> p == FractionalLiteral()
    ensures k == 1 ==> p == IntegralLiteral()
    ensures k == 2 ==> p == StringLiteral()
    ensures k == 3 ==> p == SymbolName()
    ensures k == 4 ==> p == UnitLiteral()
  {
    match k
    case 0 => FractionalLiteral()
    case 1 => IntegralLiteral()
    case 2 => StringLiteral()
    case 3 => SymbolName()
    case _ => UnitLiteral()
  }

  /** The other seven: the forms in parentheses. */
  function FormAlternative(expression: Parser<Expr>, k: nat): (p: Parser<Expr>)
    requires 5 <= k < 12
    ensures k == 5 ==> p == QuoteForm(expression)
    ensures k == 6 ==> p == LambdaForm(expression)
    ensures k == 7 ==> p == DefinitionForm(expression)
    ensures k == 8 ==> p == AssignmentForm(expression)
    ensures k == 9 ==> p == IfForm(expression)
    ensures k == 10 ==> p == BeginForm(expression)
    ensures k == 11 ==> p == CombinationForm(expression)
  {
    match k
    case 5 => QuoteForm(expression)
    case 6 => LambdaForm(expression)
    case 7 => DefinitionForm(expression)
    case 8 => AssignmentForm(expression)
    case 9 => IfForm(expression)
    case 10 => BeginForm(expression)
    case _ => CombinationForm(expression)
  }

  /** The first five alternatives are the literals and the symbol. */
  lemma LiteralIsAlternative(e: Parser<Expr>, k: nat)
    requires k < 5
    ensures Alternatives(e)[k] == LiteralAlternative(k)
  {
  }

  /** The other seven are the forms in parentheses. */
  lemma FormIsAlternative(e: Parser<Expr>, k: nat)
    requires 5 <= k < 12
    ensures Alternatives(e)[k] == FormAlternative(e, k)
  {
  }

  /** The expression parser with itself as sub-expression parser, on inputs
      shorter than `s`. Deeper recursion on an input that has not shrunk
      would be a JVM stack overflow. */
  function Inner(s: string): Parser<Expr>
    decreases |s|, 0
  {
    (t: string) => if |t| < |s| then ParseExpression(t) else Thrown("StackOverflowError")
  }

  /** EXPRESSION. */
  function ParseExpression(s: string): Reply<Expr>
    decreases |s|, 1
  {
    AnyOf(Alternatives(Inner(s)))(s)
  }

  function Expression(): Parser<Expr> {
    (s: string) => ParseExpression(s)
  }

  /** PROGRAM: optional whitespace, one or more expressions separated by
      whitespace, optional whitespace. */
  function Program(): Parser<seq<Expr>> {
    Between(OptionalWhitespace(), OneOrMoreSeparatedBy(Whitespaces(), Expression()), OptionalWhitespace())
  }


  // ---------------------------------------------------------------- what the literals read

  predicate IsNotQuote(c: char) {
    c != '"'
  }

  /** UNIT reads exactly "()". */
  lemma UnitLiteralReadsParentheses(s: string)
    ensures Succeeds(UnitLiteral()(s)) <==> Strings.StartsWith(s, "()")
    ensures Succeeds(UnitLiteral()(s)) ==> UnitLiteral()(s) == Ok(Success(s[2..], UNIT))
    ensures Fails(UnitLiteral()(s)) ==> UnitLiteral()(s).value.remaining == s
    ensures !UnitLiteral()(s).Thrown?
  {
    AsMapsValue(Utilities.MakeUnit, Text("()"), s);
  }

  /** The pattern of INTEGRAL matches the whole run of digits at the front. */
  lemma IntegralPatternReadsRun(s: string)
    requires Characters.DigitRun(s) > 0
    ensures var n := Characters.DigitRun(s);
      IntegralPattern()(s) == Ok(Success(s[n..], s[..n])) && Characters.DigitRun(s[..n]) == n
  {
    var n := Characters.DigitRun(s);
    Characters.SpanOfRun(Characters.IsDigit, s[..n], []);
    assert s[..n] + [] == s[..n];
  }

  lemma UnitLiteralReads(s: string)
    requires Strings.StartsWith(s, "()")
    ensures UnitLiteral()(s) == Ok(Success(s[2..], UNIT))
  {
    AsMapsValue(Utilities.MakeUnit, Text("()"), s);
  }

  lemma UnitLiteralFails(s: string)
    requires |s| == 0 || s[0] != '('
    ensures Fails(UnitLiteral()(s))
  {
    AsMapsValue(Utilities.MakeUnit, Text("()"), s);
  }

  /** INTEGRAL reads the whole run of digits at the front, as its value when
      that fits in a long. */
  lemma IntegralLiteralReadsDigits(s: string)
    requires Characters.DigitRun(s) > 0
    requires Characters.DigitsValue(s[..Characters.DigitRun(s)]) < 0x8000_0000_0000_0000
    ensures var n := Characters.DigitRun(s);
      IntegralLiteral()(s) == Ok(Success(s[n..], Integral(Characters.DigitsValue(s[..n]))))
  {
    IntegralPatternReadsRun(s);
    AsOrThrowMapsValue(Utilities.MakeIntegral, IntegralPattern(), s);
  }

  /** A run of digits too large for a long makes INTEGRAL throw the
      NumberFormatException of Long.valueOf, which ends the whole parse. */
  lemma IntegralLiteralOverflows(s: string)
    requires Characters.DigitRun(s) > 0
    requires Characters.DigitsValue(s[..Characters.DigitRun(s)]) >= 0x8000_0000_0000_0000
    ensures var n := Characters.DigitRun(s);
      IntegralLiteral()(s) == Thrown("For input string: \"" + s[..n] + "\"")
  {
    IntegralPatternReadsRun(s);
    AsOrThrowMapsValue(Utilities.MakeIntegral, IntegralPattern(), s);
  }

  /** FRACTIONAL reads the longest of "w.f", "w." and ".f" at the front. */
  lemma FractionalLiteralReads(s: string)
    requires FractionalLength(s) > 0
    ensures var n := FractionalLength(s);
      FractionalLiteral()(s) == Ok(Success(s[n..], Utilities.MakeFractional(s[..n])))
  {
    var n := FractionalLength(s);
    assert FractionalPattern()(s) == Ok(Success(s[n..], s[..n]));
    AsMapsValue(Utilities.MakeFractional, FractionalPattern(), s);
  }

  /** A fractional literal "w.f" has the value w + f / 10^|f|. */
  lemma FractionalValue(w: string, f: string)
    requires forall i :: 0 <= i < |w| ==> Characters.IsDigit(w[i])
    requires forall i :: 0 <= i < |f| ==> Characters.IsDigit(f[i])
    ensures Utilities.MakeFractional(w + "." + f) ==
      Fractional(Characters.DigitsValue(w) as real + Characters.DigitsValue(f) as real / Utilities.Power10(|f|) as real)
  {
    var text := w + "." + f;
    Characters.SpanOfRun(Characters.IsDigit, w, "." + f);
    assert text == w + ("." + f);
    assert text[..|w|] == w;
    assert text[|w|..] == "." + f;
    Characters.SpanOfRun(Characters.IsDigit, f, []);
    assert ("." + f)[1..] == f + [];
  }

  /** Any character but a double quote is read one at a time. */
  lemma NotQuoteReadsCharacter()
    ensures ReadsCharacter(CharacterExcept("\""), IsNotQuote)
  {
    CharacterExceptReadsCharacter("\"", IsNotQuote);
  }

  /** The body of a string is the run of characters up to the next double quote. */
  lemma StringBodyReads(t: string)
    ensures var n := Characters.Span(IsNotQuote, t); StringBody()(t) == Ok(Success(t[n..], t[..n]))
  {
    NotQuoteReadsCharacter();
    RepeatReadsSpan(CharacterExcept("\""), IsNotQuote, t);
    AsStringKeepsValue(ZeroOrMore(CharacterExcept("\"")), t);
  }

  /** STRING reads from a double quote to the next one, and the text between
      them is the string; without a closing quote it fails. */
  lemma StringLiteralReadsToQuote(s: string)
    requires |s| > 0 && s[0] == '"'
    ensures var n := Characters.Span(IsNotQuote, s[1..]);
      n + 1 < |s| ==> StringLiteral()(s) == Ok(Success(s[n + 2..], Str(s[1..n + 1])))
    ensures var n := Characters.Span(IsNotQuote, s[1..]);
      n + 1 == |s| ==> Fails(StringLiteral()(s)) && StringLiteral()(s).value.remaining == s
  {
    var quote := Character('"');
    var between := Between(quote, StringBody(), quote);
    var t := s[1..];
    var n := Characters.Span(IsNotQuote, t);
    StringBodyReads(t);
    assert quote(s) == Ok(Success(t, '"'));
    assert t[n..] == s[n + 1..];
    assert t[..n] == s[1..n + 1];
    if n + 1 < |s| {
      assert quote(s[n + 1..]) == Ok(Success(s[n + 2..], '"'));
    } else {
      assert Fails(quote(s[n + 1..]));
    }
    BetweenKeepsMiddle(quote, StringBody(), quote, s);
    AsMapsValue(Utilities.MakeString, between, s);
  }

  /** STRING needs a double quote first. */
  lemma StringLiteralNeedsQuote(s: string)
    requires |s| == 0 || s[0] != '"'
    ensures Fails(StringLiteral()(s)) && StringLiteral()(s).value.remaining == s
  {
    var quote := Character('"');
    assert Fails(quote(s));
    BetweenKeepsMiddle(quote, StringBody(), quote, s);
    AsMapsValue(Utilities.MakeString, Between(quote, StringBody(), quote), s);
  }

  /** A character of a symbol is one of the five classes tried in turn. */
  lemma SymbolCharacterReads()
    ensures ReadsCharacter(SymbolCharacter(), IsSymbolCharacter)
  {
    forall s: string
      ensures if |s| > 0 && IsSymbolCharacter(s[0]) then SymbolCharacter()(s) == Ok(Success(s[1..], s[0])) else Fails(SymbolCharacter()(s))
    {
      var ps := [Letter(), Digit(), CharacterOf("+-*/"), CharacterOf("<=>"), CharacterOf("?!")];
      if |s| > 0 && IsSymbolCharacter(s[0]) {
        var c := s[0];
        if Characters.IsLetter(c) {
          AnyOfTakesFirstNonFailure(ps, s, 0);
        } else if Characters.IsDigit(c) {
          AnyOfTakesFirstNonFailure(ps, s, 1);
        } else if c in "+-*/" {
          AnyOfTakesFirstNonFailure(ps, s, 2);
        } else if c in "<=>" {
          AnyOfTakesFirstNonFailure(ps, s, 3);
        } else {
          AnyOfTakesFirstNonFailure(ps, s, 4);
        }
      } else {
        AnyOfFailsWhenAllFail(ps, s);
      }
    }
  }

  /** SYMBOL reads the whole run of symbol characters at the front, at least one. */
  lemma SymbolNameReadsRun(s: string)
    ensures var n := Characters.Span(IsSymbolCharacter, s);
      (n == 0 ==> Fails(SymbolName()(s)) && SymbolName()(s).value.remaining == s) &&
      (n > 0 ==> SymbolName()(s) == Ok(Success(s[n..], Symbol(s[..n]))))
  {
    SymbolCharacterReads();
    OneOrMoreReadsSpan(SymbolCharacter(), IsSymbolCharacter, s);
    var characters := OneOrMore(SymbolCharacter());
    AsStringKeepsValue(characters, s);
    assert SymbolCharacters()(s) == AsString(characters)(s);
    AsMapsValue(Utilities.MakeSymbol, SymbolCharacters(), s);
  }

  /** Every special form and the combination start with an opening parenthesis. */
  lemma FormNeedsParenthesis<X>(body: Parser<X>, s: string)
    requires |s| == 0 || s[0] != '('
    ensures Fails(Form(body)(s)) && Form(body)(s).value.remaining == s
  {
    assert Fails(Text("(")(s));
  }

  lemma FractionalLiteralFails(s: string)
    requires FractionalLength(s) == 0
    ensures Fails(FractionalLiteral()(s)) && FractionalLiteral()(s).value.remaining == s
  {
    AsMapsValue(Utilities.MakeFractional, FractionalPattern(), s);
  }

  lemma IntegralLiteralFails(s: string)
    requires Characters.DigitRun(s) == 0
    ensures Fails(IntegralLiteral()(s)) && IntegralLiteral()(s).value.remaining == s
  {
    AsOrThrowMapsValue(Utilities.MakeIntegral, IntegralPattern(), s);
  }

  lemma IntegralLiteralDoesNotFail(s: string)
    requires Characters.DigitRun(s) > 0
    ensures !Fails(IntegralLiteral()(s))
  {
    assert Succeeds(IntegralPattern()(s));
    AsOrThrowMapsValue(Utilities.MakeIntegral, IntegralPattern(), s);
  }

  // ---------------------------------------------------------------- what an expression is

  lemma ExpressionIsAnyOf(s: string)
    ensures ParseExpression(s) == AnyOf(Alternatives(Inner(s)))(s)
  {
  }

  /** An expression is what the first alternative that does not fail gives. */
  lemma ExpressionIsAlternative(s: string, k: nat)
    requires k < |Alternatives(Inner(s))|
    requires AllFail(Alternatives(Inner(s)), k, s)
    requires !Fails(Alternatives(Inner(s))[k](s))
    ensures ParseExpression(s) == Alternatives(Inner(s))[k](s)
  {
    ExpressionIsAnyOf(s);
    AnyOfAfterFailures(Alternatives(Inner(s)), s, k);
  }

  lemma FractionalFirst(expression: Parser<Expr>, s: string)
    requires FractionalLength(s) > 0
    ensures var n := FractionalLength(s);
      Alternatives(expression)[0](s) == Ok(Success(s[n..], Utilities.MakeFractional(s[..n])))
  {
    LiteralIsAlternative(expression, 0);
    FractionalLiteralReads(s);
  }

  lemma FractionalFailsFirst(expression: Parser<Expr>, s: string)
    requires FractionalLength(s) == 0
    ensures Fails(Alternatives(expression)[0](s))
  {
    LiteralIsAlternative(expression, 0);
    FractionalLiteralFails(s);
  }

  lemma IntegralSecond(expression: Parser<Expr>, s: string)
    requires Characters.DigitRun(s) > 0
    ensures !Fails(Alternatives(expression)[1](s)) && Alternatives(expression)[1](s) == IntegralLiteral()(s)
  {
    LiteralIsAlternative(expression, 1);
    IntegralLiteralDoesNotFail(s);
  }

  lemma IntegralFailsSecond(expression: Parser<Expr>, s: string)
    requires Characters.DigitRun(s) == 0
    ensures Fails(Alternatives(expression)[1](s))
  {
    LiteralIsAlternative(expression, 1);
    IntegralLiteralFails(s);
  }

  lemma StringThird(expression: Parser<Expr>, s: string)
    requires |s| > 0 && s[0] == '"' && Characters.Span(IsNotQuote, s[1..]) + 1 < |s|
    ensures var n := Characters.Span(IsNotQuote, s[1..]);
      Alternatives(expression)[2](s) == Ok(Success(s[n + 2..], Str(s[1..n + 1])))
  {
    LiteralIsAlternative(expression, 2);
    StringLiteralReadsToQuote(s);
  }

  lemma StringFailsThird(expression: Parser<Expr>, s: string)
    requires |s| == 0 || s[0] != '"'
    ensures Fails(Alternatives(expression)[2](s))
  {
    LiteralIsAlternative(expression, 2);
    StringLiteralNeedsQuote(s);
  }

  lemma SymbolFourth(expression: Parser<Expr>, s: string)
    requires |s| > 0 && IsSymbolCharacter(s[0])
    ensures var n := Characters.Span(IsSymbolCharacter, s);
      Alternatives(expression)[3](s) == Ok(Success(s[n..], Symbol(s[..n])))
  {
    LiteralIsAlternative(expression, 3);
    SymbolNameReadsRun(s);
  }

  lemma SymbolFailsFourth(expression: Parser<Expr>, s: string)
    requires Characters.Span(IsSymbolCharacter, s) == 0
    ensures Fails(Alternatives(expression)[3](s))
  {
    LiteralIsAlternative(expression, 3);
    SymbolNameReadsRun(s);
  }

  lemma UnitFifth(expression: Parser<Expr>, s: string)
    requires Strings.StartsWith(s, "()")
    ensures Alternatives(expression)[4](s) == Ok(Success(s[2..], UNIT))
  {
    LiteralIsAlternative(expression, 4);
    UnitLiteralReads(s);
  }

  lemma UnitFailsFifth(expression: Parser<Expr>, s: string)
    requires |s| == 0 || s[0] != '('
    ensures Fails(Alternatives(expression)[4](s))
  {
    LiteralIsAlternative(expression, 4);
    UnitLiteralFails(s);
  }

  lemma QuoteSixth(expression: Parser<Expr>, t: string)
    requires !Fails(expression(t))
    ensures Alternatives(expression)[5]("'" + t) ==
      match expression(t)
      case Thrown(m) => Thrown(m)
      case Ok(r) => Ok(Success(r.remaining, Quote(r.value)))
  {
    FormIsAlternative(expression, 5);
    FormIsAlternative(expression, 5);
    QuoteFormReadsShorthand(expression, t);
  }

  /** Where no fractional literal starts, the first alternative fails. */
  lemma FirstOneFails(expression: Parser<Expr>, s: string)
    requires FractionalLength(s) == 0
    ensures AllFail(Alternatives(expression), 1, s)
  {
    FractionalFailsFirst(expression, s);
  }

  /** Where no number starts, the first two alternatives fail. */
  lemma FirstTwoFail(expression: Parser<Expr>, s: string)
    requires FractionalLength(s) == 0 && Characters.DigitRun(s) == 0
    ensures AllFail(Alternatives(expression), 2, s)
  {
    FirstOneFails(expression, s);
    IntegralFailsSecond(expression, s);
  }

  /** Where neither a number nor a string starts, the first three alternatives fail. */
  lemma FirstThreeFail(expression: Parser<Expr>, s: string)
    requires FractionalLength(s) == 0 && Characters.DigitRun(s) == 0
    requires |s| == 0 || s[0] != '"'
    ensures AllFail(Alternatives(expression), 3, s)
  {
    FirstTwoFail(expression, s);
    StringFailsThird(expression, s);
  }

  /** Where a parenthesis or a quote starts, no literal and no symbol does. */
  lemma PunctuationStartsNoLiteral(s: string)
    requires |s| > 0 && (s[0] == '(' || s[0] == '\'')
    ensures FractionalLength(s) == 0 && Characters.DigitRun(s) == 0 && s[0] != '"'
    ensures Characters.Span(IsSymbolCharacter, s) == 0
  {
  }

  /** Where a parenthesis or a quote starts, the first four alternatives fail. */
  lemma FirstFourFail(expression: Parser<Expr>, s: string)
    requires |s| > 0 && (s[0] == '(' || s[0] == '\'')
    ensures AllFail(Alternatives(expression), 4, s)
  {
    PunctuationStartsNoLiteral(s);
    FirstThreeFail(expression, s);
    SymbolFailsFourth(expression, s);
  }

  /** Where a quote starts, the first five alternatives fail. */
  lemma FirstFiveFail(expression: Parser<Expr>, s: string)
    requires |s| > 0 && s[0] == '\''
    ensures AllFail(Alternatives(expression), 5, s)
  {
    FirstFourFail(expression, s);
    UnitFailsFifth(expression, s);
  }

  /** FRACTIONAL is tried first: where a fractional literal starts, an
      expression is that literal, so "4.5" is never the integral 4. */
  lemma ExpressionReadsFractionalFirst(s: string)
    requires FractionalLength(s) > 0
    ensures var n := FractionalLength(s);
      ParseExpression(s) == Ok(Success(s[n..], Utilities.MakeFractional(s[..n])))
  {
    FractionalFirst(Inner(s), s);
    ExpressionIsAlternative(s, 0);
  }

  /** Where no fractional literal starts but a digit does, an expression is
      the integral literal. */
  lemma ExpressionReadsIntegral(s: string)
    requires FractionalLength(s) == 0 && Characters.DigitRun(s) > 0
    ensures ParseExpression(s) == IntegralLiteral()(s)
  {
    FirstOneFails(Inner(s), s);
    IntegralSecond(Inner(s), s);
    ExpressionIsAlternative(s, 1);
  }

  /** A double quote with a closing one after it starts a string. */
  lemma ExpressionReadsString(s: string)
    requires |s| > 0 && s[0] == '"' && Characters.Span(IsNotQuote, s[1..]) + 1 < |s|
    ensures var n := Characters.Span(IsNotQuote, s[1..]);
      ParseExpression(s) == Ok(Success(s[n + 2..], Str(s[1..n + 1])))
  {
    FirstTwoFail(Inner(s), s);
    StringThird(Inner(s), s);
    ExpressionIsAlternative(s, 2);
  }

  lemma SymbolIsNotNumberOrString(s: string)
    requires |s| > 0 && IsSymbolCharacter(s[0]) && !Characters.IsDigit(s[0])
    ensures FractionalLength(s) == 0 && Characters.DigitRun(s) == 0 && s[0] != '"'
  {
  }

  /** A symbol character other than a digit starts a symbol, which runs as
      far as the symbol characters do. */
  lemma ExpressionReadsSymbol(s: string)
    requires |s| > 0 && IsSymbolCharacter(s[0]) && !Characters.IsDigit(s[0])
    ensures var n := Characters.Span(IsSymbolCharacter, s);
      ParseExpression(s) == Ok(Success(s[n..], Symbol(s[..n])))
  {
    SymbolIsNotNumberOrString(s);
    FirstThreeFail(Inner(s), s);
    SymbolFourth(Inner(s), s);
    ExpressionIsAlternative(s, 3);
  }

  /** "()" is the empty combination UNIT, never a combination form. */
  lemma ExpressionReadsUnit(s: string)
    requires Strings.StartsWith(s, "()")
    ensures ParseExpression(s) == Ok(Success(s[2..], UNIT))
  {
    assert s[0] == s[..2][0] == '(';
    FirstFourFail(Inner(s), s);
    UnitFifth(Inner(s), s);
    ExpressionIsAlternative(s, 4);
  }

  /** 'x is the quotation of the expression x that follows the quote. */
  lemma ExpressionReadsQuoteShorthand(t: string)
    requires !Fails(ParseExpression(t))
    ensures ParseExpression("'" + t) ==
      match ParseExpression(t)
      case Thrown(m) => Thrown(m)
      case Ok(r) => Ok(Success(r.remaining, Quote(r.value)))
  {
    var s := "'" + t;
    assert Inner(s)(t) == ParseExpression(t);
    FirstFiveFail(Inner(s), s);
    QuoteSixth(Inner(s), t);
    ExpressionIsAlternative(s, 5);
  }

  /** The shorthand 'x of QUOTE reads the expression x after the quote. */
  lemma QuoteFormReadsShorthand(expression: Parser<Expr>, t: string)
    requires !Fails(expression(t))
    ensures QuoteForm(expression)("'" + t) ==
      match expression(t)
      case Thrown(m) => Thrown(m)
      case Ok(r) => Ok(Success(r.remaining, Quote(r.value)))
  {
    var s := "'" + t;
    assert s[1..] == t;
    var quotes := QuoteAlternatives(expression);
    assert !Fails(quotes[0](s)) && quotes[0](s) == expression(t) by {
      assert Text("'")(s) == Ok(Success(t, "'"));
      AfterKeepsSecond(Text("'"), expression, s);
    }
    AnyOfTakesFirstNonFailure(quotes, s, 0);
    AsMapsValue(Utilities.MakeQuote, AnyOf(quotes), s);
  }

  // ---------------------------------------------------------------- what the forms build

  /** Every special form gives the value of its operands. */
  lemma FormYields<X>(body: Parser<X>, property: X -> bool)
    requires Yields(body, property)
    ensures Yields(Form(body), property)
  {
    BetweenYields(OptionalWhitespace(), body, OptionalWhitespace(), property);
    BetweenYields(Text("("), Between(OptionalWhitespace(), body, OptionalWhitespace()), Text(")"), property);
  }

  lemma KeywordYields<X>(keyword: string, operands: Parser<X>, property: X -> bool)
    requires Yields(operands, property)
    ensures Yields(Keyword(keyword, operands), property)
  {
    AfterYields(Whitespaces(), operands, property);
    AfterYields(Text(keyword), After(Whitespaces(), operands), property);
  }

  /** IF succeeds exactly when its operands are read, and then there are
      exactly three of them: the test, the consequent and the alternative. */
  lemma IfFormBuildsIf(expression: Parser<Expr>, s: string)
    ensures Succeeds(IfForm(expression)(s)) <==> Succeeds(IfOperands(expression)(s))
    ensures Succeeds(IfForm(expression)(s)) ==>
      var r := IfOperands(expression)(s).value;
      |r.value| == 3 && IfForm(expression)(s) == Ok(Success(r.remaining, If(r.value[0], r.value[1], r.value[2])))
  {
    var operands := SeparatedBy(Whitespaces(), [expression, expression, expression]);
    var three := (xs: seq<Expr>) => |xs| == 3;
    forall t
      ensures Succeeds(operands(t)) ==> three(operands(t).value.value)
    {
      SeparatedByExactCount(Whitespaces(), [expression, expression, expression], t, t);
    }
    KeywordYields("if", operands, three);
    FormYields(Keyword("if", operands), three);
    AsOrThrowMapsValue(Utilities.MakeIf, IfOperands(expression), s);
  }

  /** BEGIN succeeds exactly when its operands are read, and holds them all,
      in order; there is at least one. */
  lemma BeginFormBuildsBegin(expression: Parser<Expr>, s: string)
    ensures Succeeds(BeginForm(expression)(s)) <==> Succeeds(BeginOperands(expression)(s))
    ensures Succeeds(BeginForm(expression)(s)) ==>
      var r := BeginOperands(expression)(s).value;
      |r.value| >= 1 && BeginForm(expression)(s) == Ok(Success(r.remaining, Begin(r.value)))
  {
    var items := OneOrMoreSeparatedBy(Whitespaces(), expression);
    var nonEmpty := (xs: seq<Expr>) => |xs| >= 1;
    forall t
      ensures Succeeds(items(t)) ==> nonEmpty(items(t).value.value)
    {
      OneOrMoreSeparatedByNonEmpty(Whitespaces(), expression, t);
    }
    KeywordYields("begin", items, nonEmpty);
    FormYields(Keyword("begin", items), nonEmpty);
    AsMapsValue(Utilities.MakeBegin, BeginOperands(expression), s);
  }

  /** PROGRAM succeeds only with at least one expression. */
  lemma ProgramIsNotEmpty(s: string)
    ensures Succeeds(Program()(s)) ==> |Program()(s).value.value| >= 1
  {
    var items := OneOrMoreSeparatedBy(Whitespaces(), Expression());
    BetweenKeepsMiddle(OptionalWhitespace(), items, OptionalWhitespace(), s);
    if Succeeds(Program()(s)) {
      OneOrMoreSeparatedByNonEmpty(Whitespaces(), Expression(), OptionalWhitespace()(s).value.remaining);
    }
  }
}
