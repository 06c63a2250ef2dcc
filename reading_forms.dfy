/** What each special form and the combination read: given what the
    expression parser reads at each operand, one space apart, the form gives
    the expression the matching Utilities.make* builds. */
module ReadingForms {
  import opened Wrappers
  import opened Results
  import opened Parsers
  import opened Ast
  import opened Syntax
  import opened Reading
  import Utilities

  /** The texts that open the special forms: "(", the keyword, a space. */
  lemma Openings()
    ensures "(quote " == "(" + "quote" + " " && StartsItem("quote")
    ensures "(lambda " == "(" + "lambda" + " " && StartsItem("lambda")
    ensures "(define " == "(" + "define" + " " && StartsItem("define")
    ensures "(set! " == "(" + "set!" + " " && StartsItem("set!")
    ensures "(if " == "(" + "if" + " " && StartsItem("if")
    ensures "(begin " == "(" + "begin" + " " && StartsItem("begin")
  {
  }

  /** The keyword and the expression of the long form (quote x). */
  lemma QuoteOperandsRead(expression: Parser<Expr>, t: string, x: Expr, rest: string)
    requires Reads(expression, t, x, ")" + rest)
    ensures SeparatedBy(Whitespaces(), [QuoteKeyword(), expression])("quote " + t) == Ok(Success(")" + rest, [Symbol("quote"), x]))
  {
    QuoteKeywordReads(t);
    PairReads(QuoteKeyword(), expression, "quote " + t, Symbol("quote"), t, x, ")" + rest);
  }

  lemma QuoteIsNoParenthesis(u: string)
    ensures Fails(Text("'")("(" + u))
  {
    assert ("(" + u)[0] == '(';
  }

  lemma QuoteOpening(t: string)
    ensures "(quote " + t == "(" + ("quote " + t) && StartsItem("quote " + t)
  {
    assert ("quote " + t)[0] == 'q';
  }

  /** The quote-mark branch of QUOTE fails after an opening parenthesis. */
  lemma QuoteMarkFailsParenthesised(expression: Parser<Expr>, u: string)
    ensures Fails(QuoteAlternatives(expression)[0]("(" + u))
  {
    QuoteIsNoParenthesis(u);
    AfterFailsFirst(Text("'"), expression, "(" + u);
  }

  /** The parenthesised branch of QUOTE gives the second of the two items it reads. */
  lemma QuoteLongBranchReads(expression: Parser<Expr>, u: string, x: Expr, rest: string)
    requires StartsItem(u)
    requires SeparatedBy(Whitespaces(), [QuoteKeyword(), expression])(u) == Ok(Success(")" + rest, [Symbol("quote"), x]))
    ensures QuoteAlternatives(expression)[1]("(" + u) == Ok(Success(rest, x))
  {
    var pair := SeparatedBy(Whitespaces(), [QuoteKeyword(), expression]);
    AsOrThrowMapsValue(Second, pair, u);
    FormReads(AsOrThrow(Second, pair), u, x, rest);
  }

  /** After an opening parenthesis, QUOTE's alternatives take the long form. */
  lemma QuoteTakesLongBranch(expression: Parser<Expr>, u: string, x: Expr, rest: string)
    requires StartsItem(u)
    requires SeparatedBy(Whitespaces(), [QuoteKeyword(), expression])(u) == Ok(Success(")" + rest, [Symbol("quote"), x]))
    ensures AnyOf(QuoteAlternatives(expression))("(" + u) == Ok(Success(rest, x))
  {
    QuoteMarkFailsParenthesised(expression, u);
    QuoteLongBranchReads(expression, u, x, rest);
    AnyOfTakesSecond(QuoteAlternatives(expression), "(" + u);
  }

  /** The long form quotes the second of the two items it reads. */
  lemma QuoteLongFormBuildsAt(expression: Parser<Expr>, u: string, x: Expr, rest: string)
    requires StartsItem(u)
    requires SeparatedBy(Whitespaces(), [QuoteKeyword(), expression])(u) == Ok(Success(")" + rest, [Symbol("quote"), x]))
    ensures QuoteForm(expression)("(" + u) == Ok(Success(rest, Quote(x)))
  {
    QuoteTakesLongBranch(expression, u, x, rest);
    AsMapsValue(Utilities.MakeQuote, AnyOf(QuoteAlternatives(expression)), "(" + u);
  }

  /** The same, with the keyword written out. */
  lemma QuoteLongFormBuilds(expression: Parser<Expr>, t: string, x: Expr, rest: string)
    requires SeparatedBy(Whitespaces(), [QuoteKeyword(), expression])("quote " + t) == Ok(Success(")" + rest, [Symbol("quote"), x]))
    ensures QuoteForm(expression)("(quote " + t) == Ok(Success(rest, Quote(x)))
  {
    QuoteOpening(t);
    QuoteLongFormBuildsAt(expression, "quote " + t, x, rest);
  }

  /** The long form (quote x) reads the expression after the keyword. */
  lemma QuoteLongFormReads(expression: Parser<Expr>, t: string, x: Expr, rest: string)
    requires Reads(expression, t, x, ")" + rest)
    ensures QuoteForm(expression)("(quote " + t) == Ok(Success(rest, Quote(x)))
  {
    QuoteOperandsRead(expression, t, x, rest);
    QuoteLongFormBuilds(expression, t, x, rest);
  }

  /** The operands of LAMBDA and of the shorthand DEFINITION: one or more expressions. */
  lemma OperandsRead(expression: Parser<Expr>, b: string, body: seq<Expr>, rest: string)
    requires ReadsSeparated(expression, b, body, ")" + rest)
    ensures Reads(As(Make, OneOrMoreSeparatedBy(Whitespaces(), expression)), b, Make(body), ")" + rest)
  {
    SeparatedRepetitionsRead(expression, b, body, ")" + rest);
    ReadsSeparatedShortens(expression, b, body, ")" + rest);
    AsMapsValue(Make, OneOrMoreSeparatedBy(Whitespaces(), expression), b);
  }

  /** The parameter list and the body of LAMBDA. */
  lemma LambdaOperandsRead(expression: Parser<Expr>, names: seq<string>, v: string, b: string, body: seq<Expr>, rest: string)
    requires Reads(ParameterList(), v, Make(Utilities.Symbols(names)), " " + b)
    requires ReadsSeparated(expression, b, body, ")" + rest)
    ensures StartsItem(v)
    ensures SeparatedBy(Whitespaces(), [ParameterList(), As(Make, OneOrMoreSeparatedBy(Whitespaces(), expression))])(v) ==
      Ok(Success(")" + rest, [Make(Utilities.Symbols(names)), Make(body)]))
  {
    OperandsRead(expression, b, body, rest);
    PairReads(ParameterList(), As(Make, OneOrMoreSeparatedBy(Whitespaces(), expression)), v, Make(Utilities.Symbols(names)), b, Make(body), ")" + rest);
  }

  lemma LambdaFormBuilds(expression: Parser<Expr>, names: seq<string>, v: string, body: seq<Expr>, rest: string)
    requires StartsItem(v)
    requires SeparatedBy(Whitespaces(), [ParameterList(), As(Make, OneOrMoreSeparatedBy(Whitespaces(), expression))])(v) ==
      Ok(Success(")" + rest, [Make(Utilities.Symbols(names)), Make(body)]))
    ensures LambdaForm(expression)("(lambda " + v) == Ok(Success(rest, Lambda(names, body)))
  {
    Openings();
    Utilities.MakeLambdaOfSymbols(names, body);
    KeywordFormReads(LambdaForm(expression), "(lambda ", Utilities.MakeLambda, "lambda",
      SeparatedBy(Whitespaces(), [ParameterList(), As(Make, OneOrMoreSeparatedBy(Whitespaces(), expression))]),
      v, [Make(Utilities.Symbols(names)), Make(body)], Lambda(names, body), rest);
  }

  /** (lambda (p ...) x ...) reads the parameter names and the body. */
  lemma LambdaFormReads(expression: Parser<Expr>, names: seq<string>, v: string, b: string, body: seq<Expr>, rest: string)
    requires Reads(ParameterList(), v, Make(Utilities.Symbols(names)), " " + b)
    requires ReadsSeparated(expression, b, body, ")" + rest)
    ensures LambdaForm(expression)("(lambda " + v) == Ok(Success(rest, Lambda(names, body)))
  {
    LambdaOperandsRead(expression, names, v, b, body, rest);
    LambdaFormBuilds(expression, names, v, body, rest);
  }

  /** The two alternatives of DEFINITION. */
  function DefinitionAlternatives(expression: Parser<Expr>): seq<Parser<seq<Expr>>> {
    [SeparatedBy(Whitespaces(), [SymbolName(), expression]),
     SeparatedBy(Whitespaces(), [CombinationForm(expression), As(Make, OneOrMoreSeparatedBy(Whitespaces(), expression))])]
  }

  /** A symbol then an expression, as DEFINITION and ASSIGNMENT read them. */
  lemma NameThenValueReads(expression: Parser<Expr>, name: string, t: string, x: Expr, rest: string)
    requires IsName(name) && Reads(expression, t, x, ")" + rest)
    ensures StartsItem(name + " " + t)
    ensures SeparatedBy(Whitespaces(), [SymbolName(), expression])(name + " " + t) == Ok(Success(")" + rest, [Symbol(name), x]))
  {
    assert name + " " + t == name + (" " + t);
    SymbolNameReads(name, " " + t);
    PairReads(SymbolName(), expression, name + " " + t, Symbol(name), t, x, ")" + rest);
  }

  /** DEFINITION takes its first alternative when that does not fail. */
  lemma DefinitionTakesFirst(expression: Parser<Expr>, v: string, xs: seq<Expr>, rest: string)
    requires DefinitionAlternatives(expression)[0](v) == Ok(Success(")" + rest, xs))
    ensures AnyOf(DefinitionAlternatives(expression))(v) == Ok(Success(")" + rest, xs))
  {
    AnyOfTakesFirstNonFailure(DefinitionAlternatives(expression), v, 0);
  }

  /** DEFINITION takes its second alternative after an opening parenthesis,
      where no symbol starts. */
  lemma DefinitionTakesSecond(expression: Parser<Expr>, w: string, xs: seq<Expr>, rest: string)
    requires DefinitionAlternatives(expression)[1]("(" + w) == Ok(Success(")" + rest, xs))
    ensures AnyOf(DefinitionAlternatives(expression))("(" + w) == Ok(Success(")" + rest, xs))
  {
    ParenthesisStartsNoName(w);
    SeparatedByFailsFirst(Whitespaces(), [SymbolName(), expression], "(" + w);
    AnyOfTakesSecond(DefinitionAlternatives(expression), "(" + w);
  }

  lemma DefinitionFormBuildsSymbol(expression: Parser<Expr>, name: string, t: string, x: Expr, rest: string)
    requires StartsItem(name + " " + t)
    requires SeparatedBy(Whitespaces(), [SymbolName(), expression])(name + " " + t) == Ok(Success(")" + rest, [Symbol(name), x]))
    ensures DefinitionForm(expression)("(define " + (name + " " + t)) == Ok(Success(rest, Definition(name, x)))
  {
    var v := name + " " + t;
    Openings();
    DefinitionTakesFirst(expression, v, [Symbol(name), x], rest);
    Utilities.MakeDefinitionOfSymbol(name, x);
    KeywordFormReads(DefinitionForm(expression), "(define ", Utilities.MakeDefinition, "define", AnyOf(DefinitionAlternatives(expression)),
      v, [Symbol(name), x], Definition(name, x), rest);
  }

  /** (define name x) defines the name as the expression. */
  lemma DefinitionFormReadsSymbol(expression: Parser<Expr>, name: string, t: string, x: Expr, rest: string)
    requires IsName(name) && Reads(expression, t, x, ")" + rest)
    ensures DefinitionForm(expression)("(define " + (name + " " + t)) == Ok(Success(rest, Definition(name, x)))
  {
    NameThenValueReads(expression, name, t, x, rest);
    DefinitionFormBuildsSymbol(expression, name, t, x, rest);
  }

  /** The target (f p ...) of the shorthand DEFINITION, read as a combination. */
  lemma TargetReads(expression: Parser<Expr>, w: string, target: seq<Expr>, b: string)
    requires ReadsSeparated(expression, w, target, ") " + b)
    ensures Reads(CombinationForm(expression), "(" + w, Make(target), " " + b)
  {
    ReadsSeparatedShortens(expression, w, target, ") " + b);
    assert ") " + b == ")" + (" " + b);
    CombinationFormReads(expression, w, target, " " + b);
  }

  /** The target and the body of the shorthand DEFINITION. */
  lemma ShorthandOperandsRead(expression: Parser<Expr>, target: seq<Expr>, w: string, b: string, body: seq<Expr>, rest: string)
    requires ReadsSeparated(expression, w, target, ") " + b)
    requires ReadsSeparated(expression, b, body, ")" + rest)
    ensures DefinitionAlternatives(expression)[1]("(" + w) == Ok(Success(")" + rest, [Make(target), Make(body)]))
  {
    TargetReads(expression, w, target, b);
    OperandsRead(expression, b, body, rest);
    PairReads(CombinationForm(expression), As(Make, OneOrMoreSeparatedBy(Whitespaces(), expression)), "(" + w, Make(target), b, Make(body), ")" + rest);
  }

  lemma DefinitionFormBuildsShorthand(expression: Parser<Expr>, f: string, names: seq<string>, w: string, body: seq<Expr>, rest: string)
    requires DefinitionAlternatives(expression)[1]("(" + w) == Ok(Success(")" + rest, [Make([Symbol(f)] + Utilities.Symbols(names)), Make(body)]))
    ensures DefinitionForm(expression)("(define " + ("(" + w)) == Ok(Success(rest, Definition(f, Lambda(names, body))))
  {
    var xs := [Make([Symbol(f)] + Utilities.Symbols(names)), Make(body)];
    Openings();
    DefinitionTakesSecond(expression, w, xs, rest);
    Utilities.MakeDefinitionShorthand(f, names, body);
    KeywordFormReads(DefinitionForm(expression), "(define ", Utilities.MakeDefinition, "define", AnyOf(DefinitionAlternatives(expression)),
      "(" + w, xs, Definition(f, Lambda(names, body)), rest);
  }

  /** (define (f p ...) x ...) defines f as (lambda (p ...) x ...). */
  lemma DefinitionFormReadsShorthand(expression: Parser<Expr>, f: string, names: seq<string>, w: string, b: string, body: seq<Expr>, rest: string)
    requires ReadsSeparated(expression, w, [Symbol(f)] + Utilities.Symbols(names), ") " + b)
    requires ReadsSeparated(expression, b, body, ")" + rest)
    ensures DefinitionForm(expression)("(define " + ("(" + w)) == Ok(Success(rest, Definition(f, Lambda(names, body))))
  {
    ShorthandOperandsRead(expression, [Symbol(f)] + Utilities.Symbols(names), w, b, body, rest);
    DefinitionFormBuildsShorthand(expression, f, names, w, body, rest);
  }

  lemma AssignmentFormBuilds(expression: Parser<Expr>, name: string, t: string, x: Expr, rest: string)
    requires StartsItem(name + " " + t)
    requires SeparatedBy(Whitespaces(), [SymbolName(), expression])(name + " " + t) == Ok(Success(")" + rest, [Symbol(name), x]))
    ensures AssignmentForm(expression)("(set! " + (name + " " + t)) == Ok(Success(rest, Assignment(name, x)))
  {
    Openings();
    KeywordFormReads(AssignmentForm(expression), "(set! ", Utilities.MakeAssignment, "set!", SeparatedBy(Whitespaces(), [SymbolName(), expression]),
      name + " " + t, [Symbol(name), x], Assignment(name, x), rest);
  }

  /** (set! name x) assigns the expression to the name. */
  lemma AssignmentFormReads(expression: Parser<Expr>, name: string, t: string, x: Expr, rest: string)
    requires IsName(name) && Reads(expression, t, x, ")" + rest)
    ensures AssignmentForm(expression)("(set! " + (name + " " + t)) == Ok(Success(rest, Assignment(name, x)))
  {
    NameThenValueReads(expression, name, t, x, rest);
    AssignmentFormBuilds(expression, name, t, x, rest);
  }

  /** The test, the consequent and the alternative of IF. */
  lemma IfOperandsRead(expression: Parser<Expr>, t1: string, t2: string, t3: string, p: Expr, c: Expr, a: Expr, rest: string)
    requires Reads(expression, t1, p, " " + t2) && Reads(expression, t2, c, " " + t3) && Reads(expression, t3, a, ")" + rest)
    ensures SeparatedBy(Whitespaces(), [expression, expression, expression])(t1) == Ok(Success(")" + rest, [p, c, a]))
  {
    var ps := [expression, expression, expression];
    var xs := [p, c, a];
    assert ReadsEach(ps, t1, xs, ")" + rest) by {
      assert (" " + t2)[1..] == t2 && (" " + t3)[1..] == t3;
      assert ps[1..] == [expression, expression] && ps[1..][1..] == [expression];
      assert xs[1..] == [c, a] && xs[1..][1..] == [a];
      assert ReadsEach(ps[1..][1..], t3, xs[1..][1..], ")" + rest);
      assert ReadsEach(ps[1..], t2, xs[1..], ")" + rest);
    }
    SeparatedByReads(ps, t1, t1, xs, ")" + rest);
  }

  lemma IfFormBuilds(expression: Parser<Expr>, t1: string, p: Expr, c: Expr, a: Expr, rest: string)
    requires StartsItem(t1)
    requires SeparatedBy(Whitespaces(), [expression, expression, expression])(t1) == Ok(Success(")" + rest, [p, c, a]))
    ensures IfForm(expression)("(if " + t1) == Ok(Success(rest, If(p, c, a)))
  {
    Openings();
    KeywordFormReads(IfForm(expression), "(if ", Utilities.MakeIf, "if", SeparatedBy(Whitespaces(), [expression, expression, expression]),
      t1, [p, c, a], If(p, c, a), rest);
  }

  /** (if p c a) reads the test, the consequent and the alternative in turn. */
  lemma IfFormReads(expression: Parser<Expr>, t1: string, t2: string, t3: string, p: Expr, c: Expr, a: Expr, rest: string)
    requires Reads(expression, t1, p, " " + t2) && Reads(expression, t2, c, " " + t3) && Reads(expression, t3, a, ")" + rest)
    ensures IfForm(expression)("(if " + t1) == Ok(Success(rest, If(p, c, a)))
  {
    IfOperandsRead(expression, t1, t2, t3, p, c, a, rest);
    IfFormBuilds(expression, t1, p, c, a, rest);
  }

  lemma BeginFormBuilds(expression: Parser<Expr>, t: string, xs: seq<Expr>, rest: string)
    requires StartsItem(t) && OneOrMoreSeparatedBy(Whitespaces(), expression)(t) == Ok(Success(")" + rest, xs))
    ensures BeginForm(expression)("(begin " + t) == Ok(Success(rest, Begin(xs)))
  {
    Openings();
    KeywordFormReadsAs(BeginForm(expression), "(begin ", Utilities.MakeBegin, "begin", OneOrMoreSeparatedBy(Whitespaces(), expression), t, xs, rest);
  }

  /** (begin x ...) reads every expression, in order. */
  lemma BeginFormReads(expression: Parser<Expr>, t: string, xs: seq<Expr>, rest: string)
    requires ReadsSeparated(expression, t, xs, ")" + rest)
    ensures BeginForm(expression)("(begin " + t) == Ok(Success(rest, Begin(xs)))
  {
    SeparatedRepetitionsRead(expression, t, xs, ")" + rest);
    ReadsSeparatedShortens(expression, t, xs, ")" + rest);
    BeginFormBuilds(expression, t, xs, rest);
  }

  /** The parameter list (p ...) reads every name, in order, as a combination
      of symbols. */
  lemma ParameterListReads(w: string, names: seq<string>, rest: string)
    requires ReadsSeparated(SymbolName(), w, Utilities.Symbols(names), ")" + rest)
    ensures Reads(ParameterList(), "(" + w, Make(Utilities.Symbols(names)), rest)
  {
    var body := ZeroOrMoreSeparatedBy(Whitespaces(), SymbolName());
    SeparatedRepetitionsRead(SymbolName(), w, Utilities.Symbols(names), ")" + rest);
    ReadsSeparatedShortens(SymbolName(), w, Utilities.Symbols(names), ")" + rest);
    AsMapsValue(Make, body, w);
    FormReads(As(Make, body), w, Make(Utilities.Symbols(names)), rest);
  }

  /** The empty parameter list () reads as the empty combination. */
  lemma EmptyParameterListReads(rest: string)
    ensures Reads(ParameterList(), "()" + rest, Make(Utilities.Symbols([])), rest)
  {
    var body := ZeroOrMoreSeparatedBy(Whitespaces(), SymbolName());
    var u := ")" + rest;
    assert "()" + rest == "(" + u;
    assert Fails(SymbolName()(u)) by {
      assert !IsSymbolCharacter(u[0]);
      SymbolNameReadsRun(u);
    }
    AsMapsValue(Make, body, u);
    FormReads(As(Make, body), u, Make([]), rest);
  }

  /** (x ...) reads every expression, in order, as a combination. */
  lemma CombinationFormReads(expression: Parser<Expr>, t: string, xs: seq<Expr>, rest: string)
    requires ReadsSeparated(expression, t, xs, ")" + rest)
    ensures CombinationForm(expression)("(" + t) == Ok(Success(rest, Make(xs)))
  {
    SeparatedRepetitionsRead(expression, t, xs, ")" + rest);
    ReadsSeparatedShortens(expression, t, xs, ")" + rest);
    FormReads(OneOrMoreSeparatedBy(Whitespaces(), expression), t, xs, rest);
    AsMapsValue(Make, Form(OneOrMoreSeparatedBy(Whitespaces(), expression)), "(" + t);
  }
}
