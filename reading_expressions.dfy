/** What EXPRESSION reads on whole texts: each special form, with its
    keyword ahead, gives the expression its builder makes, and a
    parenthesised text with no keyword ahead is a combination. */
module ReadingExpressions {
  import opened Wrappers
  import opened Results
  import opened Parsers
  import opened Ast
  import opened Syntax
  import opened Reading
  import opened ReadingForms
  import opened ReadingAlternatives
  import Utilities

  lemma QuoteAlternativeReads(t: string, x: Expr, rest: string)
    requires Reads(Expression(), t, x, ")" + rest)
    ensures Alternatives(Inner("(quote " + t))[5]("(quote " + t) == Ok(Success(rest, Quote(x)))
  {
    var s := "(quote " + t;
    InnerReads(s, t, x, ")" + rest);
    QuoteLongFormReads(Inner(s), t, x, rest);
    QuoteIsSixth(Inner(s));
  }

  /** (quote x) reads the quotation of what EXPRESSION reads after the keyword. */
  lemma ExpressionReadsQuote(t: string, x: Expr, rest: string)
    requires Reads(Expression(), t, x, ")" + rest)
    ensures ParseExpression("(quote " + t) == Ok(Success(rest, Quote(x)))
  {
    FormOpenings();
    QuoteAlternativeReads(t, x, rest);
    ExpressionIsSpecialForm(5, "(quote ", t, Ok(Success(rest, Quote(x))));
  }

  /** 'x reads the quotation of what EXPRESSION reads after the quote. */
  lemma ExpressionReadsQuoteMark(t: string, x: Expr, rest: string)
    requires Reads(Expression(), t, x, rest)
    ensures ParseExpression("'" + t) == Ok(Success(rest, Quote(x)))
  {
    ExpressionReadsQuoteShorthand(t);
  }

  lemma LambdaAlternativeReads(names: seq<string>, v: string, b: string, body: seq<Expr>, rest: string)
    requires Reads(ParameterList(), v, Make(Utilities.Symbols(names)), " " + b)
    requires ReadsSeparated(Expression(), b, body, ")" + rest)
    ensures Alternatives(Inner("(lambda " + v))[6]("(lambda " + v) == Ok(Success(rest, Lambda(names, body)))
  {
    var s := "(lambda " + v;
    InnerReadsSeparated(s, b, body, ")" + rest);
    LambdaFormReads(Inner(s), names, v, b, body, rest);
    LambdaIsSeventh(Inner(s));
  }

  /** (lambda (p ...) x ...) is the LAMBDA of the parameter names and of the
      body EXPRESSION reads. */
  lemma ExpressionReadsLambda(names: seq<string>, v: string, b: string, body: seq<Expr>, rest: string)
    requires Reads(ParameterList(), v, Make(Utilities.Symbols(names)), " " + b)
    requires ReadsSeparated(Expression(), b, body, ")" + rest)
    ensures ParseExpression("(lambda " + v) == Ok(Success(rest, Lambda(names, body)))
  {
    FormOpenings();
    LambdaAlternativeReads(names, v, b, body, rest);
    ExpressionIsSpecialForm(6, "(lambda ", v, Ok(Success(rest, Lambda(names, body))));
  }

  lemma DefinitionAlternativeReads(name: string, t: string, x: Expr, rest: string)
    requires IsName(name) && Reads(Expression(), t, x, ")" + rest)
    ensures var s := "(define " + (name + " " + t);
      Alternatives(Inner(s))[7](s) == Ok(Success(rest, Definition(name, x)))
  {
    var s := "(define " + (name + " " + t);
    InnerReads(s, t, x, ")" + rest);
    DefinitionFormReadsSymbol(Inner(s), name, t, x, rest);
    DefinitionIsEighth(Inner(s));
  }

  /** (define name x) defines the name as the expression EXPRESSION reads. */
  lemma ExpressionReadsDefinition(name: string, t: string, x: Expr, rest: string)
    requires IsName(name) && Reads(Expression(), t, x, ")" + rest)
    ensures ParseExpression("(define " + (name + " " + t)) == Ok(Success(rest, Definition(name, x)))
  {
    FormOpenings();
    DefinitionAlternativeReads(name, t, x, rest);
    ExpressionIsSpecialForm(7, "(define ", name + " " + t, Ok(Success(rest, Definition(name, x))));
  }

  lemma DefinitionShorthandAlternativeReads(f: string, names: seq<string>, w: string, b: string, body: seq<Expr>, rest: string)
    requires ReadsSeparated(Expression(), w, [Symbol(f)] + Utilities.Symbols(names), ") " + b)
    requires ReadsSeparated(Expression(), b, body, ")" + rest)
    ensures var s := "(define " + ("(" + w);
      Alternatives(Inner(s))[7](s) == Ok(Success(rest, Definition(f, Lambda(names, body))))
  {
    var s := "(define " + ("(" + w);
    ReadsSeparatedShortens(Expression(), w, [Symbol(f)] + Utilities.Symbols(names), ") " + b);
    InnerReadsSeparated(s, w, [Symbol(f)] + Utilities.Symbols(names), ") " + b);
    InnerReadsSeparated(s, b, body, ")" + rest);
    DefinitionFormReadsShorthand(Inner(s), f, names, w, b, body, rest);
    DefinitionIsEighth(Inner(s));
  }

  /** (define (f p ...) x ...) defines f as (lambda (p ...) x ...). */
  lemma ExpressionReadsDefinitionShorthand(f: string, names: seq<string>, w: string, b: string, body: seq<Expr>, rest: string)
    requires ReadsSeparated(Expression(), w, [Symbol(f)] + Utilities.Symbols(names), ") " + b)
    requires ReadsSeparated(Expression(), b, body, ")" + rest)
    ensures ParseExpression("(define " + ("(" + w)) == Ok(Success(rest, Definition(f, Lambda(names, body))))
  {
    FormOpenings();
    DefinitionShorthandAlternativeReads(f, names, w, b, body, rest);
    ExpressionIsSpecialForm(7, "(define ", "(" + w, Ok(Success(rest, Definition(f, Lambda(names, body)))));
  }

  lemma AssignmentAlternativeReads(name: string, t: string, x: Expr, rest: string)
    requires IsName(name) && Reads(Expression(), t, x, ")" + rest)
    ensures var s := "(set! " + (name + " " + t);
      Alternatives(Inner(s))[8](s) == Ok(Success(rest, Assignment(name, x)))
  {
    var s := "(set! " + (name + " " + t);
    InnerReads(s, t, x, ")" + rest);
    AssignmentFormReads(Inner(s), name, t, x, rest);
    AssignmentIsNinth(Inner(s));
  }

  /** (set! name x) assigns the expression EXPRESSION reads to the name. */
  lemma ExpressionReadsAssignment(name: string, t: string, x: Expr, rest: string)
    requires IsName(name) && Reads(Expression(), t, x, ")" + rest)
    ensures ParseExpression("(set! " + (name + " " + t)) == Ok(Success(rest, Assignment(name, x)))
  {
    FormOpenings();
    AssignmentAlternativeReads(name, t, x, rest);
    ExpressionIsSpecialForm(8, "(set! ", name + " " + t, Ok(Success(rest, Assignment(name, x))));
  }

  lemma IfAlternativeReads(t1: string, t2: string, t3: string, p: Expr, c: Expr, a: Expr, rest: string)
    requires Reads(Expression(), t1, p, " " + t2) && Reads(Expression(), t2, c, " " + t3) && Reads(Expression(), t3, a, ")" + rest)
    ensures Alternatives(Inner("(if " + t1))[9]("(if " + t1) == Ok(Success(rest, If(p, c, a)))
  {
    var s := "(if " + t1;
    InnerReads(s, t1, p, " " + t2);
    InnerReads(s, t2, c, " " + t3);
    InnerReads(s, t3, a, ")" + rest);
    IfFormReads(Inner(s), t1, t2, t3, p, c, a, rest);
    IfIsTenth(Inner(s));
  }

  /** (if p c a) is the IF of the three expressions EXPRESSION reads. */
  lemma ExpressionReadsIf(t1: string, t2: string, t3: string, p: Expr, c: Expr, a: Expr, rest: string)
    requires Reads(Expression(), t1, p, " " + t2) && Reads(Expression(), t2, c, " " + t3) && Reads(Expression(), t3, a, ")" + rest)
    ensures ParseExpression("(if " + t1) == Ok(Success(rest, If(p, c, a)))
  {
    FormOpenings();
    IfAlternativeReads(t1, t2, t3, p, c, a, rest);
    ExpressionIsSpecialForm(9, "(if ", t1, Ok(Success(rest, If(p, c, a))));
  }

  lemma BeginAlternativeReads(t: string, xs: seq<Expr>, rest: string)
    requires ReadsSeparated(Expression(), t, xs, ")" + rest)
    ensures Alternatives(Inner("(begin " + t))[10]("(begin " + t) == Ok(Success(rest, Begin(xs)))
  {
    var s := "(begin " + t;
    InnerReadsSeparated(s, t, xs, ")" + rest);
    BeginFormReads(Inner(s), t, xs, rest);
    BeginIsEleventh(Inner(s));
  }

  /** (begin x ...) is the BEGIN of the expressions EXPRESSION reads, in order. */
  lemma ExpressionReadsBegin(t: string, xs: seq<Expr>, rest: string)
    requires ReadsSeparated(Expression(), t, xs, ")" + rest)
    ensures ParseExpression("(begin " + t) == Ok(Success(rest, Begin(xs)))
  {
    FormOpenings();
    BeginAlternativeReads(t, xs, rest);
    ExpressionIsSpecialForm(10, "(begin ", t, Ok(Success(rest, Begin(xs))));
  }

  lemma CombinationAlternativeReads(t: string, xs: seq<Expr>, rest: string)
    requires ReadsSeparated(Expression(), t, xs, ")" + rest)
    ensures Alternatives(Inner("(" + t))[11]("(" + t) == Ok(Success(rest, Make(xs)))
  {
    var s := "(" + t;
    ReadsSeparatedShortens(Expression(), t, xs, ")" + rest);
    InnerReadsSeparated(s, t, xs, ")" + rest);
    CombinationFormReads(Inner(s), t, xs, rest);
    CombinationIsTwelfth(Inner(s));
  }

  /** With no keyword ahead, (x ...) is the combination of the expressions
      EXPRESSION reads, in order. */
  lemma ExpressionReadsCombination(t: string, xs: seq<Expr>, rest: string)
    requires ReadsSeparated(Expression(), t, xs, ")" + rest) && t[0] != ')'
    requires forall j :: 5 <= j <= 10 ==> !KeywordAhead(t, FormKeyword(j))
    ensures ParseExpression("(" + t) == Ok(Success(rest, Make(xs)))
  {
    ReadsSeparatedShortens(Expression(), t, xs, ")" + rest);
    CombinationAlternativeReads(t, xs, rest);
    ParenthesisedAlternativesFail(Inner("(" + t), t, 11);
    ExpressionIsAlternative("(" + t, 11);
  }
}
