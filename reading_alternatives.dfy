/** Which alternative of EXPRESSION reads a text in parentheses: the
    literals, the symbol and UNIT fail there, and so does every special form
    whose keyword is not ahead. */
module ReadingAlternatives {
  import opened Wrappers
  import opened Results
  import opened Parsers
  import opened Ast
  import opened Syntax
  import opened Reading
  import opened ReadingForms
  import Utilities
  import Characters
  import Strings

  // ---------------------------------------------------------------- the alternatives that fail

  /** The keyword of the special form that is alternative `k` of EXPRESSION. */
  function FormKeyword(k: nat): string
    requires 5 <= k <= 10
  {
    match k
    case 5 => "quote"
    case 6 => "lambda"
    case 7 => "define"
    case 8 => "set!"
    case 9 => "if"
    case _ => "begin"
  }

  /** A keyword form whose keyword is not ahead fails. */
  lemma KeywordFormFails<X, F>(form: Parser<F>, f: X -> Attempt<F>, keyword: string, operands: Parser<X>, u: string)
    requires form == AsOrThrow(f, Form(Keyword(keyword, operands)))
    requires StartsItem(u) && !KeywordAhead(u, keyword)
    ensures Fails(form("(" + u))
  {
    KeywordFails(keyword, operands, u);
    FormFails(Keyword(keyword, operands), u);
    AsOrThrowMapsValue(f, Form(Keyword(keyword, operands)), "(" + u);
  }

  lemma KeywordFormFailsAs<X, F>(form: Parser<F>, f: X -> F, keyword: string, operands: Parser<X>, u: string)
    requires form == As(f, Form(Keyword(keyword, operands)))
    requires StartsItem(u) && !KeywordAhead(u, keyword)
    ensures Fails(form("(" + u))
  {
    KeywordFails(keyword, operands, u);
    FormFails(Keyword(keyword, operands), u);
    AsMapsValue(f, Form(Keyword(keyword, operands)), "(" + u);
  }

  /** The keyword and the expression of (quote x) fail without `quote` ahead. */
  lemma QuotePairFails(expression: Parser<Expr>, u: string)
    requires StartsItem(u) && !KeywordAhead(u, "quote")
    ensures Fails(SeparatedBy(Whitespaces(), [QuoteKeyword(), expression])(u))
  {
    AsMapsValue(Utilities.MakeSymbol, Text("quote"), u);
    if Strings.StartsWith(u, "quote") {
      var v := u[5..];
      assert Text("quote")(u) == Ok(Success(v, "quote"));
      NoSpace(v);
    } else {
      assert Fails(Text("quote")(u));
      SeparatedByFailsFirst(Whitespaces(), [QuoteKeyword(), expression], u);
    }
  }

  /** Without `quote` ahead, QUOTE fails after an opening parenthesis. */
  lemma QuoteFormFails(expression: Parser<Expr>, u: string)
    requires StartsItem(u) && !KeywordAhead(u, "quote")
    ensures Fails(QuoteForm(expression)("(" + u))
  {
    var s := "(" + u;
    var quotes := QuoteAlternatives(expression);
    QuoteIsNoParenthesis(u);
    AfterFailsFirst(Text("'"), expression, s);
    var pair := SeparatedBy(Whitespaces(), [QuoteKeyword(), expression]);
    QuotePairFails(expression, u);
    AsOrThrowMapsValue(Second, pair, u);
    FormFails(AsOrThrow(Second, pair), u);
    assert Fails(quotes[0](s)) && Fails(quotes[1](s));
    AnyOfFailsWhenAllFail(quotes, s);
    AsMapsValue(Utilities.MakeQuote, AnyOf(quotes), s);
  }

  /** Alternative `k`, a special form, fails after an opening parenthesis
      where its keyword is not ahead. */
  lemma SpecialFormFails(expression: Parser<Expr>, u: string, k: nat)
    requires 5 <= k <= 10 && StartsItem(u) && !KeywordAhead(u, FormKeyword(k))
    ensures Fails(Alternatives(expression)[k]("(" + u))
  {
    assert Alternatives(expression)[k] == Alternative(expression, k);
    if k == 5 {
      QuoteFormFails(expression, u);
    } else if k == 6 {
      KeywordFormFails(LambdaForm(expression), Utilities.MakeLambda, "lambda",
        SeparatedBy(Whitespaces(), [ParameterList(), As(Make, OneOrMoreSeparatedBy(Whitespaces(), expression))]), u);
    } else if k == 7 {
      KeywordFormFails(DefinitionForm(expression), Utilities.MakeDefinition, "define", AnyOf(DefinitionAlternatives(expression)), u);
    } else if k == 8 {
      KeywordFormFails(AssignmentForm(expression), Utilities.MakeAssignment, "set!", SeparatedBy(Whitespaces(), [SymbolName(), expression]), u);
    } else if k == 9 {
      KeywordFormFails(IfForm(expression), Utilities.MakeIf, "if", SeparatedBy(Whitespaces(), [expression, expression, expression]), u);
    } else {
      KeywordFormFailsAs(BeginForm(expression), Utilities.MakeBegin, "begin", OneOrMoreSeparatedBy(Whitespaces(), expression), u);
    }
  }

  /** UNIT fails after an opening parenthesis that does not close at once. */
  lemma UnitFailsParenthesised(expression: Parser<Expr>, u: string)
    requires |u| > 0 && u[0] != ')'
    ensures Fails(Alternatives(expression)[4]("(" + u))
  {
    NotUnitText(u);
    UnitLiteralReadsParentheses("(" + u);
    LiteralIsAlternative(expression, 4);
  }

  /** "(" followed by anything but ")" does not start with "()". */
  lemma NotUnitText(u: string)
    requires |u| > 0 && u[0] != ')'
    ensures !Strings.StartsWith("(" + u, "()")
  {
    var s := "(" + u;
    if |s| >= 2 {
      assert s[..2][1] == u[0] != "()"[1];
    }
  }

  /** After an opening parenthesis that does not close at once, neither a
      literal, nor a symbol, nor UNIT is read. */
  lemma FirstFiveFailParenthesised(expression: Parser<Expr>, u: string)
    requires |u| > 0 && u[0] != ')'
    ensures AllFail(Alternatives(expression), 5, "(" + u)
  {
    assert ("(" + u)[0] == '(';
    FirstFourFail(expression, "(" + u);
    UnitFailsParenthesised(expression, u);
  }

  /** After an opening parenthesis that does not close at once, every
      alternative before `k` fails when no keyword of theirs is ahead. */
  lemma {:induction false} ParenthesisedAlternativesFail(expression: Parser<Expr>, u: string, k: nat)
    requires 5 <= k <= 11 && StartsItem(u) && u[0] != ')'
    requires forall j :: 5 <= j < k ==> !KeywordAhead(u, FormKeyword(j))
    ensures AllFail(Alternatives(expression), k, "(" + u)
    decreases k
  {
    if k == 5 {
      FirstFiveFailParenthesised(expression, u);
    } else {
      ParenthesisedAlternativesFail(expression, u, k - 1);
      SpecialFormFails(expression, u, k - 1);
    }
  }

  /** No two special forms open with the same letter, so one keyword ahead
      rules out every other. */
  lemma OneKeywordAhead(k: nat, v: string)
    requires 5 <= k <= 10
    ensures forall j :: 5 <= j <= 10 && j != k ==> !KeywordAhead(FormKeyword(k) + " " + v, FormKeyword(j))
  {
    var u := FormKeyword(k) + " " + v;
    forall j | 5 <= j <= 10 && j != k
      ensures !KeywordAhead(u, FormKeyword(j))
    {
      var keyword := FormKeyword(j);
      assert u[0] == FormKeyword(k)[0] != keyword[0];
      if |keyword| <= |u| {
        assert u[..|keyword|][0] == u[0];
      }
    }
  }

  /** Every keyword opens with a letter, so no keyword is ahead of anything else. */
  lemma NoKeywordAhead(u: string)
    requires |u| > 0 && !Characters.IsLetter(u[0])
    ensures forall j :: 5 <= j <= 10 ==> !KeywordAhead(u, FormKeyword(j))
  {
    forall j | 5 <= j <= 10
      ensures !KeywordAhead(u, FormKeyword(j))
    {
      var keyword := FormKeyword(j);
      assert |keyword| > 0 && Characters.IsLetter(keyword[0]);
      if |keyword| <= |u| {
        assert u[..|keyword|][0] == u[0];
      }
    }
  }

  // ---------------------------------------------------------------- shorter texts

  // The sixth to the twelfth alternatives of EXPRESSION are the compound forms.

  lemma QuoteIsSixth(e: Parser<Expr>)
    ensures Alternatives(e)[5] == QuoteForm(e)
  {
    FormIsAlternative(e, 5);
  }

  lemma LambdaIsSeventh(e: Parser<Expr>)
    ensures Alternatives(e)[6] == LambdaForm(e)
  {
    FormIsAlternative(e, 6);
  }

  lemma DefinitionIsEighth(e: Parser<Expr>)
    ensures Alternatives(e)[7] == DefinitionForm(e)
  {
    FormIsAlternative(e, 7);
  }

  lemma AssignmentIsNinth(e: Parser<Expr>)
    ensures Alternatives(e)[8] == AssignmentForm(e)
  {
    FormIsAlternative(e, 8);
  }

  lemma IfIsTenth(e: Parser<Expr>)
    ensures Alternatives(e)[9] == IfForm(e)
  {
    FormIsAlternative(e, 9);
  }

  lemma BeginIsEleventh(e: Parser<Expr>)
    ensures Alternatives(e)[10] == BeginForm(e)
  {
    FormIsAlternative(e, 10);
  }

  lemma CombinationIsTwelfth(e: Parser<Expr>)
    ensures Alternatives(e)[11] == CombinationForm(e)
  {
    FormIsAlternative(e, 11);
  }

  /** The openings of the special forms, written out. */
  lemma FormOpenings()
    ensures "(quote " == "(" + FormKeyword(5) + " " && "(lambda " == "(" + FormKeyword(6) + " "
    ensures "(define " == "(" + FormKeyword(7) + " " && "(set! " == "(" + FormKeyword(8) + " "
    ensures "(if " == "(" + FormKeyword(9) + " " && "(begin " == "(" + FormKeyword(10) + " "
  {
  }

  /** Inside the reading of `s`, a shorter text reads as EXPRESSION reads it. */
  lemma InnerReads(s: string, t: string, x: Expr, rest: string)
    requires Reads(Expression(), t, x, rest) && |t| < |s|
    ensures Reads(Inner(s), t, x, rest)
  {
  }

  lemma {:induction false} InnerReadsSeparated(s: string, u: string, xs: seq<Expr>, rest: string)
    requires ReadsSeparated(Expression(), u, xs, rest) && |u| < |s|
    ensures ReadsSeparated(Inner(s), u, xs, rest)
    decreases |xs|
  {
    assert Inner(s)(u) == Expression()(u);
    if |xs| > 1 {
      var r := Expression()(u).value.remaining;
      InnerReadsSeparated(s, r[1..], xs[1..], rest);
    }
  }

  // ---------------------------------------------------------------- what EXPRESSION reads

  /** With its keyword ahead, every alternative before a special form fails. */
  lemma SpecialFormIsTried(k: nat, opening: string, v: string)
    requires 5 <= k <= 10 && opening == "(" + FormKeyword(k) + " "
    ensures AllFail(Alternatives(Inner(opening + v)), k, opening + v)
  {
    var u := FormKeyword(k) + " " + v;
    OpeningText(opening, FormKeyword(k), v);
    assert u[0] == FormKeyword(k)[0];
    OneKeywordAhead(k, v);
    ParenthesisedAlternativesFail(Inner(opening + v), u, k);
  }

  /** With its keyword ahead, a special form is tried after every
      alternative before it has failed, so EXPRESSION gives what the form
      gives whenever the form does not fail. */
  lemma ExpressionIsSpecialForm(k: nat, opening: string, v: string, r: Reply<Expr>)
    requires 5 <= k <= 10 && opening == "(" + FormKeyword(k) + " "
    requires Alternatives(Inner(opening + v))[k](opening + v) == r && !Fails(r)
    ensures ParseExpression(opening + v) == r
  {
    SpecialFormIsTried(k, opening, v);
    ExpressionIsAlternative(opening + v, k);
  }
}
