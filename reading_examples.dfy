/** The forms of SyntaxTest, read and printed back. Each form is read first
    with any expression parser that reads its operands, then with EXPRESSION
    itself; the expression it gives prints as the text the test expects. */
module ReadingExamples {
  import opened Wrappers
  import opened Results
  import opened Parsers
  import opened Ast
  import opened Syntax
  import opened Reading
  import opened ReadingForms
  import opened ReadingExpressions
  import ReadingAlternatives
  import Characters
  import Strings
  import Utilities

  // ---------------------------------------------------------------- names and numerals

  /** An item at the front of a text starts it, and what follows is shorter. */
  lemma ItemAhead(item: string, rest: string)
    requires |item| > 0 && !Characters.IsWhitespace(item[0])
    ensures StartsItem(item + rest) && |rest| <= |item + rest|
  {
    assert (item + rest)[0] == item[0];
  }

  /** A reply of EXPRESSION on a text that starts an item is a reading. */
  lemma ParsedReads(t: string, x: Expr, rest: string)
    requires ParseExpression(t) == Ok(Success(rest, x)) && StartsItem(t) && |rest| <= |t|
    ensures Reads(Expression(), t, x, rest)
  {
  }

  /** EXPRESSION reads a whole name that does not start with a digit as its symbol. */
  lemma NameParses(name: string, rest: string)
    requires IsName(name) && !Characters.IsDigit(name[0]) && EndsName(rest)
    ensures ParseExpression(name + rest) == Ok(Success(rest, Symbol(name)))
  {
    var s := name + rest;
    Characters.SpanOfRun(IsSymbolCharacter, name, rest);
    assert s[0] == name[0];
    ExpressionReadsSymbol(s);
    assert s[..|name|] == name && s[|name|..] == rest;
  }

  lemma NameReads(name: string, rest: string)
    requires IsName(name) && !Characters.IsDigit(name[0]) && EndsName(rest)
    ensures Reads(Expression(), name + rest, Symbol(name), rest)
  {
    assert !Characters.IsWhitespace(name[0]);
    ItemAhead(name, rest);
    NameParses(name, rest);
    ParsedReads(name + rest, Symbol(name), rest);
  }

  /** A run of digits with neither a digit nor a point after it is no
      fractional literal, and is all of the digit run. */
  lemma NumeralText(digits: string, rest: string)
    requires |digits| > 0 && forall i :: 0 <= i < |digits| ==> Characters.IsDigit(digits[i])
    requires |rest| > 0 ==> !Characters.IsDigit(rest[0]) && rest[0] != '.'
    ensures var s := digits + rest;
      Characters.DigitRun(s) == |digits| && s[..|digits|] == digits && s[|digits|..] == rest && FractionalLength(s) == 0
  {
    var s := digits + rest;
    Characters.SpanOfRun(Characters.IsDigit, digits, rest);
    assert s[..|digits|] == digits && s[|digits|..] == rest;
  }

  lemma NumeralIntegral(digits: string, rest: string)
    requires |digits| > 0 && forall i :: 0 <= i < |digits| ==> Characters.IsDigit(digits[i])
    requires |rest| > 0 ==> !Characters.IsDigit(rest[0]) && rest[0] != '.'
    requires Characters.DigitsValue(digits) < 0x8000_0000_0000_0000
    ensures IntegralLiteral()(digits + rest) == Ok(Success(rest, Integral(Characters.DigitsValue(digits))))
  {
    NumeralText(digits, rest);
    IntegralLiteralReadsDigits(digits + rest);
  }

  /** EXPRESSION reads a run of digits that fits in a long, with no point
      after it, as its integral. */
  lemma NumeralParses(digits: string, rest: string)
    requires |digits| > 0 && forall i :: 0 <= i < |digits| ==> Characters.IsDigit(digits[i])
    requires |rest| > 0 ==> !Characters.IsDigit(rest[0]) && rest[0] != '.'
    requires Characters.DigitsValue(digits) < 0x8000_0000_0000_0000
    ensures ParseExpression(digits + rest) == Ok(Success(rest, Integral(Characters.DigitsValue(digits))))
  {
    NumeralText(digits, rest);
    NumeralIntegral(digits, rest);
    ExpressionReadsIntegral(digits + rest);
  }

  lemma DigitAhead(digits: string, rest: string)
    requires |digits| > 0 && Characters.IsDigit(digits[0])
    ensures StartsItem(digits + rest) && |rest| <= |digits + rest|
  {
    assert (digits + rest)[0] == digits[0];
  }

  lemma NumeralReads(digits: string, rest: string)
    requires |digits| > 0 && forall i :: 0 <= i < |digits| ==> Characters.IsDigit(digits[i])
    requires |rest| > 0 ==> !Characters.IsDigit(rest[0]) && rest[0] != '.'
    requires Characters.DigitsValue(digits) < 0x8000_0000_0000_0000
    ensures Reads(Expression(), digits + rest, Integral(Characters.DigitsValue(digits)), rest)
  {
    var x := Integral(Characters.DigitsValue(digits));
    DigitAhead(digits, rest);
    NumeralParses(digits, rest);
    ParsedReads(digits + rest, x, rest);
  }


  /** The numeral `digits`, of value `n`. */
  lemma NumeralOf(digits: string, n: int, rest: string)
    requires |digits| > 0 && forall i :: 0 <= i < |digits| ==> Characters.IsDigit(digits[i])
    requires |rest| > 0 ==> !Characters.IsDigit(rest[0]) && rest[0] != '.'
    requires Characters.DigitsValue(digits) == n < 0x8000_0000_0000_0000
    ensures Reads(Expression(), digits + rest, Integral(n), rest)
  {
    NumeralReads(digits, rest);
  }

  // ---------------------------------------------------------------- operands

  /** The names of the examples, and what follows each of them. */
  lemma Names()
    ensures IsName("x") && IsName("y") && IsName("identity")
    ensures !Characters.IsDigit("x"[0]) && !Characters.IsDigit("y"[0]) && !Characters.IsDigit("identity"[0])
    ensures EndsName("") && EndsName(")") && EndsName(" y)") && EndsName(") 42)") && EndsName(") x)") && EndsName(" x) x)")
    ensures EndsName(")" + (" " + ("x" + ")")))
  {
  }

  /** The numerals of the examples, their values, and what follows each of them. */
  lemma Numerals()
    ensures forall i :: 0 <= i < |"0"| ==> Characters.IsDigit("0"[i])
    ensures forall i :: 0 <= i < |"1"| ==> Characters.IsDigit("1"[i])
    ensures forall i :: 0 <= i < |"2"| ==> Characters.IsDigit("2"[i])
    ensures forall i :: 0 <= i < |"42"| ==> Characters.IsDigit("42"[i])
    ensures Characters.DigitsValue("0") == 0 && Characters.DigitsValue("1") == 1 && Characters.DigitsValue("2") == 2
    ensures Characters.DigitsValue("42") == 42
    ensures !Characters.IsDigit(")"[0]) && ")"[0] != '.'
    ensures !Characters.IsDigit(" x y)"[0]) && " x y)"[0] != '.'
    ensures !Characters.IsDigit(" 1 2)"[0]) && " 1 2)"[0] != '.'
    ensures !Characters.IsDigit(" 2)"[0]) && " 2)"[0] != '.'
  {
    assert "42"[..1] == "4";
  }

  // ---------------------------------------------------------------- combination

  lemma CombinationOperands()
    ensures Reads(Expression(), "0" + ")", Integral(0), ")")
    ensures Reads(Expression(), "0" + " 1 2)", Integral(0), " 1 2)")
    ensures Reads(Expression(), "1" + " 2)", Integral(1), " 2)")
    ensures Reads(Expression(), "2" + ")", Integral(2), ")")
  {
    Numerals();
    NumeralOf("0", 0, ")");
    NumeralOf("0", 0, " 1 2)");
    NumeralOf("1", 1, " 2)");
    NumeralOf("2", 2, ")");
  }

  lemma CombinationTexts()
    ensures "(0)" == "(" + ("0" + ")") && ")" == ")" + ""
    ensures "(0 1 2)" == "(" + ("0" + " 1 2)") && " 1 2)" == " " + ("1" + " 2)") && " 2)" == " " + ("2" + ")")
    ensures [Integral(0)] + ([Integral(1)] + [Integral(2)]) == [Integral(0), Integral(1), Integral(2)]
  {
  }

  /** (0) reads as the combination of 0. */
  lemma CombinationOfOneReads(e: Parser<Expr>)
    requires Reads(e, "0" + ")", Integral(0), ")")
    ensures CombinationForm(e)("(0)") == Ok(Success("", Make([Integral(0)])))
  {
    CombinationTexts();
    ReadsAlone(e, "0" + ")", Integral(0), ")" + "");
    CombinationFormReads(e, "0" + ")", [Integral(0)], "");
  }

  /** (0 1 2) reads as the combination of 0, 1 and 2, in order. */
  lemma CombinationOfThreeReads(e: Parser<Expr>)
    requires Reads(e, "0" + " 1 2)", Integral(0), " 1 2)") && Reads(e, "1" + " 2)", Integral(1), " 2)")
    requires Reads(e, "2" + ")", Integral(2), ")")
    ensures CombinationForm(e)("(0 1 2)") == Ok(Success("", Make([Integral(0), Integral(1), Integral(2)])))
  {
    CombinationTexts();
    ReadsAlone(e, "2" + ")", Integral(2), ")" + "");
    ReadsThenSeparated(e, "1" + " 2)", Integral(1), "2" + ")", [Integral(2)], ")" + "");
    ReadsThenSeparated(e, "0" + " 1 2)", Integral(0), "1" + " 2)", [Integral(1), Integral(2)], ")" + "");
    CombinationFormReads(e, "0" + " 1 2)", [Integral(0), Integral(1), Integral(2)], "");
  }

  lemma CombinationsPrint()
    ensures Show(Make([Integral(0)])) == "(0)"
    ensures Show(Make([Integral(0), Integral(1), Integral(2)])) == "(0 1 2)"
  {
    var xs := [Integral(0), Integral(1), Integral(2)];
    assert MakeRecursively(xs) == Cell(Integral(0), Cell(Integral(1), Cell(Integral(2), Nil)));
    assert ShowChain(MakeRecursively(xs)) == ["0", "1", "2"];
    assert Strings.Joined(" ", ["0", "1"]) == "0 1";
    assert Strings.Joined(" ", ["0", "1", "2"]) == "0 1 2" by {
      assert ["0", "1", "2"][..2] == ["0", "1"];
    }
  }

  /** COMBINATION reads (0) and (0 1 2) as their combinations, which print as read. */
  lemma CombinationExample()
    ensures CombinationForm(Expression())("(0)") == Ok(Success("", Make([Integral(0)])))
    ensures CombinationForm(Expression())("(0 1 2)") == Ok(Success("", Make([Integral(0), Integral(1), Integral(2)])))
    ensures Show(Make([Integral(0)])) == "(0)" && Show(Make([Integral(0), Integral(1), Integral(2)])) == "(0 1 2)"
  {
    CombinationOperands();
    CombinationOfOneReads(Expression());
    CombinationOfThreeReads(Expression());
    CombinationsPrint();
  }

  // ---------------------------------------------------------------- quote

  lemma QuoteOperands()
    ensures Reads(Expression(), "x" + "", Symbol("x"), "")
    ensures Reads(Expression(), "x" + ")", Symbol("x"), ")")
  {
    Names();
    NameReads("x", "");
    NameReads("x", ")");
  }

  lemma QuoteTexts()
    ensures "'x" == "'" + ("x" + "") && "(quote x)" == "(quote " + ("x" + ")") && ")" == ")" + ""
  {
  }

  /** 'x reads as the quotation of x. */
  lemma QuoteShorthandReads(e: Parser<Expr>)
    requires Reads(e, "x" + "", Symbol("x"), "")
    ensures QuoteForm(e)("'x") == Ok(Success("", Quote(Symbol("x"))))
  {
    QuoteTexts();
    QuoteFormReadsShorthand(e, "x" + "");
  }

  /** (quote x) reads as the quotation of x. */
  lemma QuoteLongReads(e: Parser<Expr>)
    requires Reads(e, "x" + ")", Symbol("x"), ")")
    ensures QuoteForm(e)("(quote x)") == Ok(Success("", Quote(Symbol("x"))))
  {
    QuoteTexts();
    QuoteLongFormReads(e, "x" + ")", Symbol("x"), "");
  }

  lemma QuotePrints()
    ensures Show(Quote(Symbol("x"))) == "x"
  {
  }

  /** QUOTE reads 'x and (quote x) as the same quotation, which prints as x. */
  lemma QuoteExample()
    ensures QuoteForm(Expression())("'x") == Ok(Success("", Quote(Symbol("x"))))
    ensures QuoteForm(Expression())("(quote x)") == Ok(Success("", Quote(Symbol("x"))))
    ensures Show(Quote(Symbol("x"))) == "x"
  {
    QuoteOperands();
    QuoteShorthandReads(Expression());
    QuoteLongReads(Expression());
    QuotePrints();
  }

  // ---------------------------------------------------------------- lambda

  /** The parameter list (x), before the body x. */
  lemma OneParameter()
    ensures Reads(ParameterList(), "(" + ("x" + (")" + (" " + ("x" + ")")))), Make(Utilities.Symbols(["x"])), " " + ("x" + ")"))
  {
    var after := " " + ("x" + ")");
    Names();
    SymbolNameReads("x", ")" + after);
    ReadsAlone(SymbolName(), "x" + (")" + after), Symbol("x"), ")" + after);
    assert Utilities.Symbols(["x"]) == [Symbol("x")];
    ParameterListReads("x" + (")" + after), ["x"], after);
  }

  lemma LambdaTexts()
    ensures "(lambda () 42)" == "(lambda " + ("()" + (" " + ("42" + ")"))) && ")" == ")" + ""
    ensures "(lambda (x) x)" == "(lambda " + ("(" + ("x" + (")" + (" " + ("x" + ")")))))
  {
  }

  /** (lambda () 42) reads as the lambda of no parameters and the body 42. */
  lemma LambdaOfNoneReads(e: Parser<Expr>)
    requires Reads(e, "42" + ")", Integral(42), ")")
    ensures LambdaForm(e)("(lambda () 42)") == Ok(Success("", Lambda([], [Integral(42)])))
  {
    LambdaTexts();
    EmptyParameterListReads(" " + ("42" + ")"));
    ReadsAlone(e, "42" + ")", Integral(42), ")" + "");
    LambdaFormReads(e, [], "()" + (" " + ("42" + ")")), "42" + ")", [Integral(42)], "");
  }

  /** (lambda (x) x) reads as the lambda of x and the body x. */
  lemma LambdaOfOneReads(e: Parser<Expr>)
    requires Reads(e, "x" + ")", Symbol("x"), ")")
    ensures LambdaForm(e)("(lambda (x) x)") == Ok(Success("", Lambda(["x"], [Symbol("x")])))
  {
    LambdaTexts();
    OneParameter();
    ReadsAlone(e, "x" + ")", Symbol("x"), ")" + "");
    LambdaFormReads(e, ["x"], "(" + ("x" + (")" + (" " + ("x" + ")")))), "x" + ")", [Symbol("x")], "");
  }

  lemma LambdasPrint()
    ensures Show(Lambda([], [Integral(42)])) == "(lambda () 42)"
    ensures Show(Lambda(["x"], [Symbol("x")])) == "(lambda (x) x)"
  {
  }

  lemma LambdaOperands()
    ensures Reads(Expression(), "42" + ")", Integral(42), ")")
    ensures Reads(Expression(), "x" + ")", Symbol("x"), ")")
  {
    Names();
    Numerals();
    NumeralOf("42", 42, ")");
    NameReads("x", ")");
  }

  /** LAMBDA reads (lambda () 42) and (lambda (x) x) as their lambdas, which
      print as read. */
  lemma LambdaExample()
    ensures LambdaForm(Expression())("(lambda () 42)") == Ok(Success("", Lambda([], [Integral(42)])))
    ensures LambdaForm(Expression())("(lambda (x) x)") == Ok(Success("", Lambda(["x"], [Symbol("x")])))
    ensures Show(Lambda([], [Integral(42)])) == "(lambda () 42)" && Show(Lambda(["x"], [Symbol("x")])) == "(lambda (x) x)"
  {
    LambdaOperands();
    LambdaOfNoneReads(Expression());
    LambdaOfOneReads(Expression());
    LambdasPrint();
  }

  // ---------------------------------------------------------------- define

  lemma DefinitionOperands()
    ensures Reads(Expression(), "42" + ")", Integral(42), ")")
    ensures Reads(Expression(), "x" + ") 42)", Symbol("x"), ") 42)")
    ensures Reads(Expression(), "identity" + " x) x)", Symbol("identity"), " x) x)")
    ensures Reads(Expression(), "x" + ") x)", Symbol("x"), ") x)")
    ensures Reads(Expression(), "x" + ")", Symbol("x"), ")")
  {
    Names();
    Numerals();
    NumeralOf("42", 42, ")");
    NameReads("x", ") 42)");
    NameReads("identity", " x) x)");
    NameReads("x", ") x)");
    NameReads("x", ")");
  }

  lemma DefinitionTexts()
    ensures "(define x 42)" == "(define " + ("x" + " " + ("42" + ")")) && ")" == ")" + ""
    ensures "(define (x) 42)" == "(define " + ("(" + ("x" + ") 42)")) && ") 42)" == ") " + ("42" + ")")
    ensures "(define (identity x) x)" == "(define " + ("(" + ("identity" + " x) x)"))
    ensures " x) x)" == " " + ("x" + ") x)") && ") x)" == ") " + ("x" + ")")
    ensures [Symbol("x")] + Utilities.Symbols([]) == [Symbol("x")]
    ensures [Symbol("identity")] + Utilities.Symbols(["x"]) == [Symbol("identity")] + [Symbol("x")]
  {
    assert Utilities.Symbols(["x"]) == [Symbol("x")];
  }

  /** (define x 42) reads as the definition of x as 42. */
  lemma DefinitionOfSymbolReads(e: Parser<Expr>)
    requires Reads(e, "42" + ")", Integral(42), ")")
    ensures DefinitionForm(e)("(define x 42)") == Ok(Success("", Definition("x", Integral(42))))
  {
    DefinitionTexts();
    Names();
    DefinitionFormReadsSymbol(e, "x", "42" + ")", Integral(42), "");
  }

  /** (define (x) 42) reads as the definition of x as (lambda () 42). */
  lemma DefinitionOfNoneReads(e: Parser<Expr>)
    requires Reads(e, "x" + ") 42)", Symbol("x"), ") 42)") && Reads(e, "42" + ")", Integral(42), ")")
    ensures DefinitionForm(e)("(define (x) 42)") == Ok(Success("", Definition("x", Lambda([], [Integral(42)]))))
  {
    DefinitionTexts();
    ReadsAlone(e, "x" + ") 42)", Symbol("x"), ") " + ("42" + ")"));
    ReadsAlone(e, "42" + ")", Integral(42), ")" + "");
    DefinitionFormReadsShorthand(e, "x", [], "x" + ") 42)", "42" + ")", [Integral(42)], "");
  }

  /** (define (identity x) x) reads as the definition of identity as (lambda (x) x). */
  lemma DefinitionOfOneReads(e: Parser<Expr>)
    requires Reads(e, "identity" + " x) x)", Symbol("identity"), " x) x)") && Reads(e, "x" + ") x)", Symbol("x"), ") x)")
    requires Reads(e, "x" + ")", Symbol("x"), ")")
    ensures DefinitionForm(e)("(define (identity x) x)") == Ok(Success("", Definition("identity", Lambda(["x"], [Symbol("x")]))))
  {
    DefinitionTexts();
    ReadsAlone(e, "x" + ") x)", Symbol("x"), ") " + ("x" + ")"));
    ReadsThenSeparated(e, "identity" + " x) x)", Symbol("identity"), "x" + ") x)", [Symbol("x")], ") " + ("x" + ")"));
    ReadsAlone(e, "x" + ")", Symbol("x"), ")" + "");
    DefinitionFormReadsShorthand(e, "identity", ["x"], "identity" + " x) x)", "x" + ")", [Symbol("x")], "");
  }

  lemma DefinitionOfSymbolPrints()
    ensures Show(Definition("x", Integral(42))) == "(define x 42)"
  {
  }

  lemma DefinitionOfNonePrints()
    ensures Show(Definition("x", Lambda([], [Integral(42)]))) == "(define x (lambda () 42))"
  {
    assert Show(Lambda([], [Integral(42)])) == "(lambda () 42)";
  }

  lemma DefinitionOfOnePrints()
    ensures Show(Definition("identity", Lambda(["x"], [Symbol("x")]))) == "(define identity (lambda (x) x))"
  {
    assert Show(Lambda(["x"], [Symbol("x")])) == "(lambda (x) x)";
  }

  /** DEFINITION reads (define x 42) as the definition it prints as, and
      (define (x) 42) and (define (identity x) x) as definitions of lambdas,
      which print in the long form. */
  lemma DefinitionExample()
    ensures DefinitionForm(Expression())("(define x 42)") == Ok(Success("", Definition("x", Integral(42))))
    ensures DefinitionForm(Expression())("(define (x) 42)") == Ok(Success("", Definition("x", Lambda([], [Integral(42)]))))
    ensures DefinitionForm(Expression())("(define (identity x) x)") == Ok(Success("", Definition("identity", Lambda(["x"], [Symbol("x")]))))
    ensures Show(Definition("x", Integral(42))) == "(define x 42)"
    ensures Show(Definition("x", Lambda([], [Integral(42)]))) == "(define x (lambda () 42))"
    ensures Show(Definition("identity", Lambda(["x"], [Symbol("x")]))) == "(define identity (lambda (x) x))"
  {
    DefinitionOperands();
    DefinitionOfSymbolReads(Expression());
    DefinitionOfNoneReads(Expression());
    DefinitionOfOneReads(Expression());
    DefinitionOfSymbolPrints();
    DefinitionOfNonePrints();
    DefinitionOfOnePrints();
  }

  // ---------------------------------------------------------------- set!, if and begin

  /** The operands of (set! x 42), (if 42 x y) and (begin 42). */
  lemma FortyTwoOperand()
    ensures Reads(Expression(), "42" + ")", Integral(42), ")")
  {
    Numerals();
    NumeralOf("42", 42, ")");
  }

  lemma IfOperands()
    ensures Reads(Expression(), "42" + " x y)", Integral(42), " x y)")
    ensures Reads(Expression(), "x" + " y)", Symbol("x"), " y)")
    ensures Reads(Expression(), "y" + ")", Symbol("y"), ")")
  {
    Names();
    Numerals();
    NumeralOf("42", 42, " x y)");
    NameReads("x", " y)");
    NameReads("y", ")");
  }

  lemma FormTexts()
    ensures "(set! x 42)" == "(set! " + ("x" + " " + ("42" + ")")) && ")" == ")" + ""
    ensures "(if 42 x y)" == "(if " + ("42" + " x y)")
    ensures " x y)" == " " + ("x" + " y)") && " y)" == " " + ("y" + ")")
    ensures "(begin 42)" == "(begin " + ("42" + ")")
  {
  }

  /** (set! x 42) reads as the assignment of 42 to x. */
  lemma AssignmentReads(e: Parser<Expr>)
    requires Reads(e, "42" + ")", Integral(42), ")")
    ensures AssignmentForm(e)("(set! x 42)") == Ok(Success("", Assignment("x", Integral(42))))
  {
    FormTexts();
    Names();
    AssignmentFormReads(e, "x", "42" + ")", Integral(42), "");
  }

  lemma AssignmentPrints()
    ensures Show(Assignment("x", Integral(42))) == "(set! x 42)"
  {
  }

  /** ASSIGNMENT reads (set! x 42) as its assignment, which prints as read. */
  lemma AssignmentExample()
    ensures AssignmentForm(Expression())("(set! x 42)") == Ok(Success("", Assignment("x", Integral(42))))
    ensures Show(Assignment("x", Integral(42))) == "(set! x 42)"
  {
    FortyTwoOperand();
    AssignmentReads(Expression());
    AssignmentPrints();
  }

  /** (if 42 x y) reads as the if of 42, x and y. */
  lemma IfReads(e: Parser<Expr>)
    requires Reads(e, "42" + " x y)", Integral(42), " x y)") && Reads(e, "x" + " y)", Symbol("x"), " y)")
    requires Reads(e, "y" + ")", Symbol("y"), ")")
    ensures IfForm(e)("(if 42 x y)") == Ok(Success("", If(Integral(42), Symbol("x"), Symbol("y"))))
  {
    FormTexts();
    IfFormReads(e, "42" + " x y)", "x" + " y)", "y" + ")", Integral(42), Symbol("x"), Symbol("y"), "");
  }

  lemma IfPrints()
    ensures Show(If(Integral(42), Symbol("x"), Symbol("y"))) == "(if 42 x y)"
  {
  }

  /** IF reads (if 42 x y) as its if, which prints as read. */
  lemma IfExample()
    ensures IfForm(Expression())("(if 42 x y)") == Ok(Success("", If(Integral(42), Symbol("x"), Symbol("y"))))
    ensures Show(If(Integral(42), Symbol("x"), Symbol("y"))) == "(if 42 x y)"
  {
    IfOperands();
    IfReads(Expression());
    IfPrints();
  }

  /** (begin 42) reads as the begin of 42. */
  lemma BeginReads(e: Parser<Expr>)
    requires Reads(e, "42" + ")", Integral(42), ")")
    ensures BeginForm(e)("(begin 42)") == Ok(Success("", Begin([Integral(42)])))
  {
    FormTexts();
    ReadsAlone(e, "42" + ")", Integral(42), ")" + "");
    BeginFormReads(e, "42" + ")", [Integral(42)], "");
  }

  lemma BeginPrints()
    ensures Show(Begin([Integral(42)])) == "(begin 42)"
  {
  }

  /** BEGIN reads (begin 42) as its begin, which prints as read. */
  lemma BeginExample()
    ensures BeginForm(Expression())("(begin 42)") == Ok(Success("", Begin([Integral(42)])))
    ensures Show(Begin([Integral(42)])) == "(begin 42)"
  {
    FortyTwoOperand();
    BeginReads(Expression());
    BeginPrints();
  }

  // ---------------------------------------------------------------- whole expressions

  /** EXPRESSION reads (if 42 x y) as the if of 42, x and y. */
  lemma IfExpressionExample()
    ensures ParseExpression("(if 42 x y)") == Ok(Success("", If(Integral(42), Symbol("x"), Symbol("y"))))
  {
    IfOperands();
    FormTexts();
    ExpressionReadsIf("42" + " x y)", "x" + " y)", "y" + ")", Integral(42), Symbol("x"), Symbol("y"), "");
  }

  /** EXPRESSION reads 'x and (quote x) as the same quotation of x. */
  lemma QuoteExpressionExample()
    ensures ParseExpression("'x") == ParseExpression("(quote x)") == Ok(Success("", Quote(Symbol("x"))))
  {
    QuoteOperands();
    QuoteTexts();
    ExpressionReadsQuoteMark("x" + "", Symbol("x"), "");
    ExpressionReadsQuote("x" + ")", Symbol("x"), "");
  }

  /** EXPRESSION reads (0 1 2), with no keyword ahead, as the combination of
      0, 1 and 2. */
  lemma CombinationExpressionExample()
    ensures ParseExpression("(0 1 2)") == Ok(Success("", Make([Integral(0), Integral(1), Integral(2)])))
  {
    CombinationOperands();
    CombinationTexts();
    Numerals();
    ReadingAlternatives.NoKeywordAhead("0" + " 1 2)");
    ReadsAlone(Expression(), "2" + ")", Integral(2), ")" + "");
    ReadsThenSeparated(Expression(), "1" + " 2)", Integral(1), "2" + ")", [Integral(2)], ")" + "");
    ReadsThenSeparated(Expression(), "0" + " 1 2)", Integral(0), "1" + " 2)", [Integral(1), Integral(2)], ")" + "");
    ExpressionReadsCombination("0" + " 1 2)", [Integral(0), Integral(1), Integral(2)], "");
  }

  /** EXPRESSION reads (define (identity x) x) as the definition of identity
      as (lambda (x) x). */
  lemma ShorthandExpressionExample()
    ensures ParseExpression("(define (identity x) x)") == Ok(Success("", Definition("identity", Lambda(["x"], [Symbol("x")]))))
  {
    DefinitionOperands();
    DefinitionTexts();
    ReadsAlone(Expression(), "x" + ") x)", Symbol("x"), ") " + ("x" + ")"));
    ReadsThenSeparated(Expression(), "identity" + " x) x)", Symbol("identity"), "x" + ") x)", [Symbol("x")], ") " + ("x" + ")"));
    ReadsAlone(Expression(), "x" + ")", Symbol("x"), ")" + "");
    ExpressionReadsDefinitionShorthand("identity", ["x"], "identity" + " x) x)", "x" + ")", [Symbol("x")], "");
  }
}
