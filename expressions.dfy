/** The expression classes of scheme/expression, folded into one datatype:
    what the parser builds, what the evaluator works on and what it returns. */
module Ast {
  import opened Wrappers
  import Strings
  import Characters

  /** A reference to an environment frame of the evaluator's store; `Empty`
      is Environment.EMPTY. */
  datatype Env = Empty | At(frame: nat)

  /** The native procedures bound in the primitive frame. */
  datatype PrimitiveOp =
    | IsNullOp | ErrorOp | ApplyOp | ConsOp | CarOp | CdrOp | IsPairOp
    | AddOp | SubtractOp | MultiplyOp | DivideOp | DisplayOp | NewlineOp

  datatype Expr =
    | Combo(list: Combination)                          // CombinationExpression; Combo(Nil) is UnitExpression
    | Integral(long: int)                               // IntegralExpression, a 64-bit value
    | Fractional(double: real)                          // FractionalExpression
    | Str(text: string)                                 // StringExpression
    | Symbol(name: string)                              // SymbolExpression
    | Pair(car: Expr, cdr: Expr)                        // the pair built by `cons`
    | Quote(quoted: Expr)                               // QuoteExpression
    | Lambda(params: seq<string>, body: seq<Expr>)      // LambdaExpression
    | Definition(variable: string, value: Expr)         // DefinitionExpression
    | Assignment(variable: string, value: Expr)         // AssignmentExpression
    | If(test: Expr, consequent: Expr, alternative: Expr)    // IfExpression
    | Begin(exprs: seq<Expr>)                           // BeginExpression
    | Cond(clauses: seq<Combination>)                   // CondExpression
    | Let(bindings: seq<Combination>, lets: seq<Expr>)  // LetExpression
    | Primitive(op: PrimitiveOp)                        // a primitive procedure
    | Compound(env: Env, formals: seq<string>, code: seq<Expr>) // CompoundProcedure

  /** A chain of combination cells ending in the unit value. */
  datatype Combination = Nil | Cell(first: Expr, rest: Combination)

  /** UnitExpression.make(): there is one unit value. */
  const UNIT: Expr := Combo(Nil)

  const FALSE: Expr := Symbol("false")

  const TRUE: Expr := Symbol("true")

  // ---------------------------------------------------------------- building and flattening chains

  /** CombinationExpression.makeRecursively. */
  function MakeRecursively(xs: seq<Expr>): Combination
  {
    if |xs| == 0 then Nil else Cell(xs[0], MakeRecursively(xs[1..]))
  }

  /** CombinationExpression.makeIteratively: prepends cells from the last
      element backwards, and builds the same chain. */
  method MakeIteratively(xs: seq<Expr>) returns (c: Combination)
    ensures c == MakeRecursively(xs)
  {
    c := Nil;
    var i := |xs|;
    while i > 0
      invariant 0 <= i <= |xs|
      invariant c == MakeRecursively(xs[i..])
    {
      i := i - 1;
      assert xs[i..][1..] == xs[i + 1..];
      c := Cell(xs[i], c);
    }
  }

  /** CombinationExpression.make. */
  function Make(xs: seq<Expr>): Expr {
    Combo(MakeRecursively(xs))
  }

  /** CombinationExpression.expressions() and UnitExpression.expressions(). */
  function Expressions(c: Combination): seq<Expr>
  {
    match c
    case Nil => []
    case Cell(x, rest) => [x] + Expressions(rest)
  }

  /** Flattening a built chain gives back its elements, in order. */
  lemma {:induction false} ExpressionsOfMake(xs: seq<Expr>)
    ensures Expressions(MakeRecursively(xs)) == xs
    decreases |xs|
  {
    if |xs| > 0 {
      ExpressionsOfMake(xs[1..]);
    }
  }

  /** Building from a chain's elements gives back the chain, so the two are inverse. */
  lemma {:induction false} MakeOfExpressions(c: Combination)
    ensures MakeRecursively(Expressions(c)) == c
  {
    if c.Cell? {
      MakeOfExpressions(c.rest);
      assert ([c.first] + Expressions(c.rest))[1..] == Expressions(c.rest);
    }
  }

  /** The walk of CombinationExpression.expressions(): the head, then each
      further head until the unit value. */
  method CollectExpressions(c: Combination) returns (xs: seq<Expr>)
    ensures xs == Expressions(c)
  {
    xs := [];
    var rest := c;
    while rest != Nil
      invariant xs + Expressions(rest) == Expressions(c)
      decreases rest
    {
      xs := xs + [rest.first];
      rest := rest.rest;
    }
    assert xs + [] == xs;
  }

  /** `car` of a chain: the unit value has none. */
  function Car(c: Combination): (r: Attempt<Expr>)
    ensures r.Ok? <==> c.Cell?
    ensures c.Cell? ==> r.value == Expressions(c)[0]
    ensures c.Nil? ==> r == Thrown("car is not supported")
  {
    if c.Cell? then Ok(c.first) else Thrown("car is not supported")
  }

  /** `cdr` of a chain: the unit value has none. */
  function Cdr(c: Combination): (r: Attempt<Combination>)
    ensures r.Ok? <==> c.Cell?
    ensures c.Cell? ==> Expressions(r.value) == Expressions(c)[1..]
    ensures c.Nil? ==> r == Thrown("cdr is not supported")
  {
    if c.Cell? then Ok(c.rest) else Thrown("cdr is not supported")
  }

  lemma UnitHasNoElements()
    ensures Expressions(UNIT.list) == [] && Make([]) == UNIT
  {
  }

  // ---------------------------------------------------------------- pairs

  /** Pair.car(Expression): the pair with its car replaced and its cdr kept. */
  function WithCar(p: Expr, x: Expr): (r: Expr)
    requires p.Pair?
    ensures r.Pair? && r.car == x && r.cdr == p.cdr
  {
    p.(car := x)
  }

  /** Pair.cdr(Expression): the pair with its cdr replaced and its car kept. */
  function WithCdr(p: Expr, x: Expr): (r: Expr)
    requires p.Pair?
    ensures r.Pair? && r.cdr == x && r.car == p.car
  {
    p.(cdr := x)
  }

  /** The two setters touch different fields, so their order does not matter;
      a second set of the same field wins; setting a field to what it holds
      changes nothing. */
  lemma PairSetters(p: Expr, x: Expr, y: Expr)
    requires p.Pair?
    ensures WithCar(WithCdr(p, y), x) == WithCdr(WithCar(p, x), y) == Pair(x, y)
    ensures WithCar(WithCar(p, y), x) == WithCar(p, x)
    ensures WithCdr(WithCdr(p, x), y) == WithCdr(p, y)
    ensures WithCar(p, p.car) == p && WithCdr(p, p.cdr) == p
  {
  }

  // ---------------------------------------------------------------- printing

  /** Long.toString. */
  function IntegralText(n: int): (s: string)
    ensures |s| > 0
  {
    if n < 0 then "-" + NaturalText(-n) else NaturalText(n)
  }

  function NaturalText(n: nat): (s: string)
    ensures |s| > 0
    ensures forall i :: 0 <= i < |s| ==> '0' <= s[i] <= '9'
    ensures n >= 10 ==> s[0] != '0'
  {
    if n < 10 then [DigitChar(n)] else NaturalText(n / 10) + [DigitChar(n % 10)]
  }

  /** The text of a long is its decimal numeral: digits with no leading zero
      whose value is the number, after a minus sign when it is negative. */
  lemma IntegralTextIsDecimal(n: int)
    ensures var s := IntegralText(n); var digits := if n < 0 then s[1..] else s;
      (n < 0 <==> s[0] == '-') &&
      |digits| > 0 &&
      (forall i :: 0 <= i < |digits| ==> Characters.IsDigit(digits[i])) &&
      Characters.DigitsValue(digits) == (if n < 0 then -n else n) &&
      (digits[0] == '0' ==> digits == "0")
  {
    var m := if n < 0 then -n else n;
    NaturalTextValue(m);
    assert n < 0 ==> IntegralText(n)[1..] == NaturalText(m);
  }

  lemma {:induction false} NaturalTextValue(n: nat)
    ensures Characters.DigitsValue(NaturalText(n)) == n
    ensures NaturalText(n)[0] == '0' ==> NaturalText(n) == "0"
  {
    if n >= 10 {
      NaturalTextValue(n / 10);
      var s := NaturalText(n);
      assert s[..|s| - 1] == NaturalText(n / 10);
    }
  }

  function DigitChar(d: nat): (c: char)
    requires d < 10
    ensures '0' <= c <= '9' && c as int - '0' as int == d
  {
    (d + '0' as int) as char
  }

  /** The text of an expression, as its toString prints it. */
  function Show(e: Expr): string
    decreases e, 1
  {
    match e
    case Combo(c) => ShowCombination(c)
    case Integral(n) => IntegralText(n)
    case Fractional(_) => "#fractional"
    case Str(t) => "\"" + t + "\""
    case Symbol(n) => n
    case Pair(a, d) => "(" + Show(a) + " . " + Show(d) + ")"
    case Quote(q) => Show(q)
    case Lambda(ps, body) => "(lambda (" + Strings.Joined(" ", ps) + ") " + Strings.Joined(" ", ShowAll(body)) + ")"
    case Definition(v, x) => "(define " + v + " " + Show(x) + ")"
    case Assignment(v, x) => "(set! " + v + " " + Show(x) + ")"
    case If(p, c, a) => "(if " + Show(p) + " " + Show(c) + " " + Show(a) + ")"
    case Begin(es) => "(begin " + Strings.Joined(" ", ShowAll(es)) + ")"
    case Cond(cs) => "(cond " + Strings.Joined(" ", ShowCombinations(cs)) + ")"
    case Let(bs, body) => "(let (" + Strings.Joined(" ", ShowCombinations(bs)) + ") " + Strings.Joined(" ", ShowAll(body)) + ")"
    case Primitive(_) => "#procedure"
    case Compound(_, _, _) => "#procedure"
  }

  /** A chain prints as its elements between parentheses, the unit value as "()". */
  function ShowCombination(c: Combination): string
    decreases c, 2
  {
    if c.Nil? then "()" else "(" + Strings.Joined(" ", ShowChain(c)) + ")"
  }

  function ShowChain(c: Combination): (ts: seq<string>)
    ensures |ts| == |Expressions(c)|
    decreases c, 1
  {
    match c
    case Nil => []
    case Cell(x, rest) => [Show(x)] + ShowChain(rest)
  }

  function ShowAll(es: seq<Expr>): (ts: seq<string>)
    ensures |ts| == |es|
    decreases es, 0
  {
    if |es| == 0 then [] else [Show(es[0])] + ShowAll(es[1..])
  }

  function ShowCombinations(cs: seq<Combination>): (ts: seq<string>)
    ensures |ts| == |cs|
    decreases cs, 0
  {
    if |cs| == 0 then [] else [ShowCombination(cs[0])] + ShowCombinations(cs[1..])
  }

  /** Each element of a printed list is the printed element. */
  lemma {:induction false} ShowAllPointwise(es: seq<Expr>)
    ensures forall i :: 0 <= i < |es| ==> ShowAll(es)[i] == Show(es[i])
    decreases |es|
  {
    if |es| > 0 {
      ShowAllPointwise(es[1..]);
    }
  }

  /** Printing a chain prints each of its elements in turn. */
  lemma {:induction false} ShowChainIsShowAll(c: Combination)
    ensures ShowChain(c) == ShowAll(Expressions(c))
  {
    if c.Cell? {
      ShowChainIsShowAll(c.rest);
      assert ([c.first] + Expressions(c.rest))[1..] == Expressions(c.rest);
    }
  }

  // ---------------------------------------------------------------- symbols

  /** SymbolExpression.equals: same class and same name. */
  predicate SymbolEquals(a: Expr, b: Expr) {
    a.Symbol? && b.Symbol? && a.name == b.name
  }

  /** Two's complement wrap-around to 32 bits. */
  function Wrap32(x: int): (r: int)
    ensures -0x8000_0000 <= r < 0x8000_0000
    ensures (r - x) % 0x1_0000_0000 == 0
  {
    (x + 0x8000_0000) % 0x1_0000_0000 - 0x8000_0000
  }

  /** String.hashCode: h = 31 * h + c over the characters, in 32-bit arithmetic. */
  function StringHash(s: string): int
  {
    if |s| == 0 then 0 else Wrap32(31 * StringHash(s[..|s| - 1]) + s[|s| - 1] as int)
  }

  /** SymbolExpression.hashCode: Objects.hash of the name. */
  function SymbolHash(name: string): int {
    Wrap32(31 + StringHash(name))
  }

  /** Symbols are equal exactly when their names are, and equal symbols hash alike. */
  lemma SymbolIdentity(a: string, b: string)
    ensures SymbolEquals(Symbol(a), Symbol(b)) <==> a == b
    ensures SymbolEquals(Symbol(a), Symbol(b)) ==> SymbolHash(a) == SymbolHash(b)
    ensures Symbol(a).name == a && Show(Symbol(a)) == a
  {
  }

  /** A symbol is never equal to another kind of expression, even one with the same text. */
  lemma SymbolNotString(name: string)
    ensures !SymbolEquals(Symbol(name), Str(name))
  {
  }
}
