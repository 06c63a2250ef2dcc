/** Utilities.java: kind tests, checked casts and the builders the grammar
    uses to turn parsed pieces into expressions. */
module Utilities {
  import opened Wrappers
  import opened Ast
  import Characters

  const OUT_OF_BOUNDS := "IndexOutOfBoundsException"

  // ---------------------------------------------------------------- kind tests

  /** Only the false symbol is false: 0, "" and () are all true. */
  predicate IsFalse(e: Expr) {
    SymbolEquals(FALSE, e)
  }

  predicate IsTrue(e: Expr) {
    !IsFalse(e)
  }

  predicate IsNull(e: Expr) {
    e == UNIT
  }

  predicate IsList(e: Expr) {
    e.Combo?
  }

  /** Every combination, the unit value included, is a pair, and so is a cons cell. */
  predicate IsPair(e: Expr) {
    e.Combo? || e.Pair?
  }

  predicate IsNumber(e: Expr) {
    e.Integral? || e.Fractional?
  }

  predicate IsString(e: Expr) {
    e.Str?
  }

  predicate IsSymbol(e: Expr) {
    e.Symbol?
  }

  predicate IsProcedure(e: Expr) {
    e.Primitive? || e.Compound?
  }

  lemma Truthiness()
    ensures IsFalse(FALSE) && IsTrue(TRUE)
    ensures IsTrue(Integral(0)) && IsTrue(Str("")) && IsTrue(UNIT) && IsTrue(Str("false"))
    ensures IsNull(UNIT) && !IsNull(Integral(0)) && !IsNull(FALSE)
    ensures IsPair(UNIT) && IsList(UNIT) && IsPair(Pair(UNIT, UNIT)) && !IsList(Pair(UNIT, UNIT))
  {
  }

  // ---------------------------------------------------------------- checked casts

  function AsSymbol(e: Expr): (r: Attempt<string>)
    ensures r.Ok? <==> IsSymbol(e)
    ensures r.Ok? ==> Symbol(r.value) == e
    ensures r.Thrown? ==> r.message == "Not a symbol: " + Show(e)
  {
    if e.Symbol? then Ok(e.name) else Thrown("Not a symbol: " + Show(e))
  }

  function AsPair(e: Expr): (r: Attempt<Expr>)
    ensures r.Ok? <==> IsPair(e)
    ensures r.Ok? ==> r.value == e
    ensures r.Thrown? ==> r.message == "Not a pair: " + Show(e)
  {
    if IsPair(e) then Ok(e) else Thrown("Not a pair: " + Show(e))
  }

  function AsCombination(e: Expr): (r: Attempt<Combination>)
    ensures r.Ok? <==> IsList(e)
    ensures r.Ok? ==> Combo(r.value) == e
    ensures r.Thrown? ==> r.message == "Not a combination: " + Show(e)
  {
    if e.Combo? then Ok(e.list) else Thrown("Not a combination: " + Show(e))
  }

  function AsProcedure(e: Expr): (r: Attempt<Expr>)
    ensures r.Ok? <==> IsProcedure(e)
    ensures r.Ok? ==> r.value == e
    ensures r.Thrown? ==> r.message == "Not a procedure: " + Show(e)
  {
    if IsProcedure(e) then Ok(e) else Thrown("Not a procedure: " + Show(e))
  }

  /** Utilities.mapAsSymbol: the names of a list of symbols, or the failure
      of the first element that is not one. */
  function AsSymbols(es: seq<Expr>): Attempt<seq<string>>
  {
    if |es| == 0 then Ok([])
    else match AsSymbol(es[0])
      case Thrown(m) => Thrown(m)
      case Ok(n) =>
        match AsSymbols(es[1..])
        case Thrown(m) => Thrown(m)
        case Ok(ns) => Ok([n] + ns)
  }

  /** A list of symbols casts to their names, one for one. */
  lemma {:induction false} AsSymbolsOfSymbols(es: seq<Expr>)
    requires forall i :: 0 <= i < |es| ==> es[i].Symbol?
    ensures AsSymbols(es).Ok? && |AsSymbols(es).value| == |es|
    ensures forall i :: 0 <= i < |es| ==> AsSymbols(es).value[i] == es[i].name
    decreases |es|
  {
    if |es| > 0 {
      AsSymbolsOfSymbols(es[1..]);
    }
  }

  /** The cast fails with the message of the first element that is not a symbol. */
  lemma {:induction false} AsSymbolsFailsAtFirst(es: seq<Expr>, k: nat)
    requires k < |es| && !es[k].Symbol?
    requires forall i :: 0 <= i < k ==> es[i].Symbol?
    ensures AsSymbols(es) == Thrown("Not a symbol: " + Show(es[k]))
    decreases k
  {
    if k > 0 {
      AsSymbolsFailsAtFirst(es[1..], k - 1);
    }
  }

  /** The loop of Utilities.mapAsSymbol. */
  method MapAsSymbol(es: seq<Expr>) returns (r: Attempt<seq<string>>)
    ensures r == AsSymbols(es)
  {
    var names: seq<string> := [];
    var i := 0;
    while i < |es|
      invariant 0 <= i <= |es|
      invariant forall j :: 0 <= j < i ==> es[j].Symbol?
      invariant |names| == i && forall j :: 0 <= j < i ==> names[j] == es[j].name
    {
      var name := AsSymbol(es[i]);
      if name.Thrown? {
        AsSymbolsFailsAtFirst(es, i);
        return Thrown(name.message);
      }
      names := names + [name.value];
      i := i + 1;
    }
    AsSymbolsOfSymbols(es);
    assert names == AsSymbols(es).value;
    return Ok(names);
  }

  /** Utilities.mapAsCombination. */
  function AsCombinations(es: seq<Expr>): Attempt<seq<Combination>>
  {
    if |es| == 0 then Ok([])
    else match AsCombination(es[0])
      case Thrown(m) => Thrown(m)
      case Ok(c) =>
        match AsCombinations(es[1..])
        case Thrown(m) => Thrown(m)
        case Ok(cs) => Ok([c] + cs)
  }

  /** The cast succeeds exactly on a list of combinations, and then keeps each one. */
  lemma {:induction false} AsCombinationsOkIff(es: seq<Expr>)
    ensures AsCombinations(es).Ok? <==> forall i :: 0 <= i < |es| ==> es[i].Combo?
    ensures AsCombinations(es).Ok? ==> |AsCombinations(es).value| == |es|
    ensures AsCombinations(es).Ok? ==> forall i :: 0 <= i < |es| ==> AsCombinations(es).value[i] == es[i].list
    decreases |es|
  {
    if |es| > 0 {
      AsCombinationsOkIff(es[1..]);
      assert forall i :: 1 <= i < |es| ==> es[1..][i - 1] == es[i];
    }
  }

  lemma {:induction false} AsCombinationsFailsAtFirst(es: seq<Expr>, k: nat)
    requires k < |es| && !es[k].Combo?
    requires forall i :: 0 <= i < k ==> es[i].Combo?
    ensures AsCombinations(es) == Thrown("Not a combination: " + Show(es[k]))
    decreases k
  {
    if k > 0 {
      AsCombinationsFailsAtFirst(es[1..], k - 1);
    }
  }

  /** The loop of Utilities.mapAsCombination. */
  method MapAsCombination(es: seq<Expr>) returns (r: Attempt<seq<Combination>>)
    ensures r == AsCombinations(es)
  {
    var cs: seq<Combination> := [];
    var i := 0;
    while i < |es|
      invariant 0 <= i <= |es|
      invariant forall j :: 0 <= j < i ==> es[j].Combo?
      invariant |cs| == i && forall j :: 0 <= j < i ==> cs[j] == es[j].list
    {
      var c := AsCombination(es[i]);
      if c.Thrown? {
        AsCombinationsFailsAtFirst(es, i);
        return Thrown(c.message);
      }
      cs := cs + [c.value];
      i := i + 1;
    }
    AsCombinationsOkIff(es);
    assert cs == AsCombinations(es).value;
    return Ok(cs);
  }

  // ---------------------------------------------------------------- builders

  /** The builders the grammar maps its texts with. */
  function MakeUnit(text: string): Expr {
    UNIT
  }

  function MakeString(text: string): Expr {
    Str(text)
  }

  function MakeSymbol(text: string): Expr {
    Symbol(text)
  }

  /** Long.valueOf on the digit runs the grammar gives it: the value, unless
      it does not fit in 64 bits. (Signs, which Long.valueOf also accepts,
      never reach it.) */
  function MakeIntegral(text: string): (r: Attempt<Expr>)
    ensures r.Ok? <==> 0 < |text| && Characters.DigitRun(text) == |text| && Characters.DigitsValue(text) < 0x8000_0000_0000_0000
    ensures r.Ok? ==> r.value == Integral(Characters.DigitsValue(text))
    ensures r.Thrown? ==> r.message == "For input string: \"" + text + "\""
  {
    if 0 < |text| && Characters.DigitRun(text) == |text| && Characters.DigitsValue(text) < 0x8000_0000_0000_0000 then
      Ok(Integral(Characters.DigitsValue(text)))
    else
      Thrown("For input string: \"" + text + "\"")
  }

  /** Double.valueOf on the texts "w.f", "w." and ".f" the grammar gives it:
      the exact decimal value w + f / 10^|f|. */
  function MakeFractional(text: string): (r: Expr)
    ensures r.Fractional?
    ensures r.double == Characters.DigitsValue(text[..Characters.DigitRun(text)]) as real + FractionValue(text[Characters.DigitRun(text)..])
  {
    var w := Characters.DigitRun(text);
    Fractional(Characters.DigitsValue(text[..w]) as real + FractionValue(text[w..]))
  }

  /** The value of ".f", or 0 when there is no point. */
  function FractionValue(rest: string): real
  {
    if |rest| > 0 && rest[0] == '.' then
      var f := Characters.DigitRun(rest[1..]);
      Characters.DigitsValue(rest[1..][..f]) as real / Power10(f) as real
    else 0.0
  }

  function Power10(n: nat): (p: nat)
    ensures p >= 1
  {
    if n == 0 then 1 else 10 * Power10(n - 1)
  }

  function MakeQuote(e: Expr): Expr {
    Quote(e)
  }

  /** Utilities.makeQuoteCombination: the two-element list (quote e), the
      long form of a quotation as a plain combination. */
  function MakeQuoteCombination(e: Expr): (r: Expr)
    ensures r.Combo? && Expressions(r.list) == [Symbol("quote"), e]
  {
    ExpressionsOfMake([Symbol("quote"), e]);
    Make([Symbol("quote"), e])
  }

  /** Utilities.makeLambda: a combination of parameter symbols and a
      combination of body expressions. */
  function MakeLambda(xs: seq<Expr>): (r: Attempt<Expr>)
    ensures r.Ok? <==> |xs| >= 2 && xs[0].Combo? && xs[1].Combo? && AsSymbols(Expressions(xs[0].list)).Ok?
    ensures r.Ok? ==> r.value == Lambda(AsSymbols(Expressions(xs[0].list)).value, Expressions(xs[1].list))
  {
    if |xs| == 0 then Thrown(OUT_OF_BOUNDS)
    else match AsCombination(xs[0])
      case Thrown(m) => Thrown(m)
      case Ok(ps) =>
        match AsSymbols(Expressions(ps))
        case Thrown(m) => Thrown(m)
        case Ok(names) =>
          if |xs| == 1 then Thrown(OUT_OF_BOUNDS)
          else match AsCombination(xs[1])
            case Thrown(m) => Thrown(m)
            case Ok(body) => Ok(Lambda(names, Expressions(body)))
  }

  /** Utilities.makeDefinition: a symbol target defines it as the value; a
      combination target (name parameters...) defines the name as a lambda
      over the parameters with the rest as its body; nothing else is allowed. */
  function MakeDefinition(xs: seq<Expr>): Attempt<Expr>
  {
    if |xs| == 0 then Thrown(OUT_OF_BOUNDS)
    else if xs[0].Symbol? then
      if |xs| == 1 then Thrown(OUT_OF_BOUNDS) else Ok(Definition(xs[0].name, xs[1]))
    else if xs[0].Combo? then
      var target := Expressions(xs[0].list);
      if |target| == 0 then Thrown(OUT_OF_BOUNDS)
      else match AsSymbol(target[0])
        case Thrown(m) => Thrown(m)
        case Ok(name) =>
          match AsSymbols(target[1..])
          case Thrown(m) => Thrown(m)
          case Ok(params) =>
            if |xs| == 1 then Thrown(OUT_OF_BOUNDS)
            else match AsCombination(xs[1])
              case Thrown(m) => Thrown(m)
              case Ok(body) => Ok(Definition(name, Lambda(params, Expressions(body))))
    else Thrown("Malformed definition")
  }

  /** (define x e) is a plain definition. */
  lemma MakeDefinitionOfSymbol(name: string, value: Expr)
    ensures MakeDefinition([Symbol(name), value]) == Ok(Definition(name, value))
  {
  }

  /** (define (f p...) body...) is the definition of f as (lambda (p...) body...). */
  lemma MakeDefinitionShorthand(f: string, params: seq<string>, body: seq<Expr>)
    ensures MakeDefinition([Make([Symbol(f)] + Symbols(params)), Make(body)]) == Ok(Definition(f, Lambda(params, body)))
  {
    var target := [Symbol(f)] + Symbols(params);
    ExpressionsOfMake(target);
    ExpressionsOfMake(body);
    assert target[1..] == Symbols(params);
    AsSymbolsOfSymbols(Symbols(params));
    assert AsSymbols(Symbols(params)).value == params;
  }

  /** A lambda built from a parameter list of symbols and a body. */
  lemma MakeLambdaOfSymbols(params: seq<string>, body: seq<Expr>)
    ensures MakeLambda([Make(Symbols(params)), Make(body)]) == Ok(Lambda(params, body))
  {
    ExpressionsOfMake(Symbols(params));
    ExpressionsOfMake(body);
    AsSymbolsOfSymbols(Symbols(params));
    assert AsSymbols(Symbols(params)).value == params;
  }

  /** A target that is neither a symbol nor a combination is malformed. */
  lemma MakeDefinitionMalformed(target: Expr, value: Expr)
    requires !target.Symbol? && !target.Combo?
    ensures MakeDefinition([target, value]) == Thrown("Malformed definition")
  {
  }

  /** Symbols with the given names. */
  function Symbols(names: seq<string>): (es: seq<Expr>)
    ensures |es| == |names| && forall i :: 0 <= i < |names| ==> es[i] == Symbol(names[i])
  {
    if |names| == 0 then [] else [Symbol(names[0])] + Symbols(names[1..])
  }

  /** A lambda whose parameter list holds a non-symbol is refused. */
  lemma MakeLambdaNeedsSymbols(params: seq<Expr>, body: seq<Expr>, k: nat)
    requires k < |params| && !params[k].Symbol? && forall i :: 0 <= i < k ==> params[i].Symbol?
    ensures MakeLambda([Make(params), Make(body)]) == Thrown("Not a symbol: " + Show(params[k]))
  {
    ExpressionsOfMake(params);
    AsSymbolsFailsAtFirst(params, k);
  }

  function MakeAssignment(xs: seq<Expr>): (r: Attempt<Expr>)
    ensures r.Ok? <==> |xs| >= 2 && xs[0].Symbol?
    ensures r.Ok? ==> r.value == Assignment(xs[0].name, xs[1])
  {
    if |xs| == 0 then Thrown(OUT_OF_BOUNDS)
    else match AsSymbol(xs[0])
      case Thrown(m) => Thrown(m)
      case Ok(name) => if |xs| == 1 then Thrown(OUT_OF_BOUNDS) else Ok(Assignment(name, xs[1]))
  }

  function MakeBegin(xs: seq<Expr>): Expr {
    Begin(xs)
  }

  /** Utilities.makeIf: the first three elements, whatever follows them. */
  function MakeIf(xs: seq<Expr>): (r: Attempt<Expr>)
    ensures r.Ok? <==> |xs| >= 3
    ensures r.Ok? ==> r.value == If(xs[0], xs[1], xs[2])
  {
    if |xs| < 3 then Thrown(OUT_OF_BOUNDS) else Ok(If(xs[0], xs[1], xs[2]))
  }

  /** Utilities.makeCond: every clause must be a combination. */
  function MakeCond(xs: seq<Expr>): (r: Attempt<Expr>)
    ensures r.Ok? <==> forall i :: 0 <= i < |xs| ==> xs[i].Combo?
    ensures r.Ok? ==> r.value.Cond? && |r.value.clauses| == |xs|
    ensures r.Ok? ==> forall i :: 0 <= i < |xs| ==> Combo(r.value.clauses[i]) == xs[i]
  {
    AsCombinationsOkIff(xs);
    match AsCombinations(xs)
    case Thrown(m) => Thrown(m)
    case Ok(cs) => Ok(Cond(cs))
  }

  /** Utilities.makeLet: a combination of binding combinations and a
      combination of body expressions. */
  function MakeLet(xs: seq<Expr>): (r: Attempt<Expr>)
    ensures r.Ok? <==>
      (|xs| >= 2 && xs[0].Combo? && xs[1].Combo? &&
       forall i :: 0 <= i < |Expressions(xs[0].list)| ==> Expressions(xs[0].list)[i].Combo?)
    ensures r.Ok? ==> r.value.Let? && |r.value.bindings| == |Expressions(xs[0].list)| && r.value.lets == Expressions(xs[1].list)
    ensures r.Ok? ==> forall i :: 0 <= i < |r.value.bindings| ==> r.value.bindings[i] == Expressions(xs[0].list)[i].list
  {
    if |xs| == 0 then Thrown(OUT_OF_BOUNDS)
    else match AsCombination(xs[0])
      case Thrown(m) => Thrown(m)
      case Ok(bs) =>
        assert bs == xs[0].list;
        AsCombinationsOkIff(Expressions(bs));
        match AsCombinations(Expressions(bs))
        case Thrown(m) =>
          assert !forall i :: 0 <= i < |Expressions(xs[0].list)| ==> Expressions(xs[0].list)[i].Combo?;
          Thrown(m)
        case Ok(bindings) =>
          if |xs| == 1 then Thrown(OUT_OF_BOUNDS)
          else match AsCombination(xs[1])
            case Thrown(m) => Thrown(m)
            case Ok(body) => Ok(Let(bindings, Expressions(body)))
  }

}
