/** The derived forms: `cond` rewritten into nested `if`s
    (CondExpression.java) and `let` rewritten into the application of a
    lambda (LetExpression.java). Both rewrite before they evaluate, so the
    rewriting can fail on its own, before anything is evaluated. */
module Forms {
  import opened Wrappers
  import opened Ast

  const ELSE: Expr := Symbol("else")

  // ---------------------------------------------------------------- cond

  /** CondExpression.isElseClause: the clause's head is the symbol `else`.
      The unit clause has no head, and asking for it throws. */
  function IsElseClause(clause: Combination): (r: Attempt<bool>)
    ensures r.Thrown? <==> clause.Nil?
    ensures r.Thrown? ==> r.message == "car is not supported"
    ensures r.Ok? ==> (r.value <==> clause.first == ELSE)
  {
    match Car(clause)
    case Thrown(m) => Thrown(m)
    case Ok(head) => Ok(SymbolEquals(ELSE, head))
  }

  /** The body of a clause, the expressions after its head, in a `begin`. */
  function Body(clause: Combination): Expr
    requires clause.Cell?
  {
    Begin(Expressions(clause.rest))
  }

  /** CondExpression.expand: no clauses is the false symbol; an `else`
      clause is its body, and the clauses after it are dropped; any other
      clause tests its head, with the expansion of the rest as alternative.
      The rest is expanded before the `if` is built, so a unit clause
      anywhere before the first `else` clause makes the whole expansion fail. */
  function Expand(clauses: seq<Combination>): Attempt<Expr>
    decreases |clauses|
  {
    if |clauses| == 0 then Ok(FALSE)
    else match IsElseClause(clauses[0])
      case Thrown(m) => Thrown(m)
      case Ok(isElse) =>
        if isElse then Ok(Body(clauses[0]))
        else match Expand(clauses[1..])
          case Thrown(m) => Thrown(m)
          case Ok(alternative) => Ok(If(clauses[0].first, Body(clauses[0]), alternative))
  }

  /** The (test, consequent) pairs along the alternatives of nested `if`s. */
  function Branches(e: Expr): seq<(Expr, Expr)>
  {
    if e.If? then [(e.test, e.consequent)] + Branches(e.alternative) else []
  }

  /** What is left at the end of the alternatives. */
  function Otherwise(e: Expr): Expr
  {
    if e.If? then Otherwise(e.alternative) else e
  }

  /** A clause that makes the expansion stop: a unit clause or an `else` clause. */
  predicate Stops(clause: Combination) {
    clause.Nil? || clause.first == ELSE
  }

  /** A unit clause comes before any `else` clause. */
  predicate UnitBeforeElse(clauses: seq<Combination>) {
    exists k :: 0 <= k < |clauses| && clauses[k].Nil? && forall j :: 0 <= j < k ==> !Stops(clauses[j])
  }

  lemma UnitBeforeElseShift(clauses: seq<Combination>)
    requires |clauses| > 0 && !Stops(clauses[0])
    ensures UnitBeforeElse(clauses) <==> UnitBeforeElse(clauses[1..])
  {
    var rest := clauses[1..];
    if UnitBeforeElse(clauses) {
      var k :| 0 <= k < |clauses| && clauses[k].Nil? && forall j :: 0 <= j < k ==> !Stops(clauses[j]);
      assert rest[k - 1].Nil?;
      assert forall j :: 0 <= j < k - 1 ==> rest[j] == clauses[j + 1];
    }
    if UnitBeforeElse(rest) {
      var k :| 0 <= k < |rest| && rest[k].Nil? && forall j :: 0 <= j < k ==> !Stops(rest[j]);
      assert clauses[k + 1].Nil?;
      assert forall j :: 0 < j < k + 1 ==> clauses[j] == rest[j - 1];
    }
  }

  /** The expansion fails exactly when a unit clause comes before any
      `else` clause, and then with the failure of asking for its head. */
  lemma {:induction false} ExpandFailsIff(clauses: seq<Combination>)
    ensures Expand(clauses).Thrown? <==> UnitBeforeElse(clauses)
    ensures Expand(clauses).Thrown? ==> Expand(clauses) == Thrown("car is not supported")
    decreases |clauses|
  {
    if |clauses| > 0 {
      if !Stops(clauses[0]) {
        ExpandFailsIff(clauses[1..]);
        UnitBeforeElseShift(clauses);
      }
    }
  }

  /** A successful expansion is a chain of `if`s, one per clause before the
      first `else` clause, testing the clause heads in order with the clause
      bodies as consequents; it ends in the `else` clause's body, or in the
      false symbol when there is none. */
  lemma {:induction false} ExpandIsIfChain(clauses: seq<Combination>)
    requires Expand(clauses).Ok?
    ensures var e := Expand(clauses).value;
      var n := |Branches(e)|;
      n <= |clauses| &&
      (forall i :: 0 <= i < n ==>
         clauses[i].Cell? && clauses[i].first != ELSE && Branches(e)[i] == (clauses[i].first, Body(clauses[i]))) &&
      (n < |clauses| ==> clauses[n].Cell? && clauses[n].first == ELSE && Otherwise(e) == Body(clauses[n])) &&
      (n == |clauses| ==> Otherwise(e) == FALSE)
    decreases |clauses|
  {
    if |clauses| > 0 && clauses[0].first != ELSE {
      ExpandIsIfChain(clauses[1..]);
      var e := Expand(clauses).value;
      var rest := Expand(clauses[1..]).value;
      assert Branches(e) == [(clauses[0].first, Body(clauses[0]))] + Branches(rest);
      forall i | 0 < i < |Branches(e)|
        ensures clauses[i].Cell? && clauses[i].first != ELSE && Branches(e)[i] == (clauses[i].first, Body(clauses[i]))
      {
        assert Branches(e)[i] == Branches(rest)[i - 1];
        assert clauses[i] == clauses[1..][i - 1];
      }
    }
  }

  // ---------------------------------------------------------------- let

  /** A let binding of the form (name init ...). */
  predicate WellFormed(binding: Combination) {
    binding.Cell? && binding.first.Symbol? && binding.rest.Cell?
  }

  /** What asking a binding for its name and then its initialiser throws. */
  function Fault(binding: Combination): string
  {
    if binding.Nil? then "car is not supported"
    else if !binding.first.Symbol? then "Not a symbol: " + Show(binding.first)
    else "car is not supported"
  }

  /** One binding's name and initialiser: asSymbol of its car, then the car
      of its cdr. */
  function Part(binding: Combination): (r: Attempt<(string, Expr)>)
    ensures r.Ok? <==> WellFormed(binding)
    ensures r.Ok? ==> r.value == (binding.first.name, binding.rest.first)
    ensures r.Thrown? ==> r.message == Fault(binding)
  {
    match Car(binding)
    case Thrown(m) => Thrown(m)
    case Ok(head) =>
      if !head.Symbol? then Thrown("Not a symbol: " + Show(head))
      else match Car(binding.rest)
        case Thrown(m) => Thrown(m)
        case Ok(init) => Ok((head.name, init))
  }

  /** The names and initialisers of the bindings, in order; the first
      binding that is not well formed makes it fail. */
  function Parts(bindings: seq<Combination>): (r: Attempt<(seq<string>, seq<Expr>)>)
    ensures r.Ok? ==> |r.value.0| == |bindings| && |r.value.1| == |bindings|
    decreases |bindings|
  {
    if |bindings| == 0 then Ok(([], []))
    else match Part(bindings[|bindings| - 1])
      case Thrown(m) =>
        (match Parts(bindings[..|bindings| - 1])
         case Thrown(m') => Thrown(m')
         case Ok(_) => Thrown(m))
      case Ok(p) =>
        match Parts(bindings[..|bindings| - 1])
        case Thrown(m) => Thrown(m)
        case Ok(ps) => Ok((ps.0 + [p.0], ps.1 + [p.1]))
  }

  /** LetExpression.toCombinationExpression: a lambda over the names with the
      let's body, applied to the initialisers. */
  function ToCombination(bindings: seq<Combination>, body: seq<Expr>): Attempt<Expr>
  {
    match Parts(bindings)
    case Thrown(m) => Thrown(m)
    case Ok(ps) => Ok(Make([Lambda(ps.0, body)] + ps.1))
  }

  /** The loop of toCombinationExpression, filling the two lists binding by
      binding. */
  method ToCombinationExpression(bindings: seq<Combination>, body: seq<Expr>) returns (r: Attempt<Expr>)
    ensures r == ToCombination(bindings, body)
  {
    var names: seq<string> := [];
    var inits: seq<Expr> := [];
    var i := 0;
    while i < |bindings|
      invariant 0 <= i <= |bindings|
      invariant Parts(bindings[..i]) == Ok((names, inits))
    {
      assert bindings[..i + 1][..i] == bindings[..i];
      ToCombinationShape(bindings[..i], body);
      if !WellFormed(bindings[i]) {
        assert forall j :: 0 <= j < i ==> bindings[..i][j] == bindings[j];
        ToCombinationFailsAtFirst(bindings, body, i);
      }
      match Car(bindings[i])
      case Thrown(m) =>
        return Thrown(m);
      case Ok(head) =>
        if !head.Symbol? {
          return Thrown("Not a symbol: " + Show(head));
        }
        match Car(bindings[i].rest)
        case Thrown(m) =>
          return Thrown(m);
        case Ok(init) =>
          names := names + [head.name];
          inits := inits + [init];
      i := i + 1;
    }
    assert bindings[..i] == bindings;
    r := Ok(Make([Lambda(names, body)] + inits));
  }

  /** The parts are found exactly when every binding is well formed, and
      then they are the names and the initialisers in order. */
  lemma {:induction false} PartsOfWellFormed(bindings: seq<Combination>)
    ensures Parts(bindings).Ok? <==> forall i :: 0 <= i < |bindings| ==> WellFormed(bindings[i])
    ensures Parts(bindings).Ok? ==> Parts(bindings).value == (Names(bindings), Inits(bindings))
    decreases |bindings|
  {
    if |bindings| > 0 {
      var front := bindings[..|bindings| - 1];
      PartsOfWellFormed(front);
      assert forall i :: 0 <= i < |front| ==> front[i] == bindings[i];
    }
  }

  /** The rewriting succeeds exactly when every binding is well formed, and
      then the lambda's parameters are the names and the operands the
      initialisers, one each, in the order of the bindings. */
  lemma ToCombinationShape(bindings: seq<Combination>, body: seq<Expr>)
    ensures ToCombination(bindings, body).Ok? <==> forall i :: 0 <= i < |bindings| ==> WellFormed(bindings[i])
    ensures ToCombination(bindings, body).Ok? ==>
      ToCombination(bindings, body) == Ok(Make([Lambda(Names(bindings), body)] + Inits(bindings)))
  {
    PartsOfWellFormed(bindings);
  }

  /** The first binding that is not well formed decides the failure. */
  lemma {:induction false} ToCombinationFailsAtFirst(bindings: seq<Combination>, body: seq<Expr>, k: nat)
    requires k < |bindings| && !WellFormed(bindings[k])
    requires forall i :: 0 <= i < k ==> WellFormed(bindings[i])
    ensures ToCombination(bindings, body) == Thrown(Fault(bindings[k]))
    decreases |bindings|
  {
    var front := bindings[..|bindings| - 1];
    if k < |bindings| - 1 {
      assert forall i :: 0 <= i <= k ==> front[i] == bindings[i];
      ToCombinationFailsAtFirst(front, body, k);
    } else {
      PartsOfWellFormed(front);
      assert forall i :: 0 <= i < |front| ==> front[i] == bindings[i];
    }
  }

  /** The binding names, for well-formed bindings. */
  function Names(bindings: seq<Combination>): (ns: seq<string>)
    requires forall i :: 0 <= i < |bindings| ==> WellFormed(bindings[i])
    ensures |ns| == |bindings|
  {
    if |bindings| == 0 then []
    else
      var last := bindings[|bindings| - 1];
      assert WellFormed(last);
      Names(bindings[..|bindings| - 1]) + [last.first.name]
  }

  /** The binding initialisers, for well-formed bindings. */
  function Inits(bindings: seq<Combination>): (es: seq<Expr>)
    requires forall i :: 0 <= i < |bindings| ==> WellFormed(bindings[i])
    ensures |es| == |bindings|
  {
    if |bindings| == 0 then []
    else
      var last := bindings[|bindings| - 1];
      assert WellFormed(last);
      Inits(bindings[..|bindings| - 1]) + [last.rest.first]
  }
}
