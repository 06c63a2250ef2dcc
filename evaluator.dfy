/** The `eval` methods of the expression classes and the `apply` methods of
    the procedures, as one evaluator over the store of `Stores`.

    Each evaluation is given `fuel`, the depth of nested evaluations it may
    still start; when it runs out the evaluation throws StackOverflowError,
    as the Java call stack would. Nested evaluations get one less; the
    operands and body expressions of one combination share the same fuel. */
module Evaluator {
  import opened Wrappers
  import opened Ast
  import Strings
  import Scopes
  import Utilities
  import Core
  import Forms
  import Stores

  const STACK_OVERFLOW := "StackOverflowError"
  const NOT_EVALUABLE := "Evaluation is not supported"
  const NULL_POINTER := "NullPointerException"

  /** A value or a thrown exception, with the store as it is afterwards. */
  datatype Outcome<T> = Outcome(value: Attempt<T>, store: Stores.Store)

  /** The value the last expression of a body leaves, UNIT for no expressions. */
  function Last(vs: seq<Expr>): Expr {
    if |vs| == 0 then UNIT else vs[|vs| - 1]
  }

  // ---------------------------------------------------------------- evaluation

  function Eval(st: Stores.Store, env: Env, e: Expr, fuel: nat): Outcome<Expr>
    decreases fuel, 0
  {
    if fuel == 0 then Outcome(Thrown(STACK_OVERFLOW), st)
    else match e
      // UnitExpression, the literals and the primitive procedures evaluate to themselves
      case Combo(Nil) => Outcome(Ok(e), st)
      case Integral(_) => Outcome(Ok(e), st)
      case Fractional(_) => Outcome(Ok(e), st)
      case Str(_) => Outcome(Ok(e), st)
      case Primitive(_) => Outcome(Ok(e), st)
      // CombinationExpression: the operator first, then the operands from left to right
      case Combo(Cell(head, operands)) =>
        var h := Eval(st, env, head, fuel - 1);
        (match h.value
         case Thrown(m) => Outcome(Thrown(m), h.store)
         case Ok(f) =>
           match Utilities.AsProcedure(f)
           case Thrown(m) => Outcome(Thrown(m), h.store)
           case Ok(p) =>
             var a := EvalAll(h.store, env, Expressions(operands), fuel - 1);
             match a.value
             case Thrown(m) => Outcome(Thrown(m), a.store)
             case Ok(vs) => Apply(a.store, p, vs, fuel - 1))
      case Symbol(x) => Outcome(Stores.Lookup(st, env, x), st)
      case Pair(_, _) => Outcome(Thrown(NOT_EVALUABLE), st)
      case Quote(q) => Outcome(Ok(q), st)
      case Lambda(params, body) => Outcome(Ok(Compound(env, params, body)), st)
      case Definition(x, value) =>
        var r := Eval(st, env, value, fuel - 1);
        (match r.value
         case Thrown(m) => Outcome(Thrown(m), r.store)
         case Ok(v) => Outcome(Ok(UNIT), Stores.Define(r.store, env, x, v)))
      case Assignment(x, value) =>
        var r := Eval(st, env, value, fuel - 1);
        (match r.value
         case Thrown(m) => Outcome(Thrown(m), r.store)
         case Ok(v) =>
           match Stores.Set(r.store, env, x, v)
           case Thrown(m) => Outcome(Thrown(m), r.store)
           case Ok(st') => Outcome(Ok(UNIT), st'))
      case If(test, consequent, alternative) =>
        var r := Eval(st, env, test, fuel - 1);
        (match r.value
         case Thrown(m) => Outcome(Thrown(m), r.store)
         case Ok(b) =>
           if Utilities.IsTrue(b) then Eval(r.store, env, consequent, fuel - 1)
           else Eval(r.store, env, alternative, fuel - 1))
      case Begin(es) =>
        var r := EvalAll(st, env, es, fuel - 1);
        (match r.value
         case Thrown(m) => Outcome(Thrown(m), r.store)
         case Ok(vs) =>
           if |vs| == 0 then Outcome(Thrown(Utilities.OUT_OF_BOUNDS), r.store)
           else Outcome(Ok(vs[|vs| - 1]), r.store))
      case Cond(clauses) =>
        (match Forms.Expand(clauses)
         case Thrown(m) => Outcome(Thrown(m), st)
         case Ok(x) => Eval(st, env, x, fuel - 1))
      case Let(bindings, body) =>
        (match Forms.ToCombination(bindings, body)
         case Thrown(m) => Outcome(Thrown(m), st)
         case Ok(x) => Eval(st, env, x, fuel - 1))
      // CompoundProcedure.eval returns null; any use of that value throws
      case Compound(_, _, _) => Outcome(Thrown(NULL_POINTER), st)
  }

  /** Utilities.mapEval: each expression in turn, each in the store the
      previous one left; the first exception stops the rest. */
  function EvalAll(st: Stores.Store, env: Env, es: seq<Expr>, fuel: nat): (r: Outcome<seq<Expr>>)
    ensures r.value.Ok? ==> |r.value.value| == |es|
    decreases fuel, |es| + 1
  {
    if |es| == 0 then Outcome(Ok([]), st)
    else
      var first := Eval(st, env, es[0], fuel);
      match first.value
      case Thrown(m) => Outcome(Thrown(m), first.store)
      case Ok(v) =>
        var rest := EvalAll(first.store, env, es[1..], fuel);
        match rest.value
        case Thrown(m) => Outcome(Thrown(m), rest.store)
        case Ok(vs) => Outcome(Ok([v] + vs), rest.store)
  }

  /** Procedure.apply. */
  function Apply(st: Stores.Store, p: Expr, args: seq<Expr>, fuel: nat): Outcome<Expr>
    requires Utilities.IsProcedure(p)
    decreases fuel, if p.Compound? then |p.code| + 2 else 0
  {
    if p.Primitive? then
      if p.op == ApplyOp then
        // APPLY: a procedure and a list of its arguments
        if |args| == 0 then Outcome(Thrown(Utilities.OUT_OF_BOUNDS), st)
        else match Utilities.AsProcedure(args[0])
          case Thrown(m) => Outcome(Thrown(m), st)
          case Ok(q) =>
            if |args| < 2 then Outcome(Thrown(Utilities.OUT_OF_BOUNDS), st)
            else if !args[1].Combo? then Outcome(Thrown(Core.CLASS_CAST), st)
            else if fuel == 0 then Outcome(Thrown(STACK_OVERFLOW), st)
            else Apply(st, q, Expressions(args[1].list), fuel - 1)
      else Outcome(Native(p.op, args), st)
    else
      // CompoundProcedure.apply: the body in a new frame over the captured environment
      match Bind(p.formals, args)
      case Thrown(m) => Outcome(Thrown(m), st)
      case Ok(frame) =>
        var (inner, st') := Stores.Extend(st, p.env, frame);
        var r := EvalAll(st', inner, p.code, fuel);
        match r.value
        case Thrown(m) => Outcome(Thrown(m), r.store)
        case Ok(vs) => Outcome(Ok(Last(vs)), r.store)
  }

  /** The primitives of Core other than APPLY. */
  function Native(op: PrimitiveOp, args: seq<Expr>): Attempt<Expr>
    requires op != ApplyOp
  {
    match op
    case IsNullOp => Core.IsNull(args)
    case ErrorOp => Thrown(Core.ErrorMessage(args))
    case ConsOp => Core.Cons(args)
    case CarOp => Core.Car(args)
    case CdrOp => Core.Cdr(args)
    case IsPairOp => Core.IsPair(args)
    case AddOp => Core.Arithmetic(Core.Plus, args)
    case SubtractOp => Core.Arithmetic(Core.Minus, args)
    case MultiplyOp => Core.Arithmetic(Core.Times, args)
    case DivideOp => Core.DivideBy(false, args)
    case DisplayOp => Core.Display(args)
    case NewlineOp => Ok(UNIT)
  }

  // ---------------------------------------------------------------- binding the arguments

  /** Java's List.toString. */
  function ListText(ts: seq<string>): string {
    "[" + Strings.Joined(", ", ts) + "]"
  }

  function ArityMessage(kind: string, formals: seq<string>, args: seq<Expr>): string {
    kind + " arguments supplied: " + ListText(formals) + " " + ListText(ShowAll(args))
  }

  /** The map built by putting the i-th parameter to the i-th argument, in
      order, so that a repeated name keeps its last argument. */
  function Zip(formals: seq<string>, args: seq<Expr>): Scopes.Bindings
    requires |formals| == |args|
  {
    if |formals| == 0 then map[]
    else Zip(formals[..|formals| - 1], args[..|args| - 1])[formals[|formals| - 1] := args[|args| - 1]]
  }

  /** CompoundProcedure.bindings: the counts must agree. */
  function Bind(formals: seq<string>, args: seq<Expr>): (r: Attempt<Scopes.Bindings>)
    ensures r.Ok? <==> |formals| == |args|
    ensures |formals| < |args| ==> r == Thrown(ArityMessage("Too many", formals, args))
    ensures |formals| > |args| ==> r == Thrown(ArityMessage("Too few", formals, args))
  {
    if |formals| < |args| then Thrown(ArityMessage("Too many", formals, args))
    else if |formals| > |args| then Thrown(ArityMessage("Too few", formals, args))
    else Ok(Zip(formals, args))
  }

  /** The loop of CompoundProcedure.bindings. */
  method Bindings(formals: seq<string>, args: seq<Expr>) returns (r: Attempt<Scopes.Bindings>)
    ensures r == Bind(formals, args)
  {
    if |formals| < |args| {
      return Thrown(ArityMessage("Too many", formals, args));
    } else if |formals| > |args| {
      return Thrown(ArityMessage("Too few", formals, args));
    }
    var result: Scopes.Bindings := map[];
    var index := 0;
    while index < |formals|
      invariant 0 <= index <= |formals|
      invariant result == Zip(formals[..index], args[..index])
    {
      assert formals[..index + 1][..index] == formals[..index];
      assert args[..index + 1][..index] == args[..index];
      result := result[formals[index] := args[index]];
      index := index + 1;
    }
    assert formals[..index] == formals && args[..index] == args;
    r := Ok(result);
  }

  /** Exactly the parameters are bound. */
  lemma {:induction false} ZipBindsParameters(formals: seq<string>, args: seq<Expr>)
    requires |formals| == |args|
    ensures forall x :: x in Zip(formals, args) <==> x in formals
    decreases |formals|
  {
    if |formals| > 0 {
      var n := |formals| - 1;
      ZipBindsParameters(formals[..n], args[..n]);
      assert formals == formals[..n] + [formals[n]];
    }
  }

  /** Each parameter is bound to the argument in its position, unless the
      name comes again later, which then wins. */
  lemma {:induction false} ZipBindsInOrder(formals: seq<string>, args: seq<Expr>)
    requires |formals| == |args|
    ensures forall i :: 0 <= i < |formals| && (forall j :: i < j < |formals| ==> formals[j] != formals[i]) ==>
      formals[i] in Zip(formals, args) && Zip(formals, args)[formals[i]] == args[i]
    decreases |formals|
  {
    if |formals| > 0 {
      var n := |formals| - 1;
      var front, values := formals[..n], args[..n];
      ZipBindsInOrder(front, values);
      forall i | 0 <= i < n && (forall j :: i < j < |formals| ==> formals[j] != formals[i])
        ensures formals[i] in Zip(formals, args) && Zip(formals, args)[formals[i]] == args[i]
      {
        assert front[i] == formals[i] && values[i] == args[i];
        assert forall j :: i < j < n ==> front[j] == formals[j];
        assert formals[n] != formals[i];
      }
    }
  }

  // ---------------------------------------------------------------- the loops, as the source writes them

  /** Utilities.mapEval as a loop. */
  method MapEval(st: Stores.Store, env: Env, es: seq<Expr>, fuel: nat) returns (r: Outcome<seq<Expr>>)
    ensures r == EvalAll(st, env, es, fuel)
  {
    var result: seq<Expr> := [];
    var store := st;
    var i := 0;
    while i < |es|
      invariant 0 <= i <= |es|
      invariant EvalAll(st, env, es[..i], fuel) == Outcome(Ok(result), store)
    {
      EvalAllSnoc(st, env, es[..i], es[i], fuel);
      assert es[..i + 1] == es[..i] + [es[i]];
      var o := Eval(store, env, es[i], fuel);
      if o.value.Thrown? {
        EvalAllStops(st, env, es, fuel, i);
        return Outcome(Thrown(o.value.message), o.store);
      }
      result := result + [o.value.value];
      store := o.store;
      i := i + 1;
    }
    assert es[..i] == es;
    r := Outcome(Ok(result), store);
  }

  /** CombinationExpression.eval: the operands are collected in a loop. */
  method EvalCombination(st: Stores.Store, env: Env, head: Expr, operands: Combination, fuel: nat)
    returns (r: Outcome<Expr>)
    requires fuel > 0
    ensures r == Eval(st, env, Combo(Cell(head, operands)), fuel)
  {
    CombinationOrder(st, env, head, operands, fuel - 1);
    var h := Eval(st, env, head, fuel - 1);
    if h.value.Thrown? {
      return Outcome(Thrown(h.value.message), h.store);
    }
    var operator := Utilities.AsProcedure(h.value.value);
    if operator.Thrown? {
      return Outcome(Thrown(operator.message), h.store);
    }
    var evaluated := MapEval(h.store, env, Expressions(operands), fuel - 1);
    if evaluated.value.Thrown? {
      return Outcome(Thrown(evaluated.value.message), evaluated.store);
    }
    r := Apply(evaluated.store, operator.value, evaluated.value.value, fuel - 1);
  }

  /** A combination evaluates its operator first, and stops there unless
      that gives a procedure; then the operands, from left to right, each in
      the store the one before left; then it applies the procedure to their
      values. */
  lemma CombinationOrder(st: Stores.Store, env: Env, head: Expr, operands: Combination, fuel: nat)
    ensures var h := Eval(st, env, head, fuel);
      var a := EvalAll(h.store, env, Expressions(operands), fuel);
      Eval(st, env, Combo(Cell(head, operands)), fuel + 1) ==
        if h.value.Thrown? then Outcome(Thrown(h.value.message), h.store)
        else if !Utilities.IsProcedure(h.value.value) then
          Outcome(Thrown("Not a procedure: " + Show(h.value.value)), h.store)
        else if a.value.Thrown? then Outcome(Thrown(a.value.message), a.store)
        else Apply(a.store, h.value.value, a.value.value, fuel)
  {
  }

  /** CompoundProcedure.apply: the body expressions in turn, keeping the
      value of the last. */
  method ApplyCompound(st: Stores.Store, captured: Env, formals: seq<string>, code: seq<Expr>, args: seq<Expr>, fuel: nat)
    returns (r: Outcome<Expr>)
    ensures r == Apply(st, Compound(captured, formals, code), args, fuel)
  {
    var frame := Bindings(formals, args);
    if frame.Thrown? {
      return Outcome(Thrown(frame.message), st);
    }
    var (extended, store) := Stores.Extend(st, captured, frame.value);
    var result := UNIT;
    ghost var values: seq<Expr> := [];
    var i := 0;
    while i < |code|
      invariant 0 <= i <= |code|
      invariant EvalAll(Stores.Extend(st, captured, frame.value).1, extended, code[..i], fuel) == Outcome(Ok(values), store)
      invariant result == Last(values)
    {
      EvalAllSnoc(Stores.Extend(st, captured, frame.value).1, extended, code[..i], code[i], fuel);
      assert code[..i + 1] == code[..i] + [code[i]];
      var o := Eval(store, extended, code[i], fuel);
      if o.value.Thrown? {
        EvalAllStops(Stores.Extend(st, captured, frame.value).1, extended, code, fuel, i);
        return Outcome(Thrown(o.value.message), o.store);
      }
      result := o.value.value;
      values := values + [result];
      store := o.store;
      i := i + 1;
    }
    assert code[..i] == code;
    r := Outcome(Ok(result), store);
  }

  // ---------------------------------------------------------------- order of evaluation

  /** mapEval evaluates from left to right: one more expression at the end
      is evaluated last, in the store the others left. */
  lemma {:induction false} EvalAllSnoc(st: Stores.Store, env: Env, es: seq<Expr>, e: Expr, fuel: nat)
    ensures EvalAll(st, env, es + [e], fuel) ==
      match EvalAll(st, env, es, fuel).value
      case Thrown(m) => Outcome(Thrown(m), EvalAll(st, env, es, fuel).store)
      case Ok(vs) =>
        var last := Eval(EvalAll(st, env, es, fuel).store, env, e, fuel);
        match last.value
        case Thrown(m) => Outcome(Thrown(m), last.store)
        case Ok(v) => Outcome(Ok(vs + [v]), last.store)
    decreases |es|
  {
    if |es| > 0 {
      var first := Eval(st, env, es[0], fuel);
      assert (es + [e])[0] == es[0] && (es + [e])[1..] == es[1..] + [e];
      if first.value.Ok? {
        EvalAllSnoc(first.store, env, es[1..], e, fuel);
        var rest := EvalAll(first.store, env, es[1..], fuel);
        if rest.value.Ok? {
          var last := Eval(rest.store, env, e, fuel);
          if last.value.Ok? {
            var v, vs, w := first.value.value, rest.value.value, last.value.value;
            assert [v] + (vs + [w]) == ([v] + vs) + [w];
          }
        }
      }
    } else {
      assert es + [e] == [e] && [e][1..] == [];
      var last := Eval(st, env, e, fuel);
      if last.value.Ok? {
        assert [last.value.value] + [] == [] + [last.value.value];
      }
    }
  }

  /** The first exception of mapEval is the exception of the expression
      that throws, evaluated after all those before it. */
  lemma EvalAllStops(st: Stores.Store, env: Env, es: seq<Expr>, fuel: nat, i: nat)
    requires i < |es| && EvalAll(st, env, es[..i], fuel).value.Ok?
    requires Eval(EvalAll(st, env, es[..i], fuel).store, env, es[i], fuel).value.Thrown?
    ensures var stop := Eval(EvalAll(st, env, es[..i], fuel).store, env, es[i], fuel);
      EvalAll(st, env, es, fuel) == Outcome(Thrown(stop.value.message), stop.store)
  {
    EvalAllSnoc(st, env, es[..i], es[i], fuel);
    assert es[..i + 1] == es[..i] + [es[i]];
    EvalAllPrefixThrows(st, env, es, fuel, i + 1);
  }

  /** Once a prefix throws, the whole list throws the same, in the same store. */
  lemma {:induction false} EvalAllPrefixThrows(st: Stores.Store, env: Env, es: seq<Expr>, fuel: nat, n: nat)
    requires n <= |es| && EvalAll(st, env, es[..n], fuel).value.Thrown?
    ensures EvalAll(st, env, es, fuel) == EvalAll(st, env, es[..n], fuel)
    decreases |es| - n
  {
    if n < |es| {
      EvalAllSnoc(st, env, es[..n], es[n], fuel);
      assert es[..n + 1] == es[..n] + [es[n]];
      EvalAllPrefixThrows(st, env, es, fuel, n + 1);
    } else {
      assert es[..n] == es;
    }
  }

  /** mapEval keeps length and order: the i-th value is the value of the
      i-th expression, evaluated in the store the first i left. */
  lemma {:induction false} EvalAllPointwise(st: Stores.Store, env: Env, es: seq<Expr>, fuel: nat, i: nat)
    requires EvalAll(st, env, es, fuel).value.Ok? && i < |es|
    ensures EvalAll(st, env, es[..i], fuel).value == Ok(EvalAll(st, env, es, fuel).value.value[..i])
    ensures Eval(EvalAll(st, env, es[..i], fuel).store, env, es[i], fuel).value == Ok(EvalAll(st, env, es, fuel).value.value[i])
    decreases i
  {
    var first := Eval(st, env, es[0], fuel);
    var vs := EvalAll(st, env, es, fuel).value.value;
    if i == 0 {
      assert es[..0] == [];
    } else {
      EvalAllPointwise(first.store, env, es[1..], fuel, i - 1);
      assert es[..i][0] == es[0] && es[..i][1..] == es[1..][..i - 1];
      assert es[1..][i - 1] == es[i];
      assert vs[..i] == [vs[0]] + vs[1..][..i - 1];
    }
  }

  // ---------------------------------------------------------------- the forms

  /** What evaluates without evaluating anything else: literals, the unit
      value and primitives to themselves, a quotation to what it quotes, a
      lambda to a procedure over the current environment, a symbol to its
      binding; none of them changes the store. A pair cannot be evaluated. */
  lemma EvalAtoms(st: Stores.Store, env: Env, e: Expr, fuel: nat)
    requires fuel > 0
    ensures e == UNIT || e.Integral? || e.Fractional? || e.Str? || e.Primitive? ==>
      Eval(st, env, e, fuel) == Outcome(Ok(e), st)
    ensures e.Quote? ==> Eval(st, env, e, fuel) == Outcome(Ok(e.quoted), st)
    ensures e.Lambda? ==> Eval(st, env, e, fuel) == Outcome(Ok(Compound(env, e.params, e.body)), st)
    ensures e.Symbol? ==> Eval(st, env, e, fuel) == Outcome(Stores.Lookup(st, env, e.name), st)
    ensures e.Pair? ==> Eval(st, env, e, fuel) == Outcome(Thrown(NOT_EVALUABLE), st)
  {
  }

  /** Only the false symbol selects the alternative; 0, "" and () select the
      consequent. The branch not taken is not evaluated. */
  lemma IfOfQuoted(st: Stores.Store, env: Env, v: Expr, consequent: Expr, alternative: Expr, fuel: nat)
    ensures Eval(st, env, If(Quote(v), consequent, alternative), fuel + 2) ==
      if v == FALSE then Eval(st, env, alternative, fuel + 1) else Eval(st, env, consequent, fuel + 1)
  {
  }

  /** A test that throws stops the `if` before either branch. */
  lemma IfTestThrows(st: Stores.Store, env: Env, test: Expr, consequent: Expr, alternative: Expr, fuel: nat)
    requires Eval(st, env, test, fuel + 1).value.Thrown?
    ensures Eval(st, env, If(test, consequent, alternative), fuel + 2) == Eval(st, env, test, fuel + 1)
  {
  }

  /** `begin` with nothing in it fails, as asking for the last of no values does. */
  lemma BeginEmpty(st: Stores.Store, env: Env, fuel: nat)
    ensures Eval(st, env, Begin([]), fuel + 1) == Outcome(Thrown(Utilities.OUT_OF_BOUNDS), st)
  {
  }

  /** `begin` evaluates the last expression after all the others, in the
      store they left, and its value is the value of the `begin`. */
  lemma BeginIsLast(st: Stores.Store, env: Env, es: seq<Expr>, e: Expr, fuel: nat)
    ensures var before := EvalAll(st, env, es, fuel);
      Eval(st, env, Begin(es + [e]), fuel + 1) ==
        if before.value.Thrown? then Outcome(Thrown(before.value.message), before.store)
        else Eval(before.store, env, e, fuel)
  {
    EvalAllSnoc(st, env, es, e, fuel);
    var before := EvalAll(st, env, es, fuel);
    var all := EvalAll(st, env, es + [e], fuel);
    if before.value.Ok? {
      var last := Eval(before.store, env, e, fuel);
      if last.value.Ok? {
        assert all == Outcome(Ok(before.value.value + [last.value.value]), last.store);
      } else {
        assert all == Outcome(Thrown(last.value.message), last.store);
      }
    } else {
      assert all == Outcome(Thrown(before.value.message), before.store);
    }
  }

  /** `define` evaluates the value, then binds it in the environment's own
      frame: the name denotes the value, every other name what it denoted,
      and the enclosing frames are as they were. */
  lemma DefinitionBinds(st: Stores.Store, env: Env, x: string, value: Expr, y: string, fuel: nat)
    requires Eval(st, env, value, fuel).value.Ok?
    requires env.At? && env.frame < |Eval(st, env, value, fuel).store|
    ensures var s1 := Eval(st, env, value, fuel).store;
      var v := Eval(st, env, value, fuel).value.value;
      var r := Eval(st, env, Definition(x, value), fuel + 1);
      r.value == Ok(UNIT) &&
      Stores.Lookup(r.store, env, x) == Ok(v) &&
      (y != x ==> Stores.Lookup(r.store, env, y) == Stores.Lookup(s1, env, y)) &&
      Stores.Chain(r.store, env)[1..] == Stores.Chain(s1, env)[1..]
  {
    var s1 := Eval(st, env, value, fuel).store;
    var v := Eval(st, env, value, fuel).value.value;
    Stores.DefineDenotes(s1, env, x, v);
    Scopes.DefineThenLookup(Stores.Chain(s1, env), x, v, y);
  }

  /** `set!` evaluates the value, then fails on a name no frame binds, or
      else rebinds the name where it is bound: the name denotes the value,
      every other name what it denoted. */
  lemma AssignmentUpdatesOwner(st: Stores.Store, env: Env, x: string, value: Expr, y: string, fuel: nat)
    requires Eval(st, env, value, fuel).value.Ok?
    ensures var s1 := Eval(st, env, value, fuel).store;
      var r := Eval(st, env, Assignment(x, value), fuel + 1);
      Stores.Lookup(s1, env, x).Thrown? ==> r == Outcome(Thrown(Scopes.Unbound(x)), s1)
    ensures var s1 := Eval(st, env, value, fuel).store;
      var v := Eval(st, env, value, fuel).value.value;
      var r := Eval(st, env, Assignment(x, value), fuel + 1);
      Stores.Lookup(s1, env, x).Ok? ==>
        r.value == Ok(UNIT) && Stores.Lookup(r.store, env, x) == Ok(v) &&
        (y != x ==> Stores.Lookup(r.store, env, y) == Stores.Lookup(s1, env, y))
  {
    var s1 := Eval(st, env, value, fuel).store;
    var v := Eval(st, env, value, fuel).value.value;
    var chain := Stores.Chain(s1, env);
    Stores.SetDenotes(s1, env, x, v);
    Scopes.SetChangesOwner(chain, x, v);
    Scopes.LookupFindsOwner(chain, x);
    if Stores.Set(s1, env, x, v).Ok? {
      Scopes.SetThenLookup(chain, x, v, y);
    }
  }

  /** A combination whose operator is not a procedure fails with "Not a
      procedure", before any operand is evaluated. */
  lemma NotAProcedure(st: Stores.Store, env: Env, head: Expr, operands: Combination, fuel: nat)
    requires Eval(st, env, head, fuel).value.Ok? && !Utilities.IsProcedure(Eval(st, env, head, fuel).value.value)
    ensures Eval(st, env, Combo(Cell(head, operands)), fuel + 1) ==
      Outcome(Thrown("Not a procedure: " + Show(Eval(st, env, head, fuel).value.value)), Eval(st, env, head, fuel).store)
  {
  }

  // ---------------------------------------------------------------- procedures

  /** A compound procedure refuses more or fewer arguments than it has
      parameters, before anything is evaluated or bound. */
  lemma ArityIsChecked(st: Stores.Store, captured: Env, formals: seq<string>, code: seq<Expr>, args: seq<Expr>, fuel: nat)
    ensures |formals| < |args| ==>
      Apply(st, Compound(captured, formals, code), args, fuel) == Outcome(Thrown(ArityMessage("Too many", formals, args)), st)
    ensures |formals| > |args| ==>
      Apply(st, Compound(captured, formals, code), args, fuel) == Outcome(Thrown(ArityMessage("Too few", formals, args)), st)
  {
  }

  /** A compound procedure runs its body in a new frame over the environment
      it was made in, whatever the caller's: there each parameter denotes
      its argument (the last one, for a repeated name), and every other name
      what it denotes where the procedure was made. The result is the value
      of the last body expression. */
  lemma ApplyExtendsCaptured(st: Stores.Store, captured: Env, formals: seq<string>, code: seq<Expr>, args: seq<Expr>, fuel: nat)
    requires |formals| == |args| && captured.At? && captured.frame < |st|
    ensures var st' := st + [Stores.Frame(Zip(formals, args), captured)];
      var r := EvalAll(st', At(|st|), code, fuel);
      Apply(st, Compound(captured, formals, code), args, fuel) ==
        if r.value.Thrown? then Outcome(Thrown(r.value.message), r.store) else Outcome(Ok(Last(r.value.value)), r.store)
    ensures var st' := st + [Stores.Frame(Zip(formals, args), captured)];
      forall y :: y !in formals ==> Stores.Lookup(st', At(|st|), y) == Stores.Lookup(st, captured, y)
    ensures var st' := st + [Stores.Frame(Zip(formals, args), captured)];
      forall i :: 0 <= i < |formals| && (forall j :: i < j < |formals| ==> formals[j] != formals[i]) ==>
        Stores.Lookup(st', At(|st|), formals[i]) == Ok(args[i])
  {
    var st' := st + [Stores.Frame(Zip(formals, args), captured)];
    Stores.ExtendDenotes(st, captured, Zip(formals, args), captured);
    ZipBindsParameters(formals, args);
    ZipBindsInOrder(formals, args);
  }

  /** A procedure made in EMPTY gets EMPTY back from extend: its arguments
      are dropped and its body runs where nothing is bound. */
  lemma ApplyInEmpty(st: Stores.Store, formals: seq<string>, code: seq<Expr>, args: seq<Expr>, fuel: nat)
    requires |formals| == |args|
    ensures var r := EvalAll(st, Empty, code, fuel);
      Apply(st, Compound(Empty, formals, code), args, fuel) ==
        if r.value.Thrown? then Outcome(Thrown(r.value.message), r.store) else Outcome(Ok(Last(r.value.value)), r.store)
  {
  }

  /** `apply` calls the procedure on the elements of the list. */
  lemma ApplyPrimitiveSpreads(st: Stores.Store, p: Expr, list: Combination, fuel: nat)
    requires Utilities.IsProcedure(p)
    ensures Apply(st, Primitive(ApplyOp), [p, Combo(list)], fuel + 1) == Apply(st, p, Expressions(list), fuel)
  {
  }

  // ---------------------------------------------------------------- derived forms

  /** A `cond` whose expansion fails fails before evaluating anything. */
  lemma CondFailsFirst(st: Stores.Store, env: Env, clauses: seq<Combination>, fuel: nat)
    requires Forms.UnitBeforeElse(clauses)
    ensures Eval(st, env, Cond(clauses), fuel + 1) == Outcome(Thrown("car is not supported"), st)
  {
    Forms.ExpandFailsIff(clauses);
  }

  /** `cond` with no clauses is the false symbol, evaluated: the binding of
      `false`. */
  lemma CondEmpty(st: Stores.Store, env: Env, fuel: nat)
    ensures Eval(st, env, Cond([]), fuel + 2) == Outcome(Stores.Lookup(st, env, "false"), st)
  {
  }

  /** An `else` clause first is its body, whatever follows. */
  lemma CondElse(st: Stores.Store, env: Env, clauses: seq<Combination>, fuel: nat)
    requires |clauses| > 0 && clauses[0].Cell? && clauses[0].first == Forms.ELSE
    ensures Eval(st, env, Cond(clauses), fuel + 1) == Eval(st, env, Forms.Body(clauses[0]), fuel)
  {
  }

  /** Otherwise `cond` evaluates the first clause's test once; a true value
      selects that clause's body, a false one leaves the `cond` of the
      remaining clauses, in the store the test left. */
  lemma CondStep(st: Stores.Store, env: Env, clauses: seq<Combination>, fuel: nat)
    requires Forms.Expand(clauses).Ok?
    requires |clauses| > 0 && clauses[0].Cell? && clauses[0].first != Forms.ELSE
    ensures var t := Eval(st, env, clauses[0].first, fuel);
      Eval(st, env, Cond(clauses), fuel + 2) ==
        if t.value.Thrown? then Outcome(Thrown(t.value.message), t.store)
        else if Utilities.IsTrue(t.value.value) then Eval(t.store, env, Forms.Body(clauses[0]), fuel)
        else Eval(t.store, env, Cond(clauses[1..]), fuel + 1)
  {
  }

  /** `let` is the application of a lambda over the binding names to the
      initialisers: they are evaluated first, in order, in the environment of
      the `let` itself, and there is one for each name. */
  lemma LetIsApplication(st: Stores.Store, env: Env, bindings: seq<Combination>, body: seq<Expr>, fuel: nat)
    requires forall i :: 0 <= i < |bindings| ==> Forms.WellFormed(bindings[i])
    ensures var a := EvalAll(st, env, Forms.Inits(bindings), fuel + 1);
      Eval(st, env, Let(bindings, body), fuel + 3) ==
        if a.value.Thrown? then Outcome(Thrown(a.value.message), a.store)
        else Apply(a.store, Compound(env, Forms.Names(bindings), body), a.value.value, fuel + 1)
    ensures var a := EvalAll(st, env, Forms.Inits(bindings), fuel + 1);
      a.value.Ok? ==> |a.value.value| == |Forms.Names(bindings)|
  {
    var inits := Forms.Inits(bindings);
    var operator := Lambda(Forms.Names(bindings), body);
    Forms.ToCombinationShape(bindings, body);
    ExpressionsOfMake(inits);
    assert ([operator] + inits)[1..] == inits;
    var application := Combo(Cell(operator, MakeRecursively(inits)));
    assert Make([operator] + inits) == application;
    assert Eval(st, env, Let(bindings, body), fuel + 3) == Eval(st, env, application, fuel + 2);
    assert Eval(st, env, operator, fuel + 1) == Outcome(Ok(Compound(env, Forms.Names(bindings), body)), st);
  }

  /** A `let` binding that is not well formed fails before any initialiser
      is evaluated. */
  lemma LetFaultFirst(st: Stores.Store, env: Env, bindings: seq<Combination>, body: seq<Expr>, k: nat, fuel: nat)
    requires k < |bindings| && !Forms.WellFormed(bindings[k])
    requires forall i :: 0 <= i < k ==> Forms.WellFormed(bindings[i])
    ensures Eval(st, env, Let(bindings, body), fuel + 1) == Outcome(Thrown(Forms.Fault(bindings[k])), st)
  {
    Forms.ToCombinationFailsAtFirst(bindings, body, k);
  }

  // ---------------------------------------------------------------- programs

  /** (+ 1 2) in the global environment. */
  lemma AddInGlobal()
    ensures Eval(Stores.GLOBAL, At(0), Make([Symbol("+"), Integral(1), Integral(2)]), 3).value == Ok(Integral(3))
  {
    var operands := [Integral(1), Integral(2)];
    ExpressionsOfMake(operands);
    assert [Symbol("+"), Integral(1), Integral(2)] == [Symbol("+")] + operands;
    assert Stores.Lookup(Stores.GLOBAL, At(0), "+") == Ok(Primitive(AddOp));
    assert EvalAll(Stores.GLOBAL, At(0), operands, 2) == Outcome(Ok(operands), Stores.GLOBAL);
    Core.IntegralArithmetic(Core.Plus, operands);
    assert Core.Values(operands) == [1, 2];
    assert Core.ExactFold(Core.Plus, 0, [1, 2]) == 3 by {
      assert [1, 2][..1] == [1] && [1][..0] == [];
    }
    assert Core.Wrap64(3) == 3;
  }

  /** (begin (define x 5) x): a definition is seen by what follows it. */
  lemma DefineThenUse()
    ensures Eval(Stores.GLOBAL, At(0), Begin([Definition("x", Integral(5)), Symbol("x")]), 3).value == Ok(Integral(5))
  {
    var st' := Stores.Define(Stores.GLOBAL, At(0), "x", Integral(5));
    assert Eval(Stores.GLOBAL, At(0), Definition("x", Integral(5)), 2) == Outcome(Ok(UNIT), st');
    assert Stores.Lookup(st', At(0), "x") == Ok(Integral(5));
  }

  /** ((lambda (x) x) 7): the argument is bound in the new frame. */
  lemma IdentityApplied()
    ensures Eval(Stores.GLOBAL, At(0), Make([Lambda(["x"], [Symbol("x")]), Integral(7)]), 4).value == Ok(Integral(7))
  {
    var operator := Lambda(["x"], [Symbol("x")]);
    ExpressionsOfMake([Integral(7)]);
    assert [operator, Integral(7)] == [operator] + [Integral(7)];
    assert EvalAll(Stores.GLOBAL, At(0), [Integral(7)], 3) == Outcome(Ok([Integral(7)]), Stores.GLOBAL);
    ApplyExtendsCaptured(Stores.GLOBAL, At(0), ["x"], [Symbol("x")], [Integral(7)], 3);
    var st' := Stores.GLOBAL + [Stores.Frame(Zip(["x"], [Integral(7)]), At(0))];
    assert Stores.Lookup(st', At(1), "x") == Ok(Integral(7));
    assert EvalAll(st', At(1), [Symbol("x")], 3) == Outcome(Ok([Integral(7)]), st');
  }
}
