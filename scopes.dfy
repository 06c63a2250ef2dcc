/** An environment seen as what it denotes: the binding maps of its frames,
    innermost first, ending where the chain reaches Environment.EMPTY.
    Both the heap model of environments and the evaluator's store are
    specified by these functions. */
module Scopes {
  import opened Wrappers
  import opened Ast

  type Bindings = map<string, Expr>

  /** The message of lookup and set on a name no frame binds. */
  function Unbound(x: string): string {
    "Unbound variable: `" + x + "`"
  }

  /** The innermost frame that binds `x`. */
  function Owner(chain: seq<Bindings>, x: string): (k: Option<nat>)
    ensures k.Some? ==> k.value < |chain| && x in chain[k.value]
    ensures k.Some? ==> forall j :: 0 <= j < k.value ==> x !in chain[j]
    ensures k.None? <==> forall j :: 0 <= j < |chain| ==> x !in chain[j]
  {
    if |chain| == 0 then None
    else if x in chain[0] then Some(0)
    else match Owner(chain[1..], x)
      case None => None
      case Some(k) => Some(k + 1)
  }

  /** DefaultEnvironment.lookup: this frame's binding, or else the enclosing
      environment's; EMPTY binds nothing. */
  function Lookup(chain: seq<Bindings>, x: string): Attempt<Expr>
  {
    if |chain| == 0 then Thrown(Unbound(x))
    else if x in chain[0] then Ok(chain[0][x])
    else Lookup(chain[1..], x)
  }

  /** DefaultEnvironment.define: puts into this frame; on EMPTY, nothing happens. */
  function Define(chain: seq<Bindings>, x: string, v: Expr): seq<Bindings>
  {
    if |chain| == 0 then chain else [chain[0][x := v]] + chain[1..]
  }

  /** DefaultEnvironment.set: replaces the binding in the first frame that
      has one; reaching EMPTY fails. */
  function Set(chain: seq<Bindings>, x: string, v: Expr): Attempt<seq<Bindings>>
  {
    if |chain| == 0 then Thrown(Unbound(x))
    else if x in chain[0] then Ok([chain[0][x := v]] + chain[1..])
    else match Set(chain[1..], x, v)
      case Thrown(m) => Thrown(m)
      case Ok(rest) => Ok([chain[0]] + rest)
  }

  /** The static PRIMITIVES map of DefaultEnvironment. `sqrt` is not part of
      this model. */
  const PRIMITIVES: Bindings := map[
    "null?" := Primitive(IsNullOp),
    "true" := TRUE,
    "false" := FALSE,
    "error" := Primitive(ErrorOp),
    "apply" := Primitive(ApplyOp),
    "cons" := Primitive(ConsOp),
    "car" := Primitive(CarOp),
    "cdr" := Primitive(CdrOp),
    "pair?" := Primitive(IsPairOp),
    "+" := Primitive(AddOp),
    "-" := Primitive(SubtractOp),
    "*" := Primitive(MultiplyOp),
    "/" := Primitive(DivideOp),
    "display" := Primitive(DisplayOp),
    "newline" := Primitive(NewlineOp)
  ]

  // ---------------------------------------------------------------- lookup

  /** Lookup finds the innermost binding, and fails exactly when there is none. */
  lemma {:induction false} LookupFindsOwner(chain: seq<Bindings>, x: string)
    ensures Owner(chain, x).None? ==> Lookup(chain, x) == Thrown(Unbound(x))
    ensures Owner(chain, x).Some? ==> Lookup(chain, x) == Ok(chain[Owner(chain, x).value][x])
  {
    if |chain| > 0 && x !in chain[0] {
      LookupFindsOwner(chain[1..], x);
    }
  }

  lemma EmptyBindsNothing(x: string, v: Expr)
    ensures Lookup([], x) == Thrown(Unbound(x))
    ensures Set([], x, v) == Thrown(Unbound(x))
    ensures Define([], x, v) == []
  {
  }

  // ---------------------------------------------------------------- define

  /** After a definition in a frame, the name denotes the defined value, every
      other name what it denoted before, and the enclosing frames are untouched. */
  lemma DefineThenLookup(chain: seq<Bindings>, x: string, v: Expr, y: string)
    requires |chain| > 0
    ensures Lookup(Define(chain, x, v), x) == Ok(v)
    ensures y != x ==> Lookup(Define(chain, x, v), y) == Lookup(chain, y)
    ensures |Define(chain, x, v)| == |chain| && Define(chain, x, v)[1..] == chain[1..]
  {
    assert Define(chain, x, v)[1..] == chain[1..];
  }

  /** A definition in an inner frame hides an outer binding without changing it. */
  lemma DefineShadows(chain: seq<Bindings>, x: string, v: Expr, k: nat)
    requires 0 < k < |chain| && x in chain[k]
    ensures Lookup(Define(chain, x, v), x) == Ok(v)
    ensures Define(chain, x, v)[k] == chain[k]
    ensures Lookup(Define(chain, x, v)[k..], x) == Ok(chain[k][x])
  {
    var d := Define(chain, x, v);
    assert d[k..] == chain[k..];
  }

  // ---------------------------------------------------------------- set

  /** `set` succeeds exactly when some frame binds the name, and then it
      changes that frame's binding of the name and nothing else. */
  lemma {:induction false} SetChangesOwner(chain: seq<Bindings>, x: string, v: Expr)
    ensures Set(chain, x, v).Ok? <==> Owner(chain, x).Some?
    ensures Set(chain, x, v).Thrown? ==> Set(chain, x, v) == Thrown(Unbound(x))
    ensures Owner(chain, x).Some? ==>
      var k := Owner(chain, x).value;
      Set(chain, x, v).value == chain[k := chain[k][x := v]]
  {
    if |chain| > 0 && x !in chain[0] {
      SetChangesOwner(chain[1..], x, v);
      if Owner(chain, x).Some? {
        var k := Owner(chain, x).value;
        assert [chain[0]] + chain[1..][k - 1 := chain[k][x := v]] == chain[k := chain[k][x := v]];
      }
    }
  }

  /** `set` never adds a name: every frame keeps the names it had. */
  lemma SetKeepsNames(chain: seq<Bindings>, x: string, v: Expr)
    requires Set(chain, x, v).Ok?
    ensures |Set(chain, x, v).value| == |chain|
    ensures forall j :: 0 <= j < |chain| ==> Set(chain, x, v).value[j].Keys == chain[j].Keys
  {
    SetChangesOwner(chain, x, v);
  }

  /** After `set`, the name denotes the new value and every other name what
      it denoted before. */
  lemma {:induction false} SetThenLookup(chain: seq<Bindings>, x: string, v: Expr, y: string)
    requires Set(chain, x, v).Ok?
    ensures Lookup(Set(chain, x, v).value, x) == Ok(v)
    ensures y != x ==> Lookup(Set(chain, x, v).value, y) == Lookup(chain, y)
  {
    var after := Set(chain, x, v).value;
    if x in chain[0] {
      assert after[0] == chain[0][x := v] && after[1..] == chain[1..];
    } else {
      SetThenLookup(chain[1..], x, v, y);
      assert after[0] == chain[0] && after[1..] == Set(chain[1..], x, v).value;
    }
  }
}
