/** The environments the evaluator works on, as values: a store of frames,
    each with its bindings and a link to the environment it extends. An
    `Env` names a frame of the store by its index; `Empty` is
    Environment.EMPTY.

    A frame is only ever made over one that already exists, so its link
    is a smaller index; a link that is not smaller ends the chain. */
module Stores {
  import opened Wrappers
  import opened Ast
  import Scopes

  datatype Frame = Frame(bindings: Scopes.Bindings, enclosing: Env)

  type Store = seq<Frame>

  /** Every frame extends EMPTY or an earlier frame. */
  predicate Ordered(st: Store) {
    forall i :: 0 <= i < |st| ==> st[i].enclosing.Empty? || st[i].enclosing.frame < i
  }

  /** Does the chain go on from frame `i` to its enclosing frame? */
  predicate Links(st: Store, i: nat)
    requires i < |st|
  {
    st[i].enclosing.At? && st[i].enclosing.frame < i
  }

  /** The maps an environment denotes, innermost first. */
  function Chain(st: Store, env: Env): seq<Scopes.Bindings>
    decreases if env.At? then env.frame + 1 else 0
  {
    if env.Empty? || env.frame >= |st| then []
    else [st[env.frame].bindings] + if Links(st, env.frame) then Chain(st, st[env.frame].enclosing) else []
  }

  /** The global environment: one frame holding the primitives, over EMPTY. */
  const GLOBAL: Store := [Frame(Scopes.PRIMITIVES, Empty)]

  function Lookup(st: Store, env: Env, x: string): Attempt<Expr> {
    Scopes.Lookup(Chain(st, env), x)
  }

  /** define: into the environment's own frame. */
  function Define(st: Store, env: Env, x: string, v: Expr): (r: Store)
    ensures |r| == |st|
  {
    if env.Empty? || env.frame >= |st| then st
    else st[env.frame := st[env.frame].(bindings := st[env.frame].bindings[x := v])]
  }

  /** set: into the nearest frame that binds the name. */
  function Set(st: Store, env: Env, x: string, v: Expr): (r: Attempt<Store>)
    ensures r.Ok? ==> |r.value| == |st|
    decreases if env.At? then env.frame + 1 else 0
  {
    if env.Empty? || env.frame >= |st| then Thrown(Scopes.Unbound(x))
    else if x in st[env.frame].bindings then
      Ok(st[env.frame := st[env.frame].(bindings := st[env.frame].bindings[x := v])])
    else if Links(st, env.frame) then Set(st, st[env.frame].enclosing, x, v)
    else Thrown(Scopes.Unbound(x))
  }

  /** extend: a new frame over the environment; EMPTY extended stays EMPTY. */
  function Extend(st: Store, env: Env, bindings: Scopes.Bindings): (r: (Env, Store))
    ensures env.Empty? ==> r == (Empty, st)
    ensures env.At? ==> r.0 == At(|st|) && r.1 == st + [Frame(bindings, env)]
  {
    if env.Empty? then (Empty, st) else (At(|st|), st + [Frame(bindings, env)])
  }

  // ---------------------------------------------------------------- the store against the chain

  /** A chain reads only frames at or below its start. */
  lemma {:induction false} ChainBelow(st: Store, st': Store, env: Env)
    requires env.At? ==> env.frame < |st| && env.frame < |st'|
    requires env.At? ==> forall j :: 0 <= j <= env.frame ==> st'[j] == st[j]
    ensures Chain(st', env) == Chain(st, env)
    decreases if env.At? then env.frame + 1 else 0
  {
    if env.At? && Links(st, env.frame) {
      ChainBelow(st, st', st[env.frame].enclosing);
    }
  }

  /** define changes the chain as Scopes.Define says. */
  lemma DefineDenotes(st: Store, env: Env, x: string, v: Expr)
    ensures Chain(Define(st, env, x, v), env) == Scopes.Define(Chain(st, env), x, v)
  {
    if env.At? && env.frame < |st| {
      var st' := Define(st, env, x, v);
      if Links(st, env.frame) {
        ChainBelow(st, st', st[env.frame].enclosing);
      }
    }
  }

  /** set changes the chain as Scopes.Set says, and fails as it does. */
  lemma {:induction false} SetDenotes(st: Store, env: Env, x: string, v: Expr)
    ensures Set(st, env, x, v).Thrown? <==> Scopes.Set(Chain(st, env), x, v).Thrown?
    ensures Set(st, env, x, v).Thrown? ==> Set(st, env, x, v) == Thrown(Scopes.Unbound(x))
    ensures Set(st, env, x, v).Ok? ==>
      Chain(Set(st, env, x, v).value, env) == Scopes.Set(Chain(st, env), x, v).value
    decreases if env.At? then env.frame + 1 else 0
  {
    Scopes.SetChangesOwner(Chain(st, env), x, v);
    if env.At? && env.frame < |st| {
      var i := env.frame;
      var chain := Chain(st, env);
      if x in st[i].bindings {
        var st' := Set(st, env, x, v).value;
        if Links(st, i) {
          ChainBelow(st, st', st[i].enclosing);
        }
      } else if Links(st, i) {
        var e := st[i].enclosing;
        SetDenotes(st, e, x, v);
        Scopes.SetChangesOwner(Chain(st, e), x, v);
        assert chain[1..] == Chain(st, e);
        if Set(st, env, x, v).Ok? {
          var st' := Set(st, env, x, v).value;
          SetOnlyBelow(st, e, x, v);
          assert st'[i] == st[i];
          assert Chain(st', env) == [st[i].bindings] + Chain(st', e);
        }
      }
    }
  }

  /** set leaves every frame above the environment's own as it was. */
  lemma {:induction false} SetOnlyBelow(st: Store, env: Env, x: string, v: Expr)
    requires Set(st, env, x, v).Ok?
    ensures env.At? && forall j :: env.frame < j < |st| ==> Set(st, env, x, v).value[j] == st[j]
    decreases if env.At? then env.frame + 1 else 0
  {
    if x !in st[env.frame].bindings {
      SetOnlyBelow(st, st[env.frame].enclosing, x, v);
    }
  }

  /** extend puts the new bindings in front of the chain, and every
      environment that existed keeps its chain. */
  lemma ExtendDenotes(st: Store, env: Env, bindings: Scopes.Bindings, other: Env)
    requires env.At? && env.frame < |st|
    requires other.At? ==> other.frame < |st|
    ensures Chain(Extend(st, env, bindings).1, Extend(st, env, bindings).0) == [bindings] + Chain(st, env)
    ensures Chain(Extend(st, env, bindings).1, other) == Chain(st, other)
  {
    var st' := Extend(st, env, bindings).1;
    ChainBelow(st, st', env);
    ChainBelow(st, st', other);
  }

  /** Extending keeps every link pointing to an earlier frame. */
  lemma ExtendKeepsOrder(st: Store, env: Env, bindings: Scopes.Bindings)
    requires Ordered(st) && (env.At? ==> env.frame < |st|)
    ensures Ordered(Extend(st, env, bindings).1)
  {
  }

  /** define and set change bindings only, never links. */
  lemma DefineSetKeepOrder(st: Store, env: Env, x: string, v: Expr)
    requires Ordered(st)
    ensures Ordered(Define(st, env, x, v))
    ensures Set(st, env, x, v).Ok? ==> Ordered(Set(st, env, x, v).value)
    decreases if env.At? then env.frame + 1 else 0
  {
    if env.At? && env.frame < |st| && x !in st[env.frame].bindings && Links(st, env.frame) {
      DefineSetKeepOrder(st, st[env.frame].enclosing, x, v);
    }
  }
}
