/** Environment.java and DefaultEnvironment.java: a chain of frames, each a
    mutable map of bindings and a link to the environment it extends. A
    `Frame?` that is `null` stands for the sentinel Environment.EMPTY.

    Each method is specified against the chain of maps the environment
    denotes (`Chain`), and through that against the functions of `Scopes`. */
module Environments {
  import opened Wrappers
  import opened Ast
  import Scopes

  /** A HashMap<Symbol, Expression>, updated in place and possibly shared. */
  class Table {
    var entries: Scopes.Bindings

    constructor (entries: Scopes.Bindings)
      ensures this.entries == entries
    {
      this.entries := entries;
    }
  }

  /** The static PRIMITIVES map, filled by the static initializer. */
  method NewPrimitives() returns (t: Table)
    ensures fresh(t) && t.entries == Scopes.PRIMITIVES
  {
    t := new Table(Scopes.PRIMITIVES);
  }

  /** DefaultEnvironment. */
  class Frame {
    const enclosing: Frame?
    const bindings: Table
    /** The frames this one extends, nearest first. */
    ghost const outer: seq<Frame>

    /** `outer` lists the enclosing chain, and no two frames of the chain
        share a table. */
    ghost predicate Valid()
      decreases |outer|
    {
      if enclosing == null then outer == []
      else
        outer == [enclosing] + enclosing.outer && enclosing.Valid() &&
        bindings !in enclosing.Tables() && Tables() == {bindings} + enclosing.Tables()
    }

    ghost function Tables(): set<Table>
    {
      {bindings} + set i | 0 <= i < |outer| :: outer[i].bindings
    }

    /** The maps of the chain, this frame's first. */
    ghost function Maps(): seq<Scopes.Bindings>
      requires Valid()
      reads Tables()
      decreases |outer|
    {
      [bindings.entries] + if enclosing == null then [] else enclosing.Maps()
    }

    /** new DefaultEnvironment(enclosing, bindings). */
    constructor (enclosing: Frame?, bindings: Table)
      requires enclosing != null ==> enclosing.Valid() && bindings !in enclosing.Tables()
      ensures this.enclosing == enclosing && this.bindings == bindings
      ensures Valid()
    {
      this.enclosing := enclosing;
      this.bindings := bindings;
      this.outer := if enclosing == null then [] else [enclosing] + enclosing.outer;
      new;
      if enclosing != null {
        TablesOfExtension(this);
      }
    }

    /** new DefaultEnvironment(enclosing): the frame's table is the shared
        PRIMITIVES map itself, not a copy of it. */
    constructor Default(enclosing: Frame?, primitives: Table)
      requires enclosing != null ==> enclosing.Valid() && primitives !in enclosing.Tables()
      ensures this.enclosing == enclosing && this.bindings == primitives
      ensures Valid()
    {
      this.enclosing := enclosing;
      this.bindings := primitives;
      this.outer := if enclosing == null then [] else [enclosing] + enclosing.outer;
      new;
      if enclosing != null {
        TablesOfExtension(this);
      }
    }
  }

  lemma TablesOfExtension(f: Frame)
    requires f.enclosing != null && f.outer == [f.enclosing] + f.enclosing.outer
    ensures f.Tables() == {f.bindings} + f.enclosing.Tables()
  {
    var e := f.enclosing;
    forall t | t in f.Tables() ensures t in {f.bindings} + e.Tables() {
      if t != f.bindings {
        var i :| 0 <= i < |f.outer| && f.outer[i].bindings == t;
        if i > 0 {
          assert e.outer[i - 1].bindings == t;
        }
      }
    }
    forall t | t in e.Tables() ensures t in f.Tables() {
      if t == e.bindings {
        assert f.outer[0].bindings == t;
      } else {
        var i :| 0 <= i < |e.outer| && e.outer[i].bindings == t;
        assert f.outer[i + 1].bindings == t;
      }
    }
  }

  ghost predicate Valid(env: Frame?) {
    env == null || env.Valid()
  }

  ghost function Tables(env: Frame?): set<Table>
  {
    if env == null then {} else env.Tables()
  }

  /** What an environment denotes: EMPTY has no frames. */
  ghost function Chain(env: Frame?): seq<Scopes.Bindings>
    requires Valid(env)
    reads Tables(env)
  {
    if env == null then [] else env.Maps()
  }

  /** lookup: this frame's binding if it has one, else the enclosing
      environment's; EMPTY throws. */
  method Lookup(env: Frame?, x: string) returns (r: Attempt<Expr>)
    requires Valid(env)
    ensures r == Scopes.Lookup(Chain(env), x)
    decreases if env == null then 0 else |env.outer| + 1
  {
    if env == null {
      r := Thrown(Scopes.Unbound(x));
    } else if x in env.bindings.entries {
      r := Ok(env.bindings.entries[x]);
    } else {
      r := Lookup(env.enclosing, x);
    }
  }

  /** define: puts the binding into this frame's table, whatever the
      enclosing frames hold; on EMPTY it does nothing. */
  method Define(env: Frame?, x: string, v: Expr)
    requires Valid(env)
    modifies if env == null then {} else {env.bindings}
    ensures env != null ==> env.bindings.entries == old(env.bindings.entries)[x := v]
    ensures Chain(env) == Scopes.Define(old(Chain(env)), x, v)
  {
    if env != null {
      env.bindings.entries := env.bindings.entries[x := v];
    }
  }

  /** set: replaces the binding in the nearest frame whose table has the
      name, and no other; EMPTY throws. */
  method Set(env: Frame?, x: string, v: Expr) returns (r: Attempt<()>)
    requires Valid(env)
    modifies Tables(env)
    ensures Scopes.Set(old(Chain(env)), x, v).Thrown? ==>
      r == Thrown(Scopes.Unbound(x)) && Chain(env) == old(Chain(env))
    ensures Scopes.Set(old(Chain(env)), x, v).Ok? ==>
      r == Ok(()) && Chain(env) == Scopes.Set(old(Chain(env)), x, v).value
    decreases if env == null then 0 else |env.outer| + 1
  {
    if env == null {
      r := Thrown(Scopes.Unbound(x));
    } else if x in env.bindings.entries {
      env.bindings.entries := env.bindings.entries[x := v];
      r := Ok(());
    } else {
      r := Set(env.enclosing, x, v);
      Scopes.SetChangesOwner(old(Chain(env.enclosing)), x, v);
    }
  }

  /** extend: a new frame over this one, which is left as it is; EMPTY
      extended is EMPTY again, and the bindings are dropped. */
  method Extend(env: Frame?, bindings: Table) returns (e: Frame?)
    requires Valid(env)
    requires env != null ==> bindings !in env.Tables()
    ensures env == null ==> e == null
    ensures env != null ==> e != null && fresh(e) && e.enclosing == env && e.bindings == bindings
    ensures Valid(e)
    ensures env != null ==> Chain(e) == [bindings.entries] + Chain(env)
  {
    if env == null {
      e := null;
    } else {
      e := new Frame(env, bindings);
    }
  }

  /** Two environments made with the one-argument constructor share the
      PRIMITIVES table, so a definition through one is seen through the other. */
  method PrimitivesAreShared(x: string, v: Expr) returns (r: Attempt<Expr>)
    ensures r == Ok(v)
  {
    var primitives := NewPrimitives();
    var a := new Frame.Default(null, primitives);
    var b := new Frame.Default(null, primitives);
    Define(a, x, v);
    r := Lookup(b, x);
  }

  /** A definition in an extended frame is not seen from the frame it extends. */
  method DefinitionStaysLocal(x: string, v: Expr) returns (inner: Attempt<Expr>, outer: Attempt<Expr>)
    ensures inner == Ok(v)
    ensures outer == Scopes.Lookup([Scopes.PRIMITIVES], x)
  {
    var primitives := NewPrimitives();
    var global := new Frame.Default(null, primitives);
    var local := new Table(map[]);
    var e := Extend(global, local);
    Define(e, x, v);
    inner := Lookup(e, x);
    outer := Lookup(global, x);
  }
}
