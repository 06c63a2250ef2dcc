/** Parser.Reference: a mutable cell holding a parser, so that a grammar can
    use a parser before it is built.

    The cell starts out empty (Java's null). Its lazy parser looks into the
    cell each time it is applied, so parsers built around it before `set` see
    whatever is stored there when they finally run. */
module References {
  import opened Wrappers
  import opened Results
  import opened Parsers
  import Syntax
  import Ast

  const NULL_POINTER := "NullPointerException"

  class Reference<X> {
    /** The stored parser; `None` until `Set` is called. */
    var target: Option<Parser<X>>

    /** Parser.reference(): a new, empty cell. */
    constructor ()
      ensures target == None
    {
      target := None;
    }

    /** AtomicReference.set. */
    method Set(p: Parser<X>)
      modifies this
      ensures target == Some(p)
    {
      target := Some(p);
    }

    /** Applying the lazy parser of `parser()`: the parser stored at the time
        of the call is applied, and an empty cell is dereferenced as null. */
    method Apply(input: string) returns (r: Reply<X>)
      ensures target.None? ==> r == Thrown(NULL_POINTER)
      ensures target.Some? ==> r == target.value(input)
    {
      match target
      case None => r := Thrown(NULL_POINTER);
      case Some(p) => r := p(input);
    }
  }

  /** A parser captured before `set` fails before it and sees the binding
      after it. */
  method LateBinding<X>(p: Parser<X>, input: string) returns (before: Reply<X>, after: Reply<X>)
    ensures before == Thrown(NULL_POINTER)
    ensures after == p(input)
  {
    var cell := new Reference<X>();
    before := cell.Apply(input);
    cell.Set(p);
    after := cell.Apply(input);
  }

  /** REF_EXPRESSION once set to EXPRESSION parses as EXPRESSION does. */
  method ExpressionReference(input: string) returns (r: Reply<Ast.Expr>)
    ensures r == Syntax.ParseExpression(input)
  {
    var cell := new Reference<Ast.Expr>();
    cell.Set(Syntax.Expression());
    r := cell.Apply(input);
  }
}
