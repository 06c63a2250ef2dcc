/** Core.java: the primitive procedures bound in the global environment.

    Numbers are unwrapped to `Num`: a Java `Long` or a Java `Double`. Long
    arithmetic wraps around at 64 bits, as Java's does; Double arithmetic is
    exact arithmetic on reals here. */
module Core {
  import opened Wrappers
  import opened Ast
  import Strings
  import Utilities

  const NOT_A_NUMBER := "Expression is not a number: "
  const INVALID_ARGUMENTS := "Invalid number of arguments"
  const DIVISION_BY_ZERO := "Division by zero"
  const CLASS_CAST := "ClassCastException"

  const MODULUS: int := 0x1_0000_0000_0000_0000
  const HALF: int := 0x8000_0000_0000_0000

  /** Two's complement wrap-around to 64 bits. */
  function Wrap64(x: int): (r: int)
    ensures -HALF <= r < HALF
    ensures (r - x) % MODULUS == 0
  {
    (x + HALF) % MODULUS - HALF
  }

  lemma ModShift(z: int, k: int)
    ensures (z + MODULUS * k) % MODULUS == z % MODULUS
  {
  }

  /** Numbers that agree modulo 2^64 wrap to the same long. */
  lemma WrapCongruent(x: int, y: int)
    requires (x - y) % MODULUS == 0
    ensures Wrap64(x) == Wrap64(y)
  {
    var k := (x - y) / MODULUS;
    assert x + HALF == y + HALF + MODULUS * k;
    ModShift(y + HALF, k);
  }

  // ---------------------------------------------------------------- numbers

  datatype Num = Long(long: int) | Double(double: real)

  /** Number.doubleValue(). */
  function AsReal(n: Num): real {
    match n
    case Long(v) => v as real
    case Double(d) => d
  }

  /** Number.longValue(): a double is truncated toward zero. */
  function LongValue(n: Num): int {
    match n
    case Long(v) => v
    case Double(d) => if d >= 0.0 then d.Floor else -((-d).Floor)
  }

  /** unwrapNumber. */
  function Unwrap(e: Expr): (r: Attempt<Num>)
    ensures r.Ok? <==> Utilities.IsNumber(e)
    ensures r.Thrown? ==> r.message == NOT_A_NUMBER + Show(e)
  {
    match e
    case Integral(v) => Ok(Long(v))
    case Fractional(d) => Ok(Double(d))
    case _ => Thrown(NOT_A_NUMBER + Show(e))
  }

  /** The expression a result becomes: Integral for a Long, Fractional for a Double. */
  function Wrap(n: Num): (e: Expr)
    ensures Unwrap(e) == Ok(n)
  {
    match n
    case Long(v) => Integral(v)
    case Double(d) => Fractional(d)
  }

  /** mapUnwrapNumber: every argument unwrapped, or the failure of the first
      that is not a number. */
  function UnwrapAll(es: seq<Expr>): (r: Attempt<seq<Num>>)
    ensures r.Ok? ==> |r.value| == |es|
    ensures r.Thrown? ==> exists k :: 0 <= k < |es| && Unwrap(es[k]) == Thrown(r.message)
  {
    if |es| == 0 then Ok([])
    else match Unwrap(es[0])
      case Thrown(m) => Thrown(m)
      case Ok(n) =>
        match UnwrapAll(es[1..])
        case Thrown(m) => Thrown(m)
        case Ok(ns) => Ok([n] + ns)
  }

  /** Numbers unwrap one for one. */
  lemma {:induction false} UnwrapAllOfNumbers(es: seq<Expr>)
    requires forall i :: 0 <= i < |es| ==> Utilities.IsNumber(es[i])
    ensures UnwrapAll(es).Ok? && |UnwrapAll(es).value| == |es|
    ensures forall i :: 0 <= i < |es| ==> Wrap(UnwrapAll(es).value[i]) == es[i]
    decreases |es|
  {
    if |es| > 0 {
      UnwrapAllOfNumbers(es[1..]);
      var ns := UnwrapAll(es).value;
      assert forall i :: 1 <= i < |es| ==> ns[i] == UnwrapAll(es[1..]).value[i - 1] && es[i] == es[1..][i - 1];
    }
  }

  /** The first argument that is not a number decides the failure. */
  lemma {:induction false} UnwrapAllFailsAtFirst(es: seq<Expr>, k: nat)
    requires k < |es| && !Utilities.IsNumber(es[k])
    requires forall i :: 0 <= i < k ==> Utilities.IsNumber(es[i])
    ensures UnwrapAll(es) == Thrown(NOT_A_NUMBER + Show(es[k]))
    decreases k
  {
    if k > 0 {
      UnwrapAllFailsAtFirst(es[1..], k - 1);
    }
  }

  /** The loop of mapUnwrapNumber. */
  method MapUnwrapNumber(es: seq<Expr>) returns (r: Attempt<seq<Num>>)
    ensures r == UnwrapAll(es)
  {
    var ns: seq<Num> := [];
    var i := 0;
    while i < |es|
      invariant 0 <= i <= |es|
      invariant forall j :: 0 <= j < i ==> Utilities.IsNumber(es[j])
      invariant |ns| == i && forall j :: 0 <= j < i ==> Wrap(ns[j]) == es[j]
    {
      var n := Unwrap(es[i]);
      if n.Thrown? {
        UnwrapAllFailsAtFirst(es, i);
        return Thrown(n.message);
      }
      ns := ns + [n.value];
      i := i + 1;
    }
    UnwrapAllOfNumbers(es);
    assert forall j :: 0 <= j < |es| ==> ns[j] == UnwrapAll(es).value[j] by {
      forall j | 0 <= j < |es| ensures ns[j] == UnwrapAll(es).value[j] {
        assert Unwrap(Wrap(ns[j])) == Ok(ns[j]);
        assert Unwrap(Wrap(UnwrapAll(es).value[j])) == Ok(UnwrapAll(es).value[j]);
      }
    }
    assert ns == UnwrapAll(es).value;
    return Ok(ns);
  }

  // ---------------------------------------------------------------- +, - and *

  datatype Arith = Plus | Minus | Times

  function IntOp(op: Arith, x: int, y: int): int {
    match op
    case Plus => x + y
    case Minus => x - y
    case Times => x * y
  }

  function RealOp(op: Arith, x: real, y: real): real {
    match op
    case Plus => x + y
    case Minus => x - y
    case Times => x * y
  }

  /** One step of addNumbers, subtractNumbers or multiplyNumbers: two Longs
      give a Long, anything else a Double. */
  function Combine(op: Arith, a: Num, b: Num): Num {
    if a.Long? && b.Long? then Long(Wrap64(IntOp(op, a.long, b.long)))
    else Double(RealOp(op, AsReal(a), AsReal(b)))
  }

  /** The accumulator after the given numbers. */
  function Fold(op: Arith, acc: Num, ns: seq<Num>): Num
    decreases |ns|
  {
    if |ns| == 0 then acc else Combine(op, Fold(op, acc, ns[..|ns| - 1]), ns[|ns| - 1])
  }

  /** The starting value: 0L for + and -, 1L for *. */
  function Identity(op: Arith): Num {
    if op == Times then Long(1) else Long(0)
  }

  /** addNumbers, subtractNumbers and multiplyNumbers. */
  function Arithmetic(op: Arith, args: seq<Expr>): Attempt<Expr> {
    match UnwrapAll(args)
    case Thrown(m) => Thrown(m)
    case Ok(ns) => Ok(Wrap(Fold(op, Identity(op), ns)))
  }

  /** The loops of addNumbers, subtractNumbers and multiplyNumbers. */
  method ArithmeticNumbers(op: Arith, args: seq<Expr>) returns (r: Attempt<Expr>)
    ensures r == Arithmetic(op, args)
  {
    var ns := MapUnwrapNumber(args);
    if ns.Thrown? {
      return Thrown(ns.message);
    }
    var numbers := ns.value;
    var result := Identity(op);
    var i := 0;
    while i < |numbers|
      invariant 0 <= i <= |numbers|
      invariant result == Fold(op, Identity(op), numbers[..i])
    {
      var number := numbers[i];
      if result.Long? && number.Long? {
        result := Long(Wrap64(IntOp(op, result.long, number.long)));
      } else {
        result := Double(RealOp(op, AsReal(result), AsReal(number)));
      }
      assert numbers[..i + 1][..i] == numbers[..i];
      i := i + 1;
    }
    assert numbers[..i] == numbers;
    r := Ok(Wrap(result));
  }

  /** The same fold over unbounded integers. */
  function ExactFold(op: Arith, acc: int, xs: seq<int>): int
    decreases |xs|
  {
    if |xs| == 0 then acc else IntOp(op, ExactFold(op, acc, xs[..|xs| - 1]), xs[|xs| - 1])
  }

  function Longs(ns: seq<Num>): (xs: seq<int>)
    requires forall i :: 0 <= i < |ns| ==> ns[i].Long?
    ensures |xs| == |ns| && forall i :: 0 <= i < |ns| ==> xs[i] == ns[i].long
  {
    seq(|ns|, i requires 0 <= i < |ns| => ns[i].long)
  }

  /** Wrapping after each step is wrapping once at the end. */
  lemma WrapStep(op: Arith, x: int, y: int)
    ensures Wrap64(IntOp(op, Wrap64(x), y)) == Wrap64(IntOp(op, x, y))
  {
    var k := (Wrap64(x) - x) / MODULUS;
    assert Wrap64(x) == x + MODULUS * k;
    if op == Times {
      assert Wrap64(x) * y == x * y + MODULUS * (k * y);
      ModShift(x * y - x * y, k * y);
    }
    WrapCongruent(IntOp(op, Wrap64(x), y), IntOp(op, x, y));
  }

  /** Over Longs only, the result is a Long: the exact result wrapped to 64 bits. */
  lemma {:induction false} FoldOfLongs(op: Arith, a: int, ns: seq<Num>)
    requires -HALF <= a < HALF
    requires forall i :: 0 <= i < |ns| ==> ns[i].Long?
    ensures Fold(op, Long(a), ns) == Long(Wrap64(ExactFold(op, a, Longs(ns))))
    decreases |ns|
  {
    if |ns| > 0 {
      var front := ns[..|ns| - 1];
      FoldOfLongs(op, a, front);
      assert Longs(ns)[..|ns| - 1] == Longs(front);
      WrapStep(op, ExactFold(op, a, Longs(front)), ns[|ns| - 1].long);
    }
  }

  /** Once a Double is met, the accumulator stays a Double. */
  lemma {:induction false} DoubleIsContagious(op: Arith, acc: Num, ns: seq<Num>, k: nat)
    requires k < |ns| && ns[k].Double?
    ensures Fold(op, acc, ns).Double?
    decreases |ns|
  {
    if k < |ns| - 1 {
      DoubleIsContagious(op, acc, ns[..|ns| - 1], k);
    }
  }

  function Values(args: seq<Expr>): (xs: seq<int>)
    requires forall i :: 0 <= i < |args| ==> args[i].Integral?
    ensures |xs| == |args| && forall i :: 0 <= i < |args| ==> xs[i] == args[i].long
  {
    seq(|args|, i requires 0 <= i < |args| => args[i].long)
  }

  /** Integral arguments only: an Integral, the exact result wrapped to 64 bits. */
  lemma IntegralArithmetic(op: Arith, args: seq<Expr>)
    requires forall i :: 0 <= i < |args| ==> args[i].Integral?
    ensures Arithmetic(op, args) == Ok(Integral(Wrap64(ExactFold(op, Identity(op).long, Values(args)))))
  {
    UnwrapAllOfNumbers(args);
    var ns := UnwrapAll(args).value;
    assert Longs(ns) == Values(args);
    FoldOfLongs(op, Identity(op).long, ns);
  }

  /** A single Fractional argument makes the result Fractional. */
  lemma FractionalArithmetic(op: Arith, args: seq<Expr>, k: nat)
    requires forall i :: 0 <= i < |args| ==> Utilities.IsNumber(args[i])
    requires k < |args| && args[k].Fractional?
    ensures Arithmetic(op, args).Ok? && Arithmetic(op, args).value.Fractional?
  {
    UnwrapAllOfNumbers(args);
    var ns := UnwrapAll(args).value;
    assert Wrap(ns[k]) == args[k];
    DoubleIsContagious(op, Identity(op), ns, k);
  }

  /** (- a) is -a, and (- a b) is -a-b: subtraction starts from 0. */
  lemma SubtractionStartsFromZero(a: int, b: int)
    ensures Arithmetic(Minus, [Integral(a)]) == Ok(Integral(Wrap64(-a)))
    ensures Arithmetic(Minus, [Integral(a), Integral(b)]) == Ok(Integral(Wrap64(-a - b)))
  {
    IntegralArithmetic(Minus, [Integral(a)]);
    assert Values([Integral(a)]) == [a];
    IntegralArithmetic(Minus, [Integral(a), Integral(b)]);
    assert Values([Integral(a), Integral(b)]) == [a, b];
    assert [a, b][..1] == [a];
  }

  // ---------------------------------------------------------------- /

  /** The test each divisor passes. As written, a divisor fails it when its
      long value or its double value is zero, and the long value of a double
      is truncated: every divisor strictly between -1 and 1 fails. The
      corrected check fails zero only. */
  predicate Rejected(asWritten: bool, n: Num) {
    if asWritten then LongValue(n) == 0 || AsReal(n) == 0.0 else AsReal(n) == 0.0
  }

  /** The loop of divideNumbers over the divisors. */
  function Quotient(asWritten: bool, acc: Num, ds: seq<Num>): (r: Attempt<Num>)
    ensures r.Thrown? ==> r.message == DIVISION_BY_ZERO
    ensures r.Ok? && |ds| > 0 ==> r.value.Double?
    ensures r.Ok? && |ds| == 0 ==> r.value == acc
    decreases |ds|
  {
    if |ds| == 0 then Ok(acc)
    else if Rejected(asWritten, ds[0]) then Thrown(DIVISION_BY_ZERO)
    else Quotient(asWritten, Double(AsReal(acc) / AsReal(ds[0])), ds[1..])
  }

  /** divideNumbers, with the divisor check as written or corrected. */
  function DivideBy(asWritten: bool, args: seq<Expr>): Attempt<Expr> {
    if |args| < 1 then Thrown(INVALID_ARGUMENTS)
    else match Unwrap(args[0])
      case Thrown(m) => Thrown(m)
      case Ok(first) =>
        match UnwrapAll(args[1..])
        case Thrown(m) => Thrown(m)
        case Ok(ds) =>
          match Quotient(asWritten, first, ds)
          case Thrown(m) => Thrown(m)
          case Ok(q) => Ok(Wrap(q))
  }

  /** The loop of divideNumbers. */
  method DivideNumbers(asWritten: bool, args: seq<Expr>) returns (r: Attempt<Expr>)
    ensures r == DivideBy(asWritten, args)
  {
    if |args| < 1 {
      return Thrown(INVALID_ARGUMENTS);
    }
    var first := Unwrap(args[0]);
    if first.Thrown? {
      return Thrown(first.message);
    }
    var ds := MapUnwrapNumber(args[1..]);
    if ds.Thrown? {
      return Thrown(ds.message);
    }
    var divisors := ds.value;
    var result := first.value;
    var i := 0;
    while i < |divisors|
      invariant 0 <= i <= |divisors|
      invariant Quotient(asWritten, result, divisors[i..]) == Quotient(asWritten, first.value, divisors)
    {
      var number := divisors[i];
      if Rejected(asWritten, number) {
        return Thrown(DIVISION_BY_ZERO);
      }
      result := Double(AsReal(result) / AsReal(number));
      assert divisors[i..][1..] == divisors[i + 1..];
      i := i + 1;
    }
    r := Ok(Wrap(result));
  }

  /** With one argument, `/` gives it back unchanged, Integral or Fractional;
      with none it fails. */
  lemma DivideOne(asWritten: bool, e: Expr)
    requires Utilities.IsNumber(e)
    ensures DivideBy(asWritten, [e]) == Ok(e)
    ensures DivideBy(asWritten, []) == Thrown(INVALID_ARGUMENTS)
  {
    assert [e][1..] == [];
  }

  /** With two or more arguments, a result is always Fractional. */
  lemma DivideIsFractional(asWritten: bool, args: seq<Expr>)
    requires |args| >= 2 && DivideBy(asWritten, args).Ok?
    ensures DivideBy(asWritten, args).value.Fractional?
  {
  }

  /** The quotient fails exactly when some divisor is rejected. */
  lemma {:induction false} QuotientFailsIff(asWritten: bool, acc: Num, ds: seq<Num>)
    ensures Quotient(asWritten, acc, ds).Thrown? <==> exists k :: 0 <= k < |ds| && Rejected(asWritten, ds[k])
    decreases |ds|
  {
    if |ds| > 0 && !Rejected(asWritten, ds[0]) {
      QuotientFailsIff(asWritten, Double(AsReal(acc) / AsReal(ds[0])), ds[1..]);
      if exists k :: 0 <= k < |ds| && Rejected(asWritten, ds[k]) {
        var k :| 0 <= k < |ds| && Rejected(asWritten, ds[k]);
        assert ds[1..][k - 1] == ds[k];
      }
    }
  }

  /** With the corrected check, numbers divide unless a divisor is zero, and
      a zero divisor fails with "Division by zero". */
  lemma DivisionRejectsOnlyZero(args: seq<Expr>)
    requires |args| >= 1 && forall i :: 0 <= i < |args| ==> Utilities.IsNumber(args[i])
    ensures DivideBy(false, args) == Thrown(DIVISION_BY_ZERO) <==>
      exists k :: 1 <= k < |args| && AsReal(Unwrap(args[k]).value) == 0.0
    ensures DivideBy(false, args).Ok? || DivideBy(false, args) == Thrown(DIVISION_BY_ZERO)
  {
    var rest := args[1..];
    UnwrapAllOfNumbers(rest);
    var ds := UnwrapAll(rest).value;
    var first := Unwrap(args[0]).value;
    QuotientFailsIff(false, first, ds);
    forall k | 0 <= k < |ds|
      ensures ds[k] == Unwrap(args[k + 1]).value
    {
      assert Wrap(ds[k]) == rest[k] == args[k + 1];
      assert Unwrap(Wrap(ds[k])) == Ok(ds[k]);
    }
    if exists k :: 1 <= k < |args| && AsReal(Unwrap(args[k]).value) == 0.0 {
      var k :| 1 <= k < |args| && AsReal(Unwrap(args[k]).value) == 0.0;
      assert Rejected(false, ds[k - 1]);
    }
  }

  /** As written, (/ 1 0.5) fails with "Division by zero"; corrected, it is 2.0. */
  lemma HalfIsRejectedAsWritten()
    ensures DivideBy(true, [Integral(1), Fractional(0.5)]) == Thrown(DIVISION_BY_ZERO)
    ensures DivideBy(false, [Integral(1), Fractional(0.5)]) == Ok(Fractional(2.0))
  {
    var args := [Integral(1), Fractional(0.5)];
    assert args[1..] == [Fractional(0.5)];
    assert [Fractional(0.5)][1..] == [];
    assert UnwrapAll([]) == Ok([]);
    assert [Double(0.5)] + [] == [Double(0.5)];
    assert UnwrapAll([Fractional(0.5)]) == Ok([Double(0.5)]);
    assert LongValue(Double(0.5)) == 0;
  }

  // ---------------------------------------------------------------- error

  /** toStringUnquoted: a string's own text, anything else as printed. */
  function Unquoted(e: Expr): string {
    if e.Str? then e.text else Show(e)
  }

  function UnquotedAll(es: seq<Expr>): (ts: seq<string>)
    ensures |ts| == |es| && forall i :: 0 <= i < |es| ==> ts[i] == Unquoted(es[i])
  {
    seq(|es|, i requires 0 <= i < |es| => Unquoted(es[i]))
  }

  /** The message `error` throws. */
  function ErrorMessage(args: seq<Expr>): string {
    "Error: " + Strings.Joined(" ", UnquotedAll(args))
  }

  /** The loop of `error`: each argument after the current delimiter, which
      is empty before the first. The call always throws. */
  method Error(args: seq<Expr>) returns (r: Attempt<Expr>)
    ensures r == Thrown(ErrorMessage(args))
  {
    var result := "Error: ";
    var delimiter := "";
    var i := 0;
    while i < |args|
      invariant 0 <= i <= |args|
      invariant result == "Error: " + Strings.Joined(" ", UnquotedAll(args[..i]))
      invariant delimiter == if i == 0 then "" else " "
    {
      assert UnquotedAll(args[..i + 1])[..i] == UnquotedAll(args[..i]);
      result := result + delimiter + Unquoted(args[i]);
      delimiter := " ";
      i := i + 1;
    }
    assert args[..i] == args;
    r := Thrown(result);
  }

  /** The message is "Error: " and the arguments one space apart, strings
      without their quotes. */
  lemma ErrorMessageJoins(args: seq<Expr>, e: Expr)
    ensures ErrorMessage([]) == "Error: "
    ensures ErrorMessage([e]) == "Error: " + Unquoted(e)
    ensures args != [] ==> ErrorMessage(args + [e]) == ErrorMessage(args) + " " + Unquoted(e)
    ensures e.Str? ==> ErrorMessage([e]) == "Error: " + e.text
  {
    if args != [] {
      var ts := UnquotedAll(args + [e]);
      assert ts[..|ts| - 1] == UnquotedAll(args);
    }
  }

  // ---------------------------------------------------------------- pairs and tests

  /** CONS: a pair of the first two arguments. */
  function Cons(args: seq<Expr>): (r: Attempt<Expr>)
    ensures r.Ok? <==> |args| >= 2
    ensures r.Ok? ==> r.value == Pair(args[0], args[1])
    ensures r.Thrown? ==> r.message == Utilities.OUT_OF_BOUNDS
  {
    if |args| < 2 then Thrown(Utilities.OUT_OF_BOUNDS) else Ok(Pair(args[0], args[1]))
  }

  /** CAR: the first argument cast to a pair. A combination is a pair whose
      car is its head; the unit value refuses. */
  function Car(args: seq<Expr>): Attempt<Expr> {
    if |args| == 0 then Thrown(Utilities.OUT_OF_BOUNDS)
    else match args[0]
      case Pair(a, _) => Ok(a)
      case Combo(c) => Ast.Car(c)
      case _ => Thrown(CLASS_CAST)
  }

  /** CDR: as CAR, for the second half. */
  function Cdr(args: seq<Expr>): Attempt<Expr> {
    if |args| == 0 then Thrown(Utilities.OUT_OF_BOUNDS)
    else match args[0]
      case Pair(_, d) => Ok(d)
      case Combo(c) =>
        (match Ast.Cdr(c)
         case Thrown(m) => Thrown(m)
         case Ok(rest) => Ok(Combo(rest)))
      case _ => Thrown(CLASS_CAST)
  }

  function Truth(b: bool): Expr {
    if b then TRUE else FALSE
  }

  /** IS_NULL. */
  function IsNull(args: seq<Expr>): Attempt<Expr> {
    if |args| == 0 then Thrown(Utilities.OUT_OF_BOUNDS) else Ok(Truth(Utilities.IsNull(args[0])))
  }

  /** IS_PAIR. */
  function IsPair(args: seq<Expr>): Attempt<Expr> {
    if |args| == 0 then Thrown(Utilities.OUT_OF_BOUNDS) else Ok(Truth(Utilities.IsPair(args[0])))
  }

  /** DISPLAY: the printing is not part of this model, only the result. */
  function Display(args: seq<Expr>): Attempt<Expr> {
    if |args| == 0 then Thrown(Utilities.OUT_OF_BOUNDS) else Ok(UNIT)
  }

  /** car and cdr take a cons apart again, and the tests answer with the
      true and false symbols. */
  lemma ConsCarCdr(a: Expr, b: Expr)
    ensures Cons([a, b]) == Ok(Pair(a, b))
    ensures Car([Pair(a, b)]) == Ok(a) && Cdr([Pair(a, b)]) == Ok(b)
    ensures IsPair([Pair(a, b)]) == Ok(TRUE) && IsNull([Pair(a, b)]) == Ok(FALSE)
    ensures IsNull([UNIT]) == Ok(TRUE) && IsPair([UNIT]) == Ok(TRUE)
    ensures Car([UNIT]) == Thrown("car is not supported") && Cdr([UNIT]) == Thrown("cdr is not supported")
  {
    assert !Utilities.IsNull(Pair(a, b));
  }

  /** car and cdr of a list built by `make` are its head and its tail. */
  lemma CarCdrOfList(x: Expr, xs: seq<Expr>)
    ensures Car([Make([x] + xs)]) == Ok(x)
    ensures Cdr([Make([x] + xs)]) == Ok(Make(xs))
  {
    assert ([x] + xs)[1..] == xs;
  }

  /** Any argument that is neither a pair nor a list makes car and cdr fail. */
  lemma CarNeedsPair(e: Expr)
    requires !Utilities.IsPair(e)
    ensures Car([e]) == Thrown(CLASS_CAST) && Cdr([e]) == Thrown(CLASS_CAST)
    ensures IsPair([e]) == Ok(FALSE)
  {
  }
}
