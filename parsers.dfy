/** Parsers.java and Parser.java: parser combinators over a string cursor.

    A parser takes the text still to be read. It either gives back a Result,
    or throws, which here is `Thrown` and is handed on unchanged by every
    combinator, as a Java exception would be. */
module Parsers {
  import opened Wrappers
  import opened Results
  import Strings
  import Characters

  type Reply<X> = Attempt<Result<X>>

  type Parser<X> = string -> Reply<X>

  predicate Succeeds<X>(a: Reply<X>) {
    a.Ok? && a.value.Success?
  }

  predicate Fails<X>(a: Reply<X>) {
    a.Ok? && a.value.Failure?
  }

  /** `r` is what is left of `s` once a prefix has been read. */
  predicate IsSuffix(r: string, s: string) {
    |r| <= |s| && s[|s| - |r|..] == r
  }

  /** Every failure reports the very input the parser was given. */
  ghost predicate Rewinds<X>(p: Parser<X>) {
    forall s :: Fails(p(s)) ==> p(s).value.remaining == s
  }

  /** Every success leaves a suffix of its input. */
  ghost predicate Advances<X>(p: Parser<X>) {
    forall s :: Succeeds(p(s)) ==> IsSuffix(p(s).value.remaining, s)
  }

  ghost predicate WellBehaved<X>(p: Parser<X>) {
    Rewinds(p) && Advances(p)
  }

  /** Every success reads at least one character. */
  ghost predicate Consumes<X>(p: Parser<X>) {
    forall s :: Succeeds(p(s)) ==> |p(s).value.remaining| < |s|
  }

  lemma SuffixTransitive(a: string, b: string, c: string)
    requires IsSuffix(a, b) && IsSuffix(b, c)
    ensures IsSuffix(a, c)
  {
    assert c[|c| - |a|..] == c[|c| - |b|..][|b| - |a|..];
  }

  // ---------------------------------------------------------------- primitives

  function Unexpected<X>(): Parser<X> {
    (s: string) => Ok(Failure(s, "Unexpected"))
  }

  function CharacterSatisfying(test: char -> bool): Parser<char> {
    (s: string) =>
      if |s| == 0 then Ok(Failure(s, "Unexpected: `EOF`"))
      else if test(s[0]) then Ok(Success(s[1..], s[0]))
      else Ok(Failure(s, "Unexpected: `" + [s[0]] + "`"))
  }

  function Character(c: char): Parser<char> {
    (s: string) =>
      if |s| == 0 then Ok(Failure(s, "Unexpected: `EOF`"))
      else if s[0] == c then Ok(Success(s[1..], c))
      else Ok(Failure(s, "Expected: `" + [c] + "`, Actual: `" + [s[0]] + "`"))
  }

  function Whitespace(): Parser<char> {
    CharacterSatisfying(Characters.IsWhitespace)
  }

  function Digit(): Parser<char> {
    CharacterSatisfying(Characters.IsDigit)
  }

  function Letter(): Parser<char> {
    CharacterSatisfying(Characters.IsLetter)
  }

  function CharacterOf(chars: string): Parser<char> {
    CharacterSatisfying((x: char) => x in chars)
  }

  function CharacterExcept(chars: string): Parser<char> {
    CharacterSatisfying((x: char) => x !in chars)
  }

  /** Parsers.string: the literal `text` at the front of the input. */
  function Text(text: string): Parser<string> {
    (s: string) =>
      if |s| == 0 then Ok(Failure(s, "Unexpected: `EOF`"))
      else if Strings.StartsWith(s, text) then Ok(Success(s[|text|..], text))
      else Ok(Failure(s, "Expected: `" + text + "`"))
  }

  function Whitespaces(): Parser<string> {
    AsString(OneOrMore(Whitespace()))
  }

  function Digits(): Parser<string> {
    AsString(OneOrMore(Digit()))
  }

  function Letters(): Parser<string> {
    AsString(OneOrMore(Letter()))
  }

  /** A test on one character reads that character exactly when it passes,
      and otherwise fails where it started. */
  lemma CharacterSatisfyingReadsOne(test: char -> bool, s: string)
    ensures var a := CharacterSatisfying(test)(s);
      a.Ok? && (a.value.Success? <==> |s| > 0 && test(s[0]))
    ensures var a := CharacterSatisfying(test)(s);
      a.Ok? && a.value.Success? ==> a.value.value == s[0] && s == [s[0]] + a.value.remaining
    ensures var a := CharacterSatisfying(test)(s);
      a.Ok? && a.value.Failure? ==> a.value.remaining == s
  {
  }

  lemma CharacterReadsOne(c: char, s: string)
    ensures var a := Character(c)(s);
      a.Ok? && (a.value.Success? <==> |s| > 0 && s[0] == c)
    ensures var a := Character(c)(s);
      a.Ok? && a.value.Success? ==> a.value.value == c && s == [c] + a.value.remaining
    ensures var a := Character(c)(s);
      a.Ok? && a.value.Failure? ==> a.value.remaining == s
  {
  }

  /** Even the empty literal fails on empty input; otherwise a literal that is
      a prefix is read, and exactly its characters are dropped. */
  lemma TextReadsPrefix(text: string, s: string)
    ensures var a := Text(text)(s);
      a.Ok? && (a.value.Success? <==> |s| > 0 && Strings.StartsWith(s, text))
    ensures var a := Text(text)(s);
      a.Ok? && a.value.Success? ==> a.value.value == text && s == text + a.value.remaining
    ensures var a := Text(text)(s);
      a.Ok? && a.value.Failure? ==> a.value.remaining == s
  {
    if |s| > 0 && Strings.StartsWith(s, text) {
      assert s == s[..|text|] + s[|text|..];
    }
  }

  // ---------------------------------------------------------------- naming and mapping

  /** Parsers.named: a failure gets the name in front of its message, and keeps
      the remaining text the inner parser reported. */
  function Named<X>(name: string, p: Parser<X>): Parser<X> {
    (s: string) =>
      match p(s)
      case Thrown(m) => Thrown(m)
      case Ok(r) => if r.IsSuccess() then Ok(r) else Ok(Failure(r.remaining, "`" + name + "`. " + r.error))
  }

  /** Parsers.as with a function that may throw. */
  function AsOrThrow<X, F>(f: X -> Attempt<F>, p: Parser<X>): Parser<F> {
    (s: string) =>
      match p(s)
      case Thrown(m) => Thrown(m)
      case Ok(r) =>
        if r.IsFailure() then Ok(Failure(s, r.error))
        else match f(r.value)
          case Thrown(m) => Thrown(m)
          case Ok(v) => Ok(Success(r.remaining, v))
  }

  /** Parsers.as with a function that always returns. */
  function As<X, F>(f: X -> F, p: Parser<X>): Parser<F> {
    AsOrThrow((x: X) => Ok(f(x)), p)
  }

  /** Parsers.asString: the characters joined with the empty delimiter, which
      is the character sequence itself. */
  function AsString(p: Parser<seq<char>>): Parser<string> {
    As((cs: seq<char>) => cs, p)
  }

  /** Parsers.ignore: keeps what `p` reads and drops its value. */
  function Ignore<X>(p: Parser<X>): Parser<()> {
    (s: string) =>
      match p(s)
      case Thrown(m) => Thrown(m)
      case Ok(r) => if r.IsFailure() then Ok(Failure(s, r.error)) else Ok(Success(r.remaining, ()))
  }

  /** Parsers.optional: the inner success, or no value and nothing read. */
  function Optional<X>(p: Parser<X>): Parser<Option<X>> {
    (s: string) =>
      match p(s)
      case Thrown(m) => Thrown(m)
      case Ok(r) => if r.IsSuccess() then Ok(Success(r.remaining, Some(r.value))) else Ok(Success(s, None))
  }

  lemma NamedPrefixesError<X>(name: string, p: Parser<X>, s: string)
    ensures Succeeds(p(s)) ==> Named(name, p)(s) == p(s)
    ensures Fails(p(s)) ==> Named(name, p)(s) == Ok(Failure(p(s).value.remaining, "`" + name + "`. " + p(s).value.error))
  {
  }

  /** `as` maps the value of a success and keeps where it stopped; a failure of
      the inner parser restarts at the input. */
  lemma AsMapsValue<X, F>(f: X -> F, p: Parser<X>, s: string)
    ensures Succeeds(p(s)) ==> As(f, p)(s) == Ok(Success(p(s).value.remaining, f(p(s).value.value)))
    ensures Fails(p(s)) ==> As(f, p)(s) == Ok(Failure(s, p(s).value.error))
    ensures p(s).Thrown? ==> As(f, p)(s) == Thrown(p(s).message)
  {
  }

  /** `as` with a function that may throw succeeds exactly when the inner
      parser succeeds and the function returns, and passes a throw of either on. */
  lemma AsOrThrowMapsValue<X, F>(f: X -> Attempt<F>, p: Parser<X>, s: string)
    ensures Succeeds(AsOrThrow(f, p)(s)) <==> Succeeds(p(s)) && f(p(s).value.value).Ok?
    ensures Succeeds(AsOrThrow(f, p)(s)) ==> AsOrThrow(f, p)(s) == Ok(Success(p(s).value.remaining, f(p(s).value.value).value))
    ensures Succeeds(p(s)) && f(p(s).value.value).Thrown? ==> AsOrThrow(f, p)(s) == Thrown(f(p(s).value.value).message)
    ensures Fails(p(s)) ==> AsOrThrow(f, p)(s) == Ok(Failure(s, p(s).value.error))
  {
  }

  /** `asString` hands on what its parser gives. */
  lemma AsStringKeepsValue(p: Parser<seq<char>>, s: string)
    ensures Succeeds(p(s)) ==> AsString(p)(s) == p(s)
    ensures Fails(p(s)) ==> AsString(p)(s) == Ok(Failure(s, p(s).value.error))
    ensures p(s).Thrown? ==> AsString(p)(s) == p(s)
  {
    AsMapsValue((cs: seq<char>) => cs, p, s);
  }

  /** `optional` never fails, and without a match it reads nothing. */
  lemma OptionalNeverFails<X>(p: Parser<X>, s: string)
    ensures !Fails(Optional(p)(s))
    ensures Fails(p(s)) ==> Optional(p)(s) == Ok(Success(s, None))
    ensures Succeeds(p(s)) ==> Optional(p)(s) == Ok(Success(p(s).value.remaining, Some(p(s).value.value)))
  {
  }

  // ---------------------------------------------------------------- sequencing

  /** The values of `vs` put before the values of a success; failures and
      throws pass through. */
  function Prepend<X>(vs: seq<X>, a: Reply<seq<X>>): Reply<seq<X>> {
    match a
    case Thrown(m) => Thrown(m)
    case Ok(r) => if r.IsSuccess() then Ok(Success(r.remaining, vs + r.value)) else Ok(r)
  }

  lemma PrependTwice<X>(us: seq<X>, vs: seq<X>, a: Reply<seq<X>>)
    ensures Prepend(us, Prepend(vs, a)) == Prepend(us + vs, a)
  {
    if Succeeds(a) {
      assert us + (vs + a.value.value) == (us + vs) + a.value.value;
    }
  }

  /** Parsers.allOf as written: the parsers in turn, each from where the last
      stopped. A failure reports the position at which the failing parser
      started, because the loop overwrites its `input` as it goes. */
  function AllOfFrom<X>(ps: seq<Parser<X>>, at: string): Reply<seq<X>>
    decreases |ps|
  {
    if |ps| == 0 then Ok(Success(at, []))
    else match ps[0](at)
      case Thrown(m) => Thrown(m)
      case Ok(r) =>
        if r.IsFailure() then Ok(Failure(at, r.error))
        else Prepend([r.value], AllOfFrom(ps[1..], r.remaining))
  }

  function AllOf<X>(ps: seq<Parser<X>>): Parser<seq<X>> {
    (s: string) => AllOfFrom(ps, s)
  }

  /** `allOf` gives one value per parser, in order: the i-th is what the i-th
      parser read from where the parsers before it stopped. */
  lemma {:induction false} AllOfOneValueEach<X>(ps: seq<Parser<X>>, s: string)
    requires Succeeds(AllOf(ps)(s))
    ensures |AllOf(ps)(s).value.value| == |ps|
    ensures forall i :: 0 <= i < |ps| ==>
      Succeeds(AllOf(ps[..i])(s)) &&
      (var at := AllOf(ps[..i])(s).value.remaining;
       Succeeds(ps[i](at)) && AllOf(ps)(s).value.value[i] == ps[i](at).value.value)
    decreases |ps|
  {
    if |ps| > 0 {
      var r := ps[0](s).value;
      var rest := ps[1..];
      AllOfOneValueEach(rest, r.remaining);
      assert ps[..0] == [];
      forall i | 1 <= i < |ps|
        ensures AllOf(ps[..i])(s) == Prepend([r.value], AllOf(rest[..i - 1])(r.remaining))
      {
        assert ps[..i][0] == ps[0] && ps[..i][1..] == rest[..i - 1];
      }
    }
  }

  /** The failure position of `allOf` as written: once a first parser has read
      something, a failure of the second does not report the original input. */
  lemma AllOfFailureIsNotRewound()
    ensures AllOf([Character('a'), Character('b')])("ac") == Ok(Failure("c", "Expected: `b`, Actual: `c`"))
  {
    var ps := [Character('a'), Character('b')];
    assert ps[0]("ac") == Ok(Success("c", 'a'));
    assert "Expected: `" + ['b'] + "`, Actual: `" + ['c'] + "`" == "Expected: `b`, Actual: `c`";
    assert Character('b')("c") == Ok(Failure("c", "Expected: `b`, Actual: `c`"));
    assert ps[1..] == [Character('b')];
    assert AllOfFrom(ps[1..], "c") == Ok(Failure("c", "Expected: `b`, Actual: `c`"));
  }

  /** `allOf` as the rest of the library reports failures: at the original input. */
  function AllOfRewound<X>(ps: seq<Parser<X>>): Parser<seq<X>> {
    (s: string) =>
      match AllOfFrom(ps, s)
      case Thrown(m) => Thrown(m)
      case Ok(r) => if r.IsFailure() then Ok(Failure(s, r.error)) else Ok(r)
  }

  lemma AllOfRewoundIsWellBehaved<X>(ps: seq<Parser<X>>)
    requires forall i :: 0 <= i < |ps| ==> Advances(ps[i])
    ensures WellBehaved(AllOfRewound(ps))
  {
    forall s | Succeeds(AllOfRewound(ps)(s))
      ensures IsSuffix(AllOfRewound(ps)(s).value.remaining, s)
    {
      AllOfAdvances(ps, s);
    }
  }

  lemma {:induction false} AllOfAdvances<X>(ps: seq<Parser<X>>, s: string)
    requires forall i :: 0 <= i < |ps| ==> Advances(ps[i])
    ensures Succeeds(AllOfFrom(ps, s)) ==> IsSuffix(AllOfFrom(ps, s).value.remaining, s)
    decreases |ps|
  {
    if |ps| > 0 && Succeeds(ps[0](s)) {
      var r := ps[0](s).value;
      assert Advances(ps[0]);
      AllOfAdvances(ps[1..], r.remaining);
      if Succeeds(AllOfFrom(ps, s)) {
        SuffixTransitive(AllOfFrom(ps, s).value.remaining, r.remaining, s);
      }
    }
  }

  /** Parsers.anyOf: the alternatives in turn, each from the same input. */
  function FirstSuccess<X>(ps: seq<Parser<X>>, s: string): Reply<X>
    decreases |ps|
  {
    if |ps| == 0 then Ok(Failure(s, "Nothing"))
    else match ps[0](s)
      case Thrown(m) => Thrown(m)
      case Ok(r) => if r.IsSuccess() then Ok(r) else FirstSuccess(ps[1..], s)
  }

  function AnyOf<X>(ps: seq<Parser<X>>): Parser<X> {
    (s: string) => FirstSuccess(ps, s)
  }

  /** `anyOf` fails with "Nothing" at its input only when every alternative fails. */
  lemma {:induction false} AnyOfFailsWhenAllFail<X>(ps: seq<Parser<X>>, s: string)
    requires forall i :: 0 <= i < |ps| ==> Fails(ps[i](s))
    ensures AnyOf(ps)(s) == Ok(Failure(s, "Nothing"))
    decreases |ps|
  {
    if |ps| > 0 {
      assert Fails(ps[0](s));
      assert forall i :: 0 <= i < |ps| - 1 ==> ps[1..][i] == ps[i + 1];
      AnyOfFailsWhenAllFail(ps[1..], s);
    }
  }

  /** `anyOf` answers with the first alternative that does not fail, unchanged. */
  lemma {:induction false} AnyOfTakesFirstNonFailure<X>(ps: seq<Parser<X>>, s: string, k: nat)
    requires k < |ps| && !Fails(ps[k](s))
    requires forall i :: 0 <= i < k ==> Fails(ps[i](s))
    ensures AnyOf(ps)(s) == ps[k](s)
    decreases k
  {
    if k > 0 {
      assert Fails(ps[0](s));
      assert forall i :: 0 <= i < |ps| - 1 ==> ps[1..][i] == ps[i + 1];
      AnyOfTakesFirstNonFailure(ps[1..], s, k - 1);
    }
  }

  /** Of two alternatives, `anyOf` gives the second's reply when the first fails. */
  lemma AnyOfTakesSecond<X>(ps: seq<Parser<X>>, s: string)
    requires |ps| == 2 && Fails(ps[0](s)) && !Fails(ps[1](s))
    ensures AnyOf(ps)(s) == ps[1](s)
  {
    AnyOfTakesFirstNonFailure(ps, s, 1);
  }

  /** The first `k` alternatives all fail on `s`. */
  ghost predicate AllFail<X>(ps: seq<Parser<X>>, k: nat, s: string)
    requires k <= |ps|
    decreases k
  {
    k == 0 || (AllFail(ps, k - 1, s) && Fails(ps[k - 1](s)))
  }

  lemma {:induction false} AllFailEach<X>(ps: seq<Parser<X>>, k: nat, s: string)
    requires k <= |ps| && AllFail(ps, k, s)
    ensures forall i :: 0 <= i < k ==> Fails(ps[i](s))
    decreases k
  {
    if k > 0 {
      AllFailEach(ps, k - 1, s);
    }
  }

  lemma AnyOfAfterFailures<X>(ps: seq<Parser<X>>, s: string, k: nat)
    requires k < |ps| && AllFail(ps, k, s) && !Fails(ps[k](s))
    ensures AnyOf(ps)(s) == ps[k](s)
  {
    AllFailEach(ps, k, s);
    AnyOfTakesFirstNonFailure(ps, s, k);
  }

  lemma {:induction false} AnyOfIsWellBehaved<X>(ps: seq<Parser<X>>)
    requires forall i :: 0 <= i < |ps| ==> WellBehaved(ps[i])
    ensures WellBehaved(AnyOf(ps))
    decreases |ps|
  {
    if |ps| > 0 {
      AnyOfIsWellBehaved(ps[1..]);
      assert WellBehaved(ps[0]);
      assert forall s :: AnyOf(ps)(s) == (if ps[0](s).Ok? && ps[0](s).value.IsFailure() then AnyOf(ps[1..])(s) else ps[0](s));
    }
  }

  /** Parsers.separatedBy from `at`, for input `input`: every parser but the
      last is followed by a separator. */
  function SeparatedFrom<X, S>(separator: Parser<S>, ps: seq<Parser<X>>, input: string, at: string): Reply<seq<X>>
    requires |ps| >= 1
    decreases |ps|
  {
    match ps[0](at)
    case Thrown(m) => Thrown(m)
    case Ok(r) =>
      if r.IsFailure() then Ok(Failure(input, r.error))
      else if |ps| == 1 then Ok(Success(r.remaining, [r.value]))
      else match separator(r.remaining)
        case Thrown(m) => Thrown(m)
        case Ok(g) =>
          if g.IsFailure() then Ok(Failure(input, g.error))
          else Prepend([r.value], SeparatedFrom(separator, ps[1..], input, g.remaining))
  }

  /** The Java signature takes a first parser and any number more. */
  function SeparatedBy<X, S>(separator: Parser<S>, ps: seq<Parser<X>>): Parser<seq<X>>
    requires |ps| >= 1
  {
    (s: string) => SeparatedFrom(separator, ps, s, s)
  }

  /** `separatedBy` over n parsers succeeds only with exactly n values, and
      every failure restarts at the input. */
  lemma {:induction false} SeparatedByExactCount<X, S>(separator: Parser<S>, ps: seq<Parser<X>>, input: string, at: string)
    requires |ps| >= 1
    ensures Succeeds(SeparatedFrom(separator, ps, input, at)) ==> |SeparatedFrom(separator, ps, input, at).value.value| == |ps|
    ensures Fails(SeparatedFrom(separator, ps, input, at)) ==> SeparatedFrom(separator, ps, input, at).value.remaining == input
    decreases |ps|
  {
    if |ps| > 1 && Succeeds(ps[0](at)) && Succeeds(separator(ps[0](at).value.remaining)) {
      SeparatedByExactCount(separator, ps[1..], input, separator(ps[0](at).value.remaining).value.remaining);
    }
  }

  /** Every value `p` gives has the property. */
  ghost predicate Yields<X>(p: Parser<X>, property: X -> bool) {
    forall s :: Succeeds(p(s)) ==> property(p(s).value.value)
  }

  /** Parsers.before: `p` then `q`, keeping the value of `p`. */
  function Before<X, A>(p: Parser<X>, q: Parser<A>): Parser<X> {
    (s: string) =>
      match p(s)
      case Thrown(m) => Thrown(m)
      case Ok(r) =>
        if r.IsFailure() then Ok(Failure(s, r.error))
        else match q(r.remaining)
          case Thrown(m) => Thrown(m)
          case Ok(g) => if g.IsFailure() then Ok(Failure(s, g.error)) else Ok(Success(g.remaining, r.value))
  }

  /** Parsers.between: `b`, `p`, `a`, keeping the value of `p`. */
  function Between<B, X, A>(b: Parser<B>, p: Parser<X>, a: Parser<A>): Parser<X> {
    (s: string) =>
      match b(s)
      case Thrown(m) => Thrown(m)
      case Ok(gb) =>
        if gb.IsFailure() then Ok(Failure(s, gb.error))
        else match p(gb.remaining)
          case Thrown(m) => Thrown(m)
          case Ok(r) =>
            if r.IsFailure() then Ok(Failure(s, r.error))
            else match a(r.remaining)
              case Thrown(m) => Thrown(m)
              case Ok(ga) => if ga.IsFailure() then Ok(Failure(s, ga.error)) else Ok(Success(ga.remaining, r.value))
  }

  /** Parsers.after: `b` then `p`, keeping the value of `p`. */
  function After<B, X>(b: Parser<B>, p: Parser<X>): Parser<X> {
    (s: string) =>
      match b(s)
      case Thrown(m) => Thrown(m)
      case Ok(g) =>
        if g.IsFailure() then Ok(Failure(s, g.error))
        else match p(g.remaining)
          case Thrown(m) => Thrown(m)
          case Ok(r) => if r.IsFailure() then Ok(Failure(s, r.error)) else Ok(Success(r.remaining, r.value))
  }

  function Parenthesised<X>(p: Parser<X>): Parser<X> {
    Between(Text("("), p, Text(")"))
  }

  /** `between` keeps only the middle value, and only when all three parts
      succeed in turn; otherwise it fails at its input or throws. */
  lemma BetweenKeepsMiddle<B, X, A>(b: Parser<B>, p: Parser<X>, a: Parser<A>, s: string)
    ensures Succeeds(Between(b, p, a)(s)) <==>
      Succeeds(b(s)) && Succeeds(p(b(s).value.remaining)) && Succeeds(a(p(b(s).value.remaining).value.remaining))
    ensures Succeeds(Between(b, p, a)(s)) ==>
      Between(b, p, a)(s).value == Success(a(p(b(s).value.remaining).value.remaining).value.remaining, p(b(s).value.remaining).value.value)
    ensures Fails(Between(b, p, a)(s)) ==> Between(b, p, a)(s).value.remaining == s
  {
  }

  lemma BeforeKeepsFirst<X, A>(p: Parser<X>, q: Parser<A>, s: string)
    ensures Succeeds(Before(p, q)(s)) <==> Succeeds(p(s)) && Succeeds(q(p(s).value.remaining))
    ensures Succeeds(Before(p, q)(s)) ==>
      Before(p, q)(s).value == Success(q(p(s).value.remaining).value.remaining, p(s).value.value)
    ensures Fails(Before(p, q)(s)) ==> Before(p, q)(s).value.remaining == s
  {
  }

  lemma AfterKeepsSecond<B, X>(b: Parser<B>, p: Parser<X>, s: string)
    ensures Succeeds(After(b, p)(s)) <==> Succeeds(b(s)) && Succeeds(p(b(s).value.remaining))
    ensures Succeeds(After(b, p)(s)) ==> After(b, p)(s) == p(b(s).value.remaining)
    ensures Fails(After(b, p)(s)) ==> After(b, p)(s).value.remaining == s
  {
  }

  /** `between` and `after` give the value of the parser they wrap. */
  lemma BetweenYields<B, X, A>(b: Parser<B>, p: Parser<X>, a: Parser<A>, property: X -> bool)
    requires Yields(p, property)
    ensures Yields(Between(b, p, a), property)
  {
    forall s | Succeeds(Between(b, p, a)(s))
      ensures property(Between(b, p, a)(s).value.value)
    {
      BetweenKeepsMiddle(b, p, a, s);
    }
  }

  lemma AfterYields<B, X>(b: Parser<B>, p: Parser<X>, property: X -> bool)
    requires Yields(p, property)
    ensures Yields(After(b, p), property)
  {
    forall s | Succeeds(After(b, p)(s))
      ensures property(After(b, p)(s).value.value)
    {
      AfterKeepsSecond(b, p, s);
    }
  }

  lemma BetweenIsWellBehaved<B, X, A>(b: Parser<B>, p: Parser<X>, a: Parser<A>)
    requires Advances(b) && Advances(p) && Advances(a)
    ensures WellBehaved(Between(b, p, a))
  {
    forall s | Succeeds(Between(b, p, a)(s))
      ensures IsSuffix(Between(b, p, a)(s).value.remaining, s)
    {
      var r1 := b(s).value.remaining;
      var r2 := p(r1).value.remaining;
      var r3 := a(r2).value.remaining;
      SuffixTransitive(r2, r1, s);
      SuffixTransitive(r3, r2, s);
    }
  }

  // ---------------------------------------------------------------- repetition

  /** The loop of Parsers.zeroOrMore from `at`. Where the Java loop would run
      forever, on a success that reads nothing, the repetition stops. */
  function RepeatFrom<X>(p: Parser<X>, at: string): Reply<seq<X>>
    decreases |at|
  {
    match p(at)
    case Thrown(m) => Thrown(m)
    case Ok(r) =>
      if r.IsSuccess() && |r.remaining| < |at| then Prepend([r.value], RepeatFrom(p, r.remaining))
      else Ok(Success(at, []))
  }

  function ZeroOrMore<X>(p: Parser<X>): Parser<seq<X>> {
    (s: string) => RepeatFrom(p, s)
  }

  /** Parsers.oneOrMore: a first success, then the zeroOrMore loop. */
  function OneOrMore<X>(p: Parser<X>): Parser<seq<X>> {
    (s: string) =>
      match p(s)
      case Thrown(m) => Thrown(m)
      case Ok(r) =>
        if r.IsFailure() then Ok(Failure(s, r.error))
        else Prepend([r.value], RepeatFrom(p, r.remaining))
  }

  /** The loop shared by both separated repetitions, after an item that ended
      at `at`: a separator and an item, again and again. When either is
      missing the repetition ends at `at`, so a trailing separator is not read. */
  function SeparatedRepeatFrom<X, S>(separator: Parser<S>, p: Parser<X>, at: string): Reply<seq<X>>
    decreases |at|
  {
    match separator(at)
    case Thrown(m) => Thrown(m)
    case Ok(g) =>
      if g.IsFailure() then Ok(Success(at, []))
      else match p(g.remaining)
        case Thrown(m) => Thrown(m)
        case Ok(r) =>
          if r.IsSuccess() && |r.remaining| < |at| then Prepend([r.value], SeparatedRepeatFrom(separator, p, r.remaining))
          else Ok(Success(at, []))
  }

  function ZeroOrMoreSeparatedBy<X, S>(separator: Parser<S>, p: Parser<X>): Parser<seq<X>> {
    (s: string) =>
      match p(s)
      case Thrown(m) => Thrown(m)
      case Ok(r) =>
        if r.IsFailure() then Ok(Success(s, []))
        else Prepend([r.value], SeparatedRepeatFrom(separator, p, r.remaining))
  }

  function OneOrMoreSeparatedBy<X, S>(separator: Parser<S>, p: Parser<X>): Parser<seq<X>> {
    (s: string) =>
      match p(s)
      case Thrown(m) => Thrown(m)
      case Ok(r) =>
        if r.IsFailure() then Ok(Failure(s, r.error))
        else Prepend([r.value], SeparatedRepeatFrom(separator, p, r.remaining))
  }

  /** The repetition loops never fail: they succeed or pass on a throw. */
  lemma {:induction false} RepeatNeverFails<X>(p: Parser<X>, at: string)
    ensures !Fails(RepeatFrom(p, at))
    decreases |at|
  {
    var a := p(at);
    if a.Ok? && a.value.IsSuccess() && |a.value.remaining| < |at| {
      RepeatNeverFails(p, a.value.remaining);
    }
  }

  lemma {:induction false} SeparatedRepeatNeverFails<X, S>(separator: Parser<S>, p: Parser<X>, at: string)
    ensures !Fails(SeparatedRepeatFrom(separator, p, at))
    decreases |at|
  {
    var g := separator(at);
    if g.Ok? && g.value.IsSuccess() {
      var a := p(g.value.remaining);
      if a.Ok? && a.value.IsSuccess() && |a.value.remaining| < |at| {
        SeparatedRepeatNeverFails(separator, p, a.value.remaining);
      }
    }
  }

  lemma ZeroOrMoreNeverFails<X>(p: Parser<X>, s: string)
    ensures !Fails(ZeroOrMore(p)(s))
  {
    RepeatNeverFails(p, s);
  }

  /** `zeroOrMore` is greedy: for a parser that reads something whenever it
      succeeds, the repetition stops only where that parser does not succeed. */
  lemma {:induction false} RepeatIsGreedy<X>(p: Parser<X>, at: string)
    requires Consumes(p)
    ensures Succeeds(RepeatFrom(p, at)) ==> !Succeeds(p(RepeatFrom(p, at).value.remaining))
    decreases |at|
  {
    var a := p(at);
    if Succeeds(a) {
      RepeatIsGreedy(p, a.value.remaining);
    }
  }

  /** `oneOrMore` fails exactly when its first attempt fails, and otherwise
      gives at least one value: the first attempt's value and then what the
      zeroOrMore loop gives from there. */
  lemma OneOrMoreIsOneThenZeroOrMore<X>(p: Parser<X>, s: string)
    ensures Fails(OneOrMore(p)(s)) <==> Fails(p(s))
    ensures Fails(p(s)) ==> OneOrMore(p)(s).value.remaining == s
    ensures Succeeds(p(s)) ==> OneOrMore(p)(s) == Prepend([p(s).value.value], ZeroOrMore(p)(p(s).value.remaining))
    ensures Succeeds(OneOrMore(p)(s)) ==> |OneOrMore(p)(s).value.value| >= 1
  {
    if Succeeds(p(s)) {
      RepeatNeverFails(p, p(s).value.remaining);
    }
  }

  /** `oneOrMoreSeparatedBy` gives at least one value whenever it succeeds. */
  lemma OneOrMoreSeparatedByNonEmpty<X, S>(separator: Parser<S>, p: Parser<X>, s: string)
    ensures Succeeds(OneOrMoreSeparatedBy(separator, p)(s)) ==> |OneOrMoreSeparatedBy(separator, p)(s).value.value| >= 1
    ensures Fails(OneOrMoreSeparatedBy(separator, p)(s)) <==> Fails(p(s))
  {
    if Succeeds(p(s)) {
      SeparatedRepeatNeverFails(separator, p, p(s).value.remaining);
    }
  }

  /** The two separated forms agree except on a first failure, which the
      zero form turns into an empty success. */
  lemma ZeroOrMoreSeparatedByRelatesToOneOrMore<X, S>(separator: Parser<S>, p: Parser<X>, s: string)
    ensures Fails(p(s)) ==> ZeroOrMoreSeparatedBy(separator, p)(s) == Ok(Success(s, []))
    ensures !Fails(p(s)) ==> ZeroOrMoreSeparatedBy(separator, p)(s) == OneOrMoreSeparatedBy(separator, p)(s)
    ensures !Fails(ZeroOrMoreSeparatedBy(separator, p)(s))
  {
    if Succeeds(p(s)) {
      SeparatedRepeatNeverFails(separator, p, p(s).value.remaining);
    }
  }

  /** A separated repetition ends right after an item: for an item parser that
      reads something whenever it succeeds, there is no separator-and-item
      pair left where it stopped. */
  lemma {:induction false} SeparatedRepeatLeavesNoPair<X, S>(separator: Parser<S>, p: Parser<X>, at: string)
    requires Consumes(p) && Advances(separator)
    ensures var a := SeparatedRepeatFrom(separator, p, at);
      Succeeds(a) ==> !(Succeeds(separator(a.value.remaining)) && Succeeds(p(separator(a.value.remaining).value.remaining)))
    decreases |at|
  {
    var g := separator(at);
    if Succeeds(g) {
      var a := p(g.value.remaining);
      if Succeeds(a) {
        assert IsSuffix(g.value.remaining, at);
        SeparatedRepeatLeavesNoPair(separator, p, a.value.remaining);
      }
    }
  }

  lemma {:induction false} RepeatAdvances<X>(p: Parser<X>, at: string)
    ensures Succeeds(RepeatFrom(p, at)) ==> IsSuffix(RepeatFrom(p, at).value.remaining, at)
    requires Advances(p)
    decreases |at|
  {
    var a := p(at);
    if Succeeds(a) && |a.value.remaining| < |at| {
      RepeatAdvances(p, a.value.remaining);
      if Succeeds(RepeatFrom(p, at)) {
        SuffixTransitive(RepeatFrom(p, at).value.remaining, a.value.remaining, at);
      }
    }
  }

  lemma OneOrMoreIsWellBehaved<X>(p: Parser<X>)
    requires Advances(p)
    ensures WellBehaved(OneOrMore(p))
  {
    forall s
      ensures Fails(OneOrMore(p)(s)) ==> OneOrMore(p)(s).value.remaining == s
      ensures Succeeds(OneOrMore(p)(s)) ==> IsSuffix(OneOrMore(p)(s).value.remaining, s)
    {
      OneOrMoreIsOneThenZeroOrMore(p, s);
      if Succeeds(p(s)) {
        var r := p(s).value.remaining;
        assert IsSuffix(r, s);
        RepeatAdvances(p, r);
        var a := RepeatFrom(p, r);
        if Succeeds(a) {
          assert OneOrMore(p)(s).value.remaining == a.value.remaining;
          SuffixTransitive(a.value.remaining, r, s);
        }
      }
    }
  }

  /** `p` reads one character exactly when it passes `test`, and otherwise
      fails: the shape of every single-character parser. */
  ghost predicate ReadsCharacter(p: Parser<char>, test: char -> bool) {
    forall s :: if |s| > 0 && test(s[0]) then p(s) == Ok(Success(s[1..], s[0])) else Fails(p(s))
  }

  lemma CharacterSatisfyingReadsCharacter(test: char -> bool)
    ensures ReadsCharacter(CharacterSatisfying(test), test)
  {
  }

  /** `characterExcept(chars)` reads one character exactly when it is not one of `chars`. */
  lemma CharacterExceptReadsCharacter(chars: string, test: char -> bool)
    requires forall c :: test(c) <==> c !in chars
    ensures ReadsCharacter(CharacterExcept(chars), test)
  {
  }

  /** Repeating a single-character parser reads the longest run of the
      characters it accepts, and gives that run as its value. */
  lemma {:induction false} RepeatReadsSpan(p: Parser<char>, test: char -> bool, at: string)
    requires ReadsCharacter(p, test)
    ensures var n := Characters.Span(test, at); RepeatFrom(p, at) == Ok(Success(at[n..], at[..n]))
    decreases |at|
  {
    if |at| > 0 && test(at[0]) {
      assert p(at) == Ok(Success(at[1..], at[0]));
      RepeatReadsSpan(p, test, at[1..]);
      var n := Characters.Span(test, at);
      assert at[1..][n - 1..] == at[n..];
      assert [at[0]] + at[1..][..n - 1] == at[..n];
    } else {
      assert Fails(p(at));
    }
  }

  /** `oneOrMore` of a single-character parser reads the longest run, which
      must not be empty. */
  lemma OneOrMoreReadsSpan(p: Parser<char>, test: char -> bool, s: string)
    requires ReadsCharacter(p, test)
    ensures var n := Characters.Span(test, s);
      (n == 0 ==> Fails(OneOrMore(p)(s)) && OneOrMore(p)(s).value.remaining == s) &&
      (n > 0 ==> OneOrMore(p)(s) == Ok(Success(s[n..], s[..n])))
  {
    var n := Characters.Span(test, s);
    if n > 0 {
      assert p(s) == Ok(Success(s[1..], s[0]));
      RepeatReadsSpan(p, test, s[1..]);
      assert s[1..][n - 1..] == s[n..];
      assert [s[0]] + s[1..][..n - 1] == s[..n];
    } else {
      assert Fails(p(s));
    }
  }

  /** `whitespaces` reads the whole run of whitespace at the front, at least one. */
  lemma WhitespacesReadsRun(s: string)
    ensures var n := Characters.Span(Characters.IsWhitespace, s);
      (n == 0 ==> Fails(Whitespaces()(s)) && Whitespaces()(s).value.remaining == s) &&
      (n > 0 ==> Whitespaces()(s) == Ok(Success(s[n..], s[..n])))
  {
    CharacterSatisfyingReadsCharacter(Characters.IsWhitespace);
    OneOrMoreReadsSpan(Whitespace(), Characters.IsWhitespace, s);
  }

  // ---------------------------------------------------------------- the loops of Parsers.java

  lemma PrependNothing<X>(a: Reply<seq<X>>)
    ensures Prepend([], a) == a
  {
    if Succeeds(a) {
      assert [] + a.value.value == a.value.value;
    }
  }

  /** The loop of Parsers.allOf. */
  method ApplyAllOf<X>(ps: seq<Parser<X>>, input: string) returns (reply: Reply<seq<X>>)
    ensures reply == AllOf(ps)(input)
  {
    var parsed: seq<X> := [];
    var at := input;
    var i := 0;
    PrependNothing(AllOfFrom(ps, input));
    while i < |ps|
      invariant 0 <= i <= |ps|
      invariant AllOfFrom(ps, input) == Prepend(parsed, AllOfFrom(ps[i..], at))
    {
      var result := ps[i](at);
      assert ps[i..][0] == ps[i] && ps[i..][1..] == ps[i + 1..];
      if result.Thrown? {
        return Thrown(result.message);
      }
      if result.value.IsFailure() {
        return Ok(Failure(at, result.value.error));
      }
      PrependTwice(parsed, [result.value.value], AllOfFrom(ps[i + 1..], result.value.remaining));
      parsed := parsed + [result.value.value];
      at := result.value.remaining;
      i := i + 1;
    }
    assert parsed + [] == parsed;
    return Ok(Success(at, parsed));
  }

  /** The loop of Parsers.zeroOrMore and the tail of Parsers.oneOrMore, with
      the values read so far in `parsed`. */
  method Repeat<X>(p: Parser<X>, parsed: seq<X>, at: string) returns (reply: Reply<seq<X>>)
    ensures reply == Prepend(parsed, RepeatFrom(p, at))
  {
    var values := parsed;
    var input := at;
    var result := p(input);
    while Succeeds(result) && |result.value.remaining| < |input|
      invariant result == p(input)
      invariant Prepend(parsed, RepeatFrom(p, at)) == Prepend(values, RepeatFrom(p, input))
      decreases |input|
    {
      PrependTwice(values, [result.value.value], RepeatFrom(p, result.value.remaining));
      values := values + [result.value.value];
      input := result.value.remaining;
      result := p(input);
    }
    if result.Thrown? {
      return Thrown(result.message);
    }
    assert values + [] == values;
    return Ok(Success(input, values));
  }

  method ApplyZeroOrMore<X>(p: Parser<X>, input: string) returns (reply: Reply<seq<X>>)
    ensures reply == ZeroOrMore(p)(input)
  {
    reply := Repeat(p, [], input);
    PrependNothing(RepeatFrom(p, input));
  }

  method ApplyOneOrMore<X>(p: Parser<X>, input: string) returns (reply: Reply<seq<X>>)
    ensures reply == OneOrMore(p)(input)
  {
    var result := p(input);
    if result.Thrown? {
      return Thrown(result.message);
    }
    if result.value.IsFailure() {
      return Ok(Failure(input, result.value.error));
    }
    reply := Repeat(p, [result.value.value], result.value.remaining);
  }

  /** The loop of Parsers.separatedBy. */
  method ApplySeparatedBy<X, S>(separator: Parser<S>, ps: seq<Parser<X>>, input: string) returns (reply: Reply<seq<X>>)
    requires |ps| >= 1
    ensures reply == SeparatedBy(separator, ps)(input)
  {
    var parsed: seq<X> := [];
    var remaining := input;
    var index := 0;
    PrependNothing(SeparatedFrom(separator, ps, input, input));
    while index < |ps| - 1
      invariant 0 <= index <= |ps| - 1
      invariant SeparatedFrom(separator, ps, input, input) == Prepend(parsed, SeparatedFrom(separator, ps[index..], input, remaining))
    {
      assert ps[index..][0] == ps[index] && ps[index..][1..] == ps[index + 1..];
      var result := ps[index](remaining);
      if result.Thrown? {
        return Thrown(result.message);
      }
      if result.value.IsFailure() {
        return Ok(Failure(input, result.value.error));
      }
      var ignore := separator(result.value.remaining);
      if ignore.Thrown? {
        return Thrown(ignore.message);
      }
      if ignore.value.IsFailure() {
        return Ok(Failure(input, ignore.value.error));
      }
      PrependTwice(parsed, [result.value.value], SeparatedFrom(separator, ps[index + 1..], input, ignore.value.remaining));
      parsed := parsed + [result.value.value];
      remaining := ignore.value.remaining;
      index := index + 1;
    }
    assert ps[index..] == [ps[|ps| - 1]];
    var result := ps[|ps| - 1](remaining);
    if result.Thrown? {
      return Thrown(result.message);
    }
    if result.value.IsSuccess() {
      return Ok(Success(result.value.remaining, parsed + [result.value.value]));
    }
    return Ok(Failure(input, result.value.error));
  }

  /** The loop shared by the two separated repetitions, after an item that
      ended at `at`, with the values read so far in `parsed`. */
  method RepeatSeparated<X, S>(separator: Parser<S>, p: Parser<X>, parsed: seq<X>, at: string) returns (reply: Reply<seq<X>>)
    ensures reply == Prepend(parsed, SeparatedRepeatFrom(separator, p, at))
  {
    var values := parsed;
    var input := at;
    while true
      invariant Prepend(parsed, SeparatedRepeatFrom(separator, p, at)) == Prepend(values, SeparatedRepeatFrom(separator, p, input))
      decreases |input|
    {
      var ignore := separator(input);
      if ignore.Thrown? {
        return Thrown(ignore.message);
      }
      if ignore.value.IsFailure() {
        break;
      }
      var result := p(ignore.value.remaining);
      if result.Thrown? {
        return Thrown(result.message);
      }
      if result.value.IsFailure() || |result.value.remaining| >= |input| {
        break;
      }
      PrependTwice(values, [result.value.value], SeparatedRepeatFrom(separator, p, result.value.remaining));
      values := values + [result.value.value];
      input := result.value.remaining;
    }
    assert values + [] == values;
    return Ok(Success(input, values));
  }

  method ApplyZeroOrMoreSeparatedBy<X, S>(separator: Parser<S>, p: Parser<X>, input: string) returns (reply: Reply<seq<X>>)
    ensures reply == ZeroOrMoreSeparatedBy(separator, p)(input)
  {
    var result := p(input);
    if result.Thrown? {
      return Thrown(result.message);
    }
    if result.value.IsFailure() {
      return Ok(Success(input, []));
    }
    reply := RepeatSeparated(separator, p, [result.value.value], result.value.remaining);
  }

  method ApplyOneOrMoreSeparatedBy<X, S>(separator: Parser<S>, p: Parser<X>, input: string) returns (reply: Reply<seq<X>>)
    ensures reply == OneOrMoreSeparatedBy(separator, p)(input)
  {
    var result := p(input);
    if result.Thrown? {
      return Thrown(result.message);
    }
    if result.value.IsFailure() {
      return Ok(Failure(input, result.value.error));
    }
    reply := RepeatSeparated(separator, p, [result.value.value], result.value.remaining);
  }

  /** The loop of Parsers.anyOf. */
  method ApplyAnyOf<X>(ps: seq<Parser<X>>, input: string) returns (reply: Reply<X>)
    ensures reply == AnyOf(ps)(input)
  {
    var i := 0;
    while i < |ps|
      invariant 0 <= i <= |ps|
      invariant FirstSuccess(ps, input) == FirstSuccess(ps[i..], input)
    {
      assert ps[i..][0] == ps[i] && ps[i..][1..] == ps[i + 1..];
      var result := ps[i](input);
      if result.Thrown? || result.value.IsSuccess() {
        return result;
      }
      i := i + 1;
    }
    return Ok(Failure(input, "Nothing"));
  }
}
