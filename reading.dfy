/** What the grammar of Syntax reads: every special form and the
    combination, read with one space between items, give the expression the
    Java classes build, and EXPRESSION gives the same on whole texts. */
module Reading {
  import opened Wrappers
  import opened Results
  import opened Parsers
  import opened Ast
  import opened Syntax
  import Utilities
  import Characters
  import Strings

  // ---------------------------------------------------------------- reading items one space apart

  /** `u` starts an item: it is not empty and does not start with whitespace. */
  predicate StartsItem(u: string) {
    |u| > 0 && !Characters.IsWhitespace(u[0])
  }

  /** What follows the last item of a separated repetition: no whitespace. */
  predicate EndsItems(rest: string) {
    |rest| == 0 || !Characters.IsWhitespace(rest[0])
  }

  /** `p` reads the item `x` at the front of `u` and leaves `rest`. */
  ghost predicate Reads<X>(p: Parser<X>, u: string, x: X, rest: string) {
    StartsItem(u) && p(u) == Ok(Success(rest, x)) && |rest| <= |u|
  }

  /** `p` reads the items `xs`, one space between each two, at the front of
      `u`, and leaves `rest`. */
  ghost predicate ReadsSeparated<X>(p: Parser<X>, u: string, xs: seq<X>, rest: string)
    decreases |xs|
  {
    |xs| > 0 && Succeeds(p(u)) && Reads(p, u, xs[0], p(u).value.remaining) &&
    var r := p(u).value.remaining;
    if |xs| == 1 then r == rest else |r| > 0 && r[0] == ' ' && ReadsSeparated(p, r[1..], xs[1..], rest)
  }

  /** The parsers `ps` read the items `xs`, one each, one space between each
      two, at the front of `u`, and leave `rest`. */
  ghost predicate ReadsEach<X>(ps: seq<Parser<X>>, u: string, xs: seq<X>, rest: string)
    decreases |ps|
  {
    |ps| == |xs| > 0 && Succeeds(ps[0](u)) && Reads(ps[0], u, xs[0], ps[0](u).value.remaining) &&
    var r := ps[0](u).value.remaining;
    if |ps| == 1 then r == rest else |r| > 0 && r[0] == ' ' && ReadsEach(ps[1..], r[1..], xs[1..], rest)
  }

  lemma {:induction false} ReadsSeparatedShortens<X>(p: Parser<X>, u: string, xs: seq<X>, rest: string)
    requires ReadsSeparated(p, u, xs, rest)
    ensures StartsItem(u) && |rest| <= |u|
    decreases |xs|
  {
    if |xs| > 1 {
      ReadsSeparatedShortens(p, p(u).value.remaining[1..], xs[1..], rest);
    }
  }

  /** One item read is a separated repetition of that item alone. */
  lemma ReadsAlone<X>(p: Parser<X>, u: string, x: X, rest: string)
    requires Reads(p, u, x, rest)
    ensures ReadsSeparated(p, u, [x], rest)
  {
  }

  /** An item read, a space, then more items read, is a separated repetition
      of all of them. */
  lemma ReadsThenSeparated<X>(p: Parser<X>, u: string, x: X, t: string, xs: seq<X>, rest: string)
    requires Reads(p, u, x, " " + t) && ReadsSeparated(p, t, xs, rest)
    ensures ReadsSeparated(p, u, [x] + xs, rest)
  {
    assert (" " + t)[1..] == t;
    assert ([x] + xs)[1..] == xs;
  }

  /** WHITESPACES reads a single space before an item. */
  lemma OneSpace(u: string)
    requires StartsItem(u)
    ensures Whitespaces()(" " + u) == Ok(Success(u, " "))
  {
    Characters.SpanOfRun(Characters.IsWhitespace, " ", u);
    WhitespacesReadsRun(" " + u);
    assert (" " + u)[1..] == u && (" " + u)[..1] == " ";
  }

  /** WHITESPACES fails where an item starts or the items end. */
  lemma NoSpace(u: string)
    requires EndsItems(u)
    ensures Fails(Whitespaces()(u)) && Whitespaces()(u).value.remaining == u
  {
    WhitespacesReadsRun(u);
  }

  /** A form reads its body between the parentheses. */
  lemma FormReads<X>(body: Parser<X>, u: string, x: X, rest: string)
    requires StartsItem(u) && body(u) == Ok(Success(")" + rest, x))
    ensures Form(body)("(" + u) == Ok(Success(rest, x))
  {
    var s := "(" + u;
    assert s[..1] == "(" && s[1..] == u;
    assert Text("(")(s) == Ok(Success(u, "("));
    NoSpace(u);
    NoSpace(")" + rest);
    assert (")" + rest)[..1] == ")" && (")" + rest)[1..] == rest;
  }

  /** A form whose body fails fails. */
  lemma FormFails<X>(body: Parser<X>, u: string)
    requires StartsItem(u) && Fails(body(u))
    ensures Fails(Form(body)("(" + u))
  {
    var s := "(" + u;
    assert s[..1] == "(" && s[1..] == u;
    NoSpace(u);
  }

  /** A keyword followed by one space hands the rest to its operands. */
  lemma KeywordReads<X>(keyword: string, operands: Parser<X>, v: string)
    requires StartsItem(v) && !Fails(operands(v))
    ensures Keyword(keyword, operands)(keyword + " " + v) == operands(v)
  {
    var s := keyword + " " + v;
    assert s[..|keyword|] == keyword && s[|keyword|..] == " " + v;
    OneSpace(v);
  }

  /** `keyword` stands at the front of `u`, with whitespace after it. */
  predicate KeywordAhead(u: string, keyword: string) {
    Strings.StartsWith(u, keyword) && |u| > |keyword| && Characters.IsWhitespace(u[|keyword|])
  }

  /** Without its keyword and whitespace ahead, a keyword form fails. */
  lemma KeywordFails<X>(keyword: string, operands: Parser<X>, u: string)
    requires !KeywordAhead(u, keyword)
    ensures Fails(Keyword(keyword, operands)(u))
  {
    if Strings.StartsWith(u, keyword) && |u| > 0 {
      var v := u[|keyword|..];
      assert Text(keyword)(u) == Ok(Success(v, keyword));
      NoSpace(v);
      assert Fails(After(Whitespaces(), operands)(v));
    } else {
      assert Fails(Text(keyword)(u));
    }
  }

  /** SEPARATED_BY reads one item with each of its parsers. */
  lemma {:induction false} SeparatedByReads<X>(ps: seq<Parser<X>>, input: string, u: string, xs: seq<X>, rest: string)
    requires ReadsEach(ps, u, xs, rest)
    ensures SeparatedFrom(Whitespaces(), ps, input, u) == Ok(Success(rest, xs))
    decreases |ps|
  {
    var r := ps[0](u).value.remaining;
    if |ps| == 1 {
      assert [xs[0]] == xs;
    } else {
      var v := r[1..];
      assert r == " " + v;
      assert StartsItem(v);
      OneSpace(v);
      SeparatedByReads(ps[1..], input, v, xs[1..], rest);
      assert [xs[0]] + xs[1..] == xs;
    }
  }

  /** The separated repetition stops where no whitespace follows. */
  lemma SeparatedRepeatEnds<X>(p: Parser<X>, rest: string)
    requires EndsItems(rest)
    ensures SeparatedRepeatFrom(Whitespaces(), p, rest) == Ok(Success(rest, []))
  {
    NoSpace(rest);
  }

  /** The separated repetition reads every item after a space. */
  lemma {:induction false} SeparatedRepeatReads<X>(p: Parser<X>, u: string, xs: seq<X>, rest: string)
    requires ReadsSeparated(p, u, xs, rest) && EndsItems(rest)
    ensures SeparatedRepeatFrom(Whitespaces(), p, " " + u) == Ok(Success(rest, xs))
    decreases |xs|
  {
    var r := p(u).value.remaining;
    OneSpace(u);
    assert (" " + u)[..1] == " ";
    if |xs| == 1 {
      SeparatedRepeatEnds(p, rest);
      assert [xs[0]] + [] == xs;
    } else {
      assert r == " " + r[1..];
      SeparatedRepeatReads(p, r[1..], xs[1..], rest);
      assert [xs[0]] + xs[1..] == xs;
    }
  }

  /** Both separated repetitions read all the items, when there is at least one. */
  lemma SeparatedRepetitionsRead<X>(p: Parser<X>, u: string, xs: seq<X>, rest: string)
    requires ReadsSeparated(p, u, xs, rest) && EndsItems(rest)
    ensures OneOrMoreSeparatedBy(Whitespaces(), p)(u) == Ok(Success(rest, xs))
    ensures ZeroOrMoreSeparatedBy(Whitespaces(), p)(u) == Ok(Success(rest, xs))
  {
    var r := p(u).value.remaining;
    if |xs| == 1 {
      SeparatedRepeatEnds(p, rest);
      assert [xs[0]] + [] == xs;
    } else {
      assert r == " " + r[1..];
      SeparatedRepeatReads(p, r[1..], xs[1..], rest);
      assert [xs[0]] + xs[1..] == xs;
    }
  }

  /** `name` can be the name of a symbol. */
  predicate IsName(name: string) {
    |name| > 0 && forall i :: 0 <= i < |name| ==> IsSymbolCharacter(name[i])
  }

  /** What may follow a symbol: no symbol character. */
  predicate EndsName(rest: string) {
    |rest| == 0 || !IsSymbolCharacter(rest[0])
  }

  /** SYMBOL reads a whole name. */
  lemma SymbolNameReads(name: string, rest: string)
    requires IsName(name) && EndsName(rest)
    ensures Reads(SymbolName(), name + rest, Symbol(name), rest)
  {
    var s := name + rest;
    Characters.SpanOfRun(IsSymbolCharacter, name, rest);
    SymbolNameReadsRun(s);
    assert s[..|name|] == name && s[|name|..] == rest;
    assert s[0] == name[0];
  }

  // ---------------------------------------------------------------- what the forms read

  /** The text of a keyword form: its opening, then the operands. */
  lemma OpeningText(opening: string, keyword: string, v: string)
    requires opening == "(" + keyword + " "
    ensures opening + v == "(" + (keyword + " " + v)
  {
  }

  /** A sequence of parsers fails where its first parser fails. */
  lemma SeparatedByFailsFirst<X, S>(separator: Parser<S>, ps: seq<Parser<X>>, s: string)
    requires |ps| >= 1 && Fails(ps[0](s))
    ensures Fails(SeparatedBy(separator, ps)(s))
  {
  }

  lemma AfterFailsFirst<B, X>(b: Parser<B>, p: Parser<X>, s: string)
    requires Fails(b(s))
    ensures Fails(After(b, p)(s))
  {
  }

  /** No symbol starts at an opening parenthesis. */
  lemma ParenthesisStartsNoName(w: string)
    ensures Fails(SymbolName()("(" + w))
  {
    SymbolNameReadsRun("(" + w);
  }

  /** A keyword form hands what its operands read to its builder. */
  lemma KeywordFormReads<X, F>(form: Parser<F>, opening: string, f: X -> Attempt<F>, keyword: string, operands: Parser<X>, v: string, xs: X, y: F, rest: string)
    requires form == AsOrThrow(f, Form(Keyword(keyword, operands))) && opening == "(" + keyword + " "
    requires StartsItem(keyword) && StartsItem(v) && operands(v) == Ok(Success(")" + rest, xs)) && f(xs) == Ok(y)
    ensures form(opening + v) == Ok(Success(rest, y))
  {
    KeywordReads(keyword, operands, v);
    assert (keyword + " " + v)[0] == keyword[0];
    FormReads(Keyword(keyword, operands), keyword + " " + v, xs, rest);
    OpeningText(opening, keyword, v);
    AsOrThrowMapsValue(f, Form(Keyword(keyword, operands)), opening + v);
  }

  lemma KeywordFormReadsAs<X, F>(form: Parser<F>, opening: string, f: X -> F, keyword: string, operands: Parser<X>, v: string, xs: X, rest: string)
    requires form == As(f, Form(Keyword(keyword, operands))) && opening == "(" + keyword + " "
    requires StartsItem(keyword) && StartsItem(v) && operands(v) == Ok(Success(")" + rest, xs))
    ensures form(opening + v) == Ok(Success(rest, f(xs)))
  {
    KeywordReads(keyword, operands, v);
    assert (keyword + " " + v)[0] == keyword[0];
    FormReads(Keyword(keyword, operands), keyword + " " + v, xs, rest);
    OpeningText(opening, keyword, v);
    AsMapsValue(f, Form(Keyword(keyword, operands)), opening + v);
  }

  /** Two parsers read two items one space apart. */
  lemma PairReads<X>(p: Parser<X>, q: Parser<X>, v: string, x: X, t: string, y: X, rest: string)
    requires Reads(p, v, x, " " + t) && Reads(q, t, y, rest)
    ensures SeparatedBy(Whitespaces(), [p, q])(v) == Ok(Success(rest, [x, y]))
  {
    var ps := [p, q];
    var xs := [x, y];
    assert ReadsEach(ps, v, xs, rest) by {
      assert (" " + t)[1..] == t && ps[1..] == [q] && xs[1..] == [y];
      assert ReadsEach(ps[1..], t, xs[1..], rest);
    }
    SeparatedByReads(ps, v, v, xs, rest);
  }

  /** QUOTE read as a symbol. */
  lemma QuoteKeywordReads(t: string)
    ensures Reads(QuoteKeyword(), "quote " + t, Symbol("quote"), " " + t)
  {
    var u := "quote " + t;
    assert u[..5] == "quote" && u[5..] == " " + t;
    AsMapsValue(Utilities.MakeSymbol, Text("quote"), u);
  }
}
