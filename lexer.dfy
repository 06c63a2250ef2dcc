/** Lexer.java: a token-level front end that cuts the text of a
    PushbackReader into lexemes.

    The reader is the field `input`, the text not read yet. Reading a
    character and unreading it again is looking at `input[0]`; reading it for
    good drops it from `input`. */
module Lexing {
  import opened Wrappers
  import Characters

  const UNEXPECTED_EOF := "Unexpected EOF"

  predicate IsPunctuation(c: char) {
    c == '(' || c == ')' || c == '\''
  }

  predicate IsNotQuote(c: char) {
    c != '"'
  }

  /** Letters, digits and + - * / < = > ! ? make up an identifier. */
  predicate IsIdentifierCharacter(c: char) {
    Characters.IsLetterOrDigit(c) || c == '+' || c == '-' || c == '*' || c == '/'
    || c == '<' || c == '=' || c == '>' || c == '!' || c == '?'
  }

  // ---------------------------------------------------------------- the lexemes, as functions of the text

  /** The outcome of reading one lexeme, and the text left after it. */
  datatype Scanned = Scanned(lexeme: Attempt<string>, rest: string)

  /** findStringLiteral: a double quote, everything up to the next double
      quote, and that quote. Running into the end first is an error, and by
      then the whole text has been read. */
  function StringLexeme(s: string): Scanned {
    if |s| == 0 || s[0] != '"' then Scanned(Ok(""), s)
    else
      var n := Characters.Span(IsNotQuote, s[1..]);
      if n + 1 < |s| then Scanned(Ok(s[..n + 2]), s[n + 2..])
      else Scanned(Thrown(UNEXPECTED_EOF), [])
  }

  /** findLexeme: after the whitespace, the first rule that reads something:
      one punctuation character, a number, a string, an identifier. When none
      does, the lexeme is empty and nothing more is read. */
  function Scan(s: string): Scanned {
    var t := s[Characters.Span(Characters.IsWhitespace, s)..];
    if |t| > 0 && IsPunctuation(t[0]) then Scanned(Ok(t[..1]), t[1..])
    else if Characters.DigitRun(t) > 0 then Scanned(Ok(t[..Characters.DigitRun(t)]), t[Characters.DigitRun(t)..])
    else if |t| > 0 && t[0] == '"' then StringLexeme(t)
    else
      var n := Characters.Span(IsIdentifierCharacter, t);
      Scanned(Ok(t[..n]), t[n..])
  }

  // ---------------------------------------------------------------- the reader

  class Lexer {
    /** What the PushbackReader has still to give. */
    var input: string

    constructor (text: string)
      ensures input == text
    {
      input := text;
    }

    /** Reads characters as long as they pass `test`, and unreads the first
        one that does not. */
    method ReadWhile(test: char -> bool) returns (r: string)
      modifies this
      ensures r == old(input)[..Characters.Span(test, old(input))]
      ensures input == old(input)[|r|..]
    {
      r := "";
      while |input| > 0 && test(input[0])
        invariant old(input) == r + input
        invariant forall i :: 0 <= i < |r| ==> test(r[i])
        decreases |input|
      {
        r := r + [input[0]];
        input := input[1..];
      }
      Characters.SpanOfRun(test, r, input);
    }

    method FindWhitespaces() returns (r: string)
      modifies this
      ensures r == old(input)[..Characters.Span(Characters.IsWhitespace, old(input))]
      ensures input == old(input)[|r|..]
    {
      r := ReadWhile(Characters.IsWhitespace);
    }

    method FindOneCharacterLexeme() returns (r: string)
      modifies this
      ensures r == if |old(input)| > 0 && IsPunctuation(old(input)[0]) then old(input)[..1] else ""
      ensures input == old(input)[|r|..]
    {
      r := "";
      if |input| > 0 && IsPunctuation(input[0]) {
        r := [input[0]];
        input := input[1..];
      }
    }

    method FindNumberLiteral() returns (r: string)
      modifies this
      ensures r == old(input)[..Characters.DigitRun(old(input))]
      ensures input == old(input)[|r|..]
    {
      r := ReadWhile(Characters.IsDigit);
    }

    method FindStringLiteral() returns (r: Attempt<string>)
      modifies this
      ensures Scanned(r, input) == StringLexeme(old(input))
    {
      if |input| == 0 || input[0] != '"' {
        r := Ok("");
        return;
      }
      var quote := input[0];
      input := input[1..];
      var body := ReadWhile(IsNotQuote);
      if |input| > 0 {
        r := Ok([quote] + body + [input[0]]);
        input := input[1..];
        assert r.value == old(input)[..|body| + 2];
      } else {
        r := Thrown(UNEXPECTED_EOF);
      }
    }

    method FindIdentifier() returns (r: string)
      modifies this
      ensures r == old(input)[..Characters.Span(IsIdentifierCharacter, old(input))]
      ensures input == old(input)[|r|..]
    {
      r := ReadWhile(IsIdentifierCharacter);
    }

    /** findLexeme, and nextLexeme with it. */
    method FindLexeme() returns (r: Attempt<string>)
      modifies this
      ensures Scanned(r, input) == Scan(old(input))
    {
      var skipped := FindWhitespaces();
      var single := FindOneCharacterLexeme();
      if single != "" {
        return Ok(single);
      }
      var number := FindNumberLiteral();
      if number != "" {
        return Ok(number);
      }
      r := FindStringLiteral();
      if r.Thrown? || r.value != "" {
        return;
      }
      var identifier := FindIdentifier();
      r := Ok(identifier);
    }
  }

  // ---------------------------------------------------------------- the iterator

  /** The iterator of Lexer.iterator(): one lexeme read ahead by hasNext. */
  class LexemeIterator {
    const lexer: Lexer
    var next: string
    /** The read-ahead lexeme has been handed out, or none was read yet. */
    var nextDeployed: bool

    constructor (lexer: Lexer)
      ensures this.lexer == lexer && nextDeployed
    {
      this.lexer := lexer;
      next := "";
      nextDeployed := true;
    }

    /** Reads a lexeme ahead unless one is waiting; there is a next element
        when that lexeme is not empty. Asking again reads nothing more. */
    method HasNext() returns (r: Attempt<bool>)
      modifies this, lexer
      ensures old(nextDeployed) ==>
        var scanned := Scan(old(lexer.input));
        lexer.input == scanned.rest &&
        match scanned.lexeme
        case Thrown(m) => r == Thrown(m) && nextDeployed && next == old(next)
        case Ok(x) => r == Ok(x != "") && !nextDeployed && next == x
      ensures !old(nextDeployed) ==>
        r == Ok(next != "") && !nextDeployed && next == old(next) && lexer.input == old(lexer.input)
    {
      if nextDeployed {
        var lexeme := lexer.FindLexeme();
        if lexeme.Thrown? {
          return Thrown(lexeme.message);
        }
        next := lexeme.value;
        nextDeployed := false;
      }
      r := Ok(next != "");
    }

    /** next() as written: a waiting lexeme is handed out even when it is the
        empty one that made hasNext() answer false. */
    method Next() returns (r: Attempt<string>)
      modifies this, lexer
      decreases if nextDeployed then 1 else 0
      ensures old(nextDeployed) ==>
        var scanned := Scan(old(lexer.input));
        lexer.input == scanned.rest &&
        match scanned.lexeme
        case Thrown(m) => r == Thrown(m)
        case Ok(x) => if x == "" then r == Thrown(NO_SUCH_ELEMENT) && !nextDeployed else r == Ok(x) && nextDeployed
      ensures !old(nextDeployed) ==>
        r == Ok(old(next)) && nextDeployed && lexer.input == old(lexer.input)
    {
      if nextDeployed {
        var more := HasNext();
        if more.Thrown? {
          return Thrown(more.message);
        }
        if more.value {
          r := Next();
          return;
        }
        return Thrown(NO_SUCH_ELEMENT);
      }
      nextDeployed := true;
      r := Ok(next);
    }

    /** next() as the Iterator contract has it: once hasNext() has answered
        false, there is no next element. */
    method CheckedNext() returns (r: Attempt<string>)
      modifies this, lexer
      ensures r.Ok? ==> r.value != ""
      ensures old(nextDeployed) ==>
        var scanned := Scan(old(lexer.input));
        lexer.input == scanned.rest &&
        match scanned.lexeme
        case Thrown(m) => r == Thrown(m)
        case Ok(x) => if x == "" then r == Thrown(NO_SUCH_ELEMENT) else r == Ok(x) && nextDeployed
      ensures !old(nextDeployed) ==>
        lexer.input == old(lexer.input) &&
        if old(next) == "" then r == Thrown(NO_SUCH_ELEMENT) else r == Ok(old(next)) && nextDeployed
    {
      if !nextDeployed && next == "" {
        return Thrown(NO_SUCH_ELEMENT);
      }
      r := Next();
    }

    method Remove() returns (r: Attempt<()>)
      ensures r == Thrown(UNSUPPORTED)
    {
      r := Thrown(UNSUPPORTED);
    }
  }

  /** On a text with no lexeme left, next() after hasNext() hands out the empty
      lexeme instead of throwing NoSuchElementException. */
  method ExhaustedNext(text: string) returns (more: Attempt<bool>, r: Attempt<string>)
    requires Scan(text).lexeme == Ok("")
    ensures more == Ok(false) && r == Ok("")
  {
    var lexer := new Lexer(text);
    var it := new LexemeIterator(lexer);
    more := it.HasNext();
    r := it.Next();
  }

  /** The same calls with the checked next() throw. */
  method ExhaustedCheckedNext(text: string) returns (more: Attempt<bool>, r: Attempt<string>)
    requires Scan(text).lexeme == Ok("")
    ensures more == Ok(false) && r == Thrown(NO_SUCH_ELEMENT)
  {
    var lexer := new Lexer(text);
    var it := new LexemeIterator(lexer);
    more := it.HasNext();
    r := it.CheckedNext();
  }

  // ---------------------------------------------------------------- properties of the lexemes

  /** Whitespace in front of a lexeme is read and dropped. */
  lemma WhitespaceIsDropped(w: string, s: string)
    requires forall i :: 0 <= i < |w| ==> Characters.IsWhitespace(w[i])
    requires |s| == 0 || !Characters.IsWhitespace(s[0])
    ensures Scan(w + s) == Scan(s)
  {
    Characters.SpanOfRun(Characters.IsWhitespace, w, s);
    Characters.SpanOfRun(Characters.IsWhitespace, [], s);
    assert (w + s)[|w|..] == s;
    assert s[0..] == s;
  }

  /** Text that does not start with whitespace is scanned as it is. */
  lemma NoWhitespaceAhead(s: string)
    requires |s| > 0 && !Characters.IsWhitespace(s[0])
    ensures s[Characters.Span(Characters.IsWhitespace, s)..] == s
  {
    assert Characters.Span(Characters.IsWhitespace, s) == 0;
  }

  /** A parenthesis or a quote is a lexeme of its own. */
  lemma PunctuationStandsAlone(s: string)
    requires |s| > 0 && IsPunctuation(s[0])
    ensures Scan(s) == Scanned(Ok([s[0]]), s[1..])
  {
    NoWhitespaceAhead(s);
    var t := s[Characters.Span(Characters.IsWhitespace, s)..];
    assert t == s;
    assert |t| > 0 && IsPunctuation(t[0]);
    assert Scan(s) == Scanned(Ok(t[..1]), t[1..]);
    assert s[..1] == [s[0]];
  }

  /** A lexeme starting with a digit is the whole run of digits, and no more,
      even where letters follow: numbers are tried before identifiers. */
  lemma NumberBeforeIdentifier(s: string)
    requires |s| > 0 && Characters.IsDigit(s[0])
    ensures var n := Characters.DigitRun(s);
      Scan(s) == Scanned(Ok(s[..n]), s[n..])
  {
    assert Characters.Span(Characters.IsWhitespace, s) == 0;
  }

  /** A string lexeme keeps both quotes; without a closing quote the lexer
      throws "Unexpected EOF". */
  lemma StringKeepsQuotes(s: string)
    requires |s| > 0 && s[0] == '"'
    ensures var n := Characters.Span(IsNotQuote, s[1..]);
      (n + 1 < |s| ==> Scan(s) == Scanned(Ok(s[..n + 2]), s[n + 2..]) && s[n + 1] == '"') &&
      (n + 1 == |s| ==> Scan(s) == Scanned(Thrown(UNEXPECTED_EOF), []))
  {
    assert Characters.Span(Characters.IsWhitespace, s) == 0;
    assert Characters.DigitRun(s) == 0;
  }

  lemma IdentifierStartsNothingElse(c: char)
    requires IsIdentifierCharacter(c)
    ensures !IsPunctuation(c) && c != '"' && !Characters.IsWhitespace(c)
  {
  }

  /** Anything else that can start an identifier starts the longest run of
      identifier characters. */
  lemma IdentifierIsLongestRun(s: string)
    requires |s| > 0 && IsIdentifierCharacter(s[0]) && !Characters.IsDigit(s[0])
    ensures var n := Characters.Span(IsIdentifierCharacter, s);
      n > 0 && Scan(s) == Scanned(Ok(s[..n]), s[n..])
  {
    IdentifierStartsNothingElse(s[0]);
    NoWhitespaceAhead(s);
    var t := s[Characters.Span(Characters.IsWhitespace, s)..];
    assert t == s;
    assert Characters.DigitRun(t) == 0;
    var n := Characters.Span(IsIdentifierCharacter, t);
    assert Scan(s) == Scanned(Ok(t[..n]), t[n..]);
  }

  /** The empty lexeme comes exactly at the end of the text or before a
      character no rule reads, and then nothing but whitespace was read. */
  lemma EmptyLexeme(s: string)
    ensures var t := s[Characters.Span(Characters.IsWhitespace, s)..];
      Scan(s).lexeme == Ok("") <==>
        |t| == 0 || (!IsPunctuation(t[0]) && !IsIdentifierCharacter(t[0]) && t[0] != '"')
    ensures Scan(s).lexeme == Ok("") ==> Scan(s).rest == s[Characters.Span(Characters.IsWhitespace, s)..]
  {
  }
}
