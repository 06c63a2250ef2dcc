/** The character classes the grammar and the lexer test for, restricted to
    ASCII: Java's Character.isWhitespace, isDigit, isLetter, isLetterOrDigit. */
module Characters {

  /** Java's whitespace characters below 128: tab, line feed, vertical tab,
      form feed, carriage return, the four separators 28-31 and space. */
  predicate IsWhitespace(c: char) {
    (9 <= c as int <= 13) || (28 <= c as int <= 32)
  }

  predicate IsDigit(c: char) {
    '0' <= c <= '9'
  }

  predicate IsLetter(c: char) {
    ('a' <= c <= 'z') || ('A' <= c <= 'Z')
  }

  predicate IsLetterOrDigit(c: char) {
    IsLetter(c) || IsDigit(c)
  }

  /** The decimal value of a run of digits. */
  function DigitsValue(ds: string): nat
    requires forall i :: 0 <= i < |ds| ==> IsDigit(ds[i])
  {
    if |ds| == 0 then 0
    else DigitsValue(ds[..|ds| - 1]) * 10 + DigitValue(ds[|ds| - 1])
  }

  function DigitValue(c: char): nat
    requires IsDigit(c)
  {
    c as int - '0' as int
  }

  /** The length of the longest prefix of `s` whose characters all pass `test`. */
  function Span(test: char -> bool, s: string): (n: nat)
    ensures n <= |s|
    ensures forall i :: 0 <= i < n ==> test(s[i])
    ensures n < |s| ==> !test(s[n])
  {
    if |s| > 0 && test(s[0]) then 1 + Span(test, s[1..]) else 0
  }

  /** A run that stops at a character failing the test has exactly the
      length of the part before it. */
  lemma {:induction false} SpanOfRun(test: char -> bool, run: string, rest: string)
    requires forall i :: 0 <= i < |run| ==> test(run[i])
    requires |rest| > 0 ==> !test(rest[0])
    ensures Span(test, run + rest) == |run|
    decreases |run|
  {
    if |run| > 0 {
      assert (run + rest)[1..] == run[1..] + rest;
      SpanOfRun(test, run[1..], rest);
    } else {
      assert run + rest == rest;
    }
  }

  /** Where every character of `run` passes, the span runs on into what follows. */
  lemma {:induction false} SpanAfterRun(test: char -> bool, run: string, rest: string)
    requires forall i :: 0 <= i < |run| ==> test(run[i])
    ensures Span(test, run + rest) == |run| + Span(test, rest)
    decreases |run|
  {
    if |run| > 0 {
      assert (run + rest)[1..] == run[1..] + rest;
      SpanAfterRun(test, run[1..], rest);
    } else {
      assert run + rest == rest;
    }
  }

  /** The length of the run of digits at the front of `s`. */
  function DigitRun(s: string): (n: nat)
    ensures n <= |s|
    ensures forall i :: 0 <= i < n ==> IsDigit(s[i])
    ensures n < |s| ==> !IsDigit(s[n])
  {
    Span(IsDigit, s)
  }
}
