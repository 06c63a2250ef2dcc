/** Result.java: the outcome of applying a parser. */
module Results {
  import Strings

  /** A success carries the parsed value, a failure an error message; both
      carry the input that is left. */
  datatype Result<+X> = Success(remaining: string, value: X) | Failure(remaining: string, error: string)
  {
    /** A result is a success exactly when it carries no error. */
    predicate IsSuccess() {
      Success?
    }

    predicate IsFailure() {
      !IsSuccess()
    }
  }

  /** The text of a result, with `show` printing its value: the outcome, the
      value or the message, and the remaining input can all be read back. */
  function Describe<X>(r: Result<X>, show: X -> string): (text: string)
    ensures Strings.StartsWith(text, "Success: `") <==> r.IsSuccess()
    ensures Strings.StartsWith(text, "Failure: ") <==> r.IsFailure()
    ensures Strings.EndsWith(text, " (Remaining: `" + r.remaining + "`)")
    ensures r.IsSuccess() ==> |text| == 27 + |show(r.value)| + |r.remaining|
    ensures r.IsFailure() ==> |text| == 25 + |r.error| + |r.remaining|
    ensures r.IsSuccess() ==> text[10..|text| - |r.remaining| - 17] == show(r.value)
    ensures r.IsFailure() ==> text[9..|text| - |r.remaining| - 16] == r.error
  {
    var tail := " (Remaining: `" + r.remaining + "`)";
    match r
    case Success(remaining, value) =>
      var v := show(value);
      var text := "Success: `" + v + "`" + tail;
      assert text == "Success: `" + (v + ("`" + tail));
      assert text[..10] == "Success: `" && text[0] == 'S';
      assert text[10..][..|v|] == v;
      assert |text| - |remaining| - 17 == 10 + |v|;
      assert text[10..10 + |v|] == text[10..][..|v|];
      assert text[|text| - |tail|..] == tail;
      text
    case Failure(remaining, error) =>
      var text := "Failure: " + error + tail;
      assert text == "Failure: " + (error + tail);
      assert text[..9] == "Failure: " && text[0] == 'F';
      assert text[9..][..|error|] == error;
      assert |text| - |remaining| - 16 == 9 + |error|;
      assert text[9..9 + |error|] == text[9..][..|error|];
      assert text[|text| - |tail|..] == tail;
      text
  }

  /** A success keeps what it is given and is no failure. */
  lemma SuccessIsSuccess<X>(remaining: string, value: X)
    ensures Success(remaining, value).IsSuccess() && !Success(remaining, value).IsFailure()
    ensures Success(remaining, value).remaining == remaining && Success(remaining, value).value == value
  {
  }

  /** A failure keeps the remaining text and message it is given and is no success. */
  lemma FailureIsFailure<X>(remaining: string, error: string)
    ensures var f: Result<X> := Failure(remaining, error); f.IsFailure() && !f.IsSuccess()
    ensures var f: Result<X> := Failure(remaining, error); f.remaining == remaining && f.error == error
  {
  }

  /** The two descriptions cannot be confused: they differ in their first character. */
  lemma DescribeTellsOutcome<X>(r: Result<X>, show: X -> string)
    ensures Describe(r, show)[0] == (if r.IsSuccess() then 'S' else 'F')
  {
  }
}
