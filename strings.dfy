/** Strings.java: prefix/suffix trimming and joining with a delimiter. */
module Strings {

  predicate StartsWith(s: string, prefix: string) {
    |prefix| <= |s| && s[..|prefix|] == prefix
  }

  predicate EndsWith(s: string, suffix: string) {
    |suffix| <= |s| && s[|s| - |suffix|..] == suffix
  }

  /** Removes one leading occurrence of `prefix`, if there is one. */
  function TrimPrefix(s: string, prefix: string): (r: string)
    ensures StartsWith(s, prefix) ==> s == prefix + r
    ensures !StartsWith(s, prefix) ==> r == s
  {
    if StartsWith(s, prefix) then s[|prefix|..] else s
  }

  /** Removes one trailing occurrence of `suffix`, if there is one. */
  function TrimSuffix(s: string, suffix: string): (r: string)
    ensures EndsWith(s, suffix) ==> s == r + suffix
    ensures !EndsWith(s, suffix) ==> r == s
  {
    if EndsWith(s, suffix) then s[..|s| - |suffix|] else s
  }

  /** Removes at most one occurrence of `affix` at each end, the front first. */
  function TrimAffix(s: string, affix: string): (r: string)
    ensures exists front: string, back: string ::
      (front == "" || front == affix) && (back == "" || back == affix) && s == front + r + back
    ensures StartsWith(s, affix) && EndsWith(s[|affix|..], affix) ==> s == affix + r + affix
    ensures !StartsWith(s, affix) && !EndsWith(s, affix) ==> r == s
  {
    var inner := TrimPrefix(s, affix);
    var r := TrimSuffix(inner, affix);
    var front := if StartsWith(s, affix) then affix else "";
    var back := if EndsWith(inner, affix) then affix else "";
    assert s == front + inner;
    assert inner == r + back;
    assert s == front + r + back;
    r
  }

  /** The elements of `xs` with `delimiter` between each two consecutive ones. */
  function Joined(delimiter: string, xs: seq<string>): string
  {
    if |xs| == 0 then ""
    else if |xs| == 1 then xs[0]
    else Joined(delimiter, xs[..|xs| - 1]) + delimiter + xs[|xs| - 1]
  }

  /** Read from the front: the first element, then a delimiter before each further one. */
  lemma {:induction false} JoinedCons(delimiter: string, x: string, xs: seq<string>)
    ensures Joined(delimiter, [x] + xs) == x + (if xs == [] then "" else delimiter + Joined(delimiter, xs))
    decreases |xs|
  {
    if |xs| >= 2 {
      var front := xs[..|xs| - 1];
      assert ([x] + xs)[..|xs|] == [x] + front;
      JoinedCons(delimiter, x, front);
    } else if |xs| == 1 {
      assert ([x] + xs)[..1] == [x];
    }
  }

  /** The delimiter appears between the two halves of a split, and nowhere else is one added. */
  lemma {:induction false} JoinedAppend(delimiter: string, xs: seq<string>, ys: seq<string>)
    requires xs != [] && ys != []
    ensures Joined(delimiter, xs + ys) == Joined(delimiter, xs) + delimiter + Joined(delimiter, ys)
    decreases |ys|
  {
    if |ys| == 1 {
      assert (xs + ys)[..|xs + ys| - 1] == xs;
    } else {
      var front := ys[..|ys| - 1];
      assert (xs + ys)[..|xs + ys| - 1] == xs + front;
      JoinedAppend(delimiter, xs, front);
    }
  }

  /** The length of a join: every element's text plus one delimiter per gap. */
  lemma {:induction false} JoinedLength(delimiter: string, xs: seq<string>)
    requires xs != []
    ensures |Joined(delimiter, xs)| == TotalLength(xs) + (|xs| - 1) * |delimiter|
    decreases |xs|
  {
    if |xs| > 1 {
      JoinedLength(delimiter, xs[..|xs| - 1]);
      TotalLengthSnoc(xs[..|xs| - 1], xs[|xs| - 1]);
      assert xs[..|xs| - 1] + [xs[|xs| - 1]] == xs;
    }
  }

  function TotalLength(xs: seq<string>): nat {
    if xs == [] then 0 else |xs[0]| + TotalLength(xs[1..])
  }

  lemma {:induction false} TotalLengthSnoc(xs: seq<string>, y: string)
    ensures TotalLength(xs + [y]) == TotalLength(xs) + |y|
    decreases |xs|
  {
    if xs != [] {
      assert (xs + [y])[1..] == xs[1..] + [y];
      TotalLengthSnoc(xs[1..], y);
    }
  }

  /** Strings.join: appends each element after the current delimiter, which is
      empty before the first element and `delimiter` afterwards. */
  method Join(delimiter: string, xs: seq<string>) returns (r: string)
    ensures r == Joined(delimiter, xs)
  {
    r := "";
    var d := "";
    var i := 0;
    while i < |xs|
      invariant 0 <= i <= |xs|
      invariant r == Joined(delimiter, xs[..i])
      invariant d == if i == 0 then "" else delimiter
    {
      assert xs[..i + 1][..i] == xs[..i];
      r := r + d + xs[i];
      d := delimiter;
      i := i + 1;
    }
    assert xs[..i] == xs;
  }
}
