/** PushbackIterator.java: an iterator with a stack of elements pushed back
    onto it, which are handed out again, last pushed first, before the
    underlying iterator is asked for more. */
module Pushback {
  import opened Wrappers

  /** The underlying iterator: the elements it has still to give. */
  class ListIterator<T> {
    var remaining: seq<T>

    constructor (elements: seq<T>)
      ensures remaining == elements
    {
      remaining := elements;
    }

    method HasNext() returns (b: bool)
      ensures b <==> |remaining| > 0
    {
      b := |remaining| > 0;
    }

    method Next() returns (r: Attempt<T>)
      modifies this
      ensures old(remaining) == [] ==> r == Thrown(NO_SUCH_ELEMENT) && remaining == []
      ensures old(remaining) != [] ==> r == Ok(old(remaining)[0]) && remaining == old(remaining)[1..]
    {
      if |remaining| == 0 {
        r := Thrown(NO_SUCH_ELEMENT);
      } else {
        r := Ok(remaining[0]);
        remaining := remaining[1..];
      }
    }
  }

  class PushbackIterator<T> {
    const it: ListIterator<T>
    /** The stash; its head is the top of the LinkedList stack. */
    var stack: seq<T>

    /** What the iterator will hand out from now on, in order. */
    ghost function Elements(): seq<T>
      reads this, it
    {
      stack + it.remaining
    }

    constructor (it: ListIterator<T>)
      ensures this.it == it && stack == []
      ensures Elements() == it.remaining
    {
      this.it := it;
      stack := [];
    }

    method HasNext() returns (b: bool)
      ensures b <==> |stack| > 0 || |it.remaining| > 0
      ensures b <==> |Elements()| > 0
    {
      if |stack| > 0 {
        b := true;
      } else {
        b := it.HasNext();
      }
    }

    /** Pops the stash, or asks the underlying iterator when it is empty. */
    method Next() returns (r: Attempt<T>)
      modifies this, it
      ensures old(stack) != [] ==> r == Ok(old(stack)[0]) && stack == old(stack)[1..] && it.remaining == old(it.remaining)
      ensures old(stack) == [] ==> stack == [] && (if old(it.remaining) == [] then r == Thrown(NO_SUCH_ELEMENT) else r == Ok(old(it.remaining)[0]))
      ensures old(Elements()) == [] ==> r == Thrown(NO_SUCH_ELEMENT) && Elements() == []
      ensures old(Elements()) != [] ==> r == Ok(old(Elements())[0]) && Elements() == old(Elements())[1..]
    {
      if |stack| > 0 {
        r := Ok(stack[0]);
        stack := stack[1..];
      } else {
        r := it.Next();
      }
    }

    method Remove() returns (r: Attempt<()>)
      ensures r == Thrown(UNSUPPORTED)
    {
      r := Thrown(UNSUPPORTED);
    }

    /** Pushes `x` onto the stash. */
    method Stash(x: T)
      modifies this
      ensures stack == [x] + old(stack)
      ensures Elements() == [x] + old(Elements())
    {
      stack := [x] + stack;
    }
  }

  /** `stash(x)` then `next()` gives back `x` and leaves the iterator as it was. */
  method StashThenNext<T>(p: PushbackIterator<T>, x: T) returns (r: Attempt<T>)
    modifies p, p.it
    ensures r == Ok(x)
    ensures p.stack == old(p.stack) && p.it.remaining == old(p.it.remaining)
  {
    p.Stash(x);
    r := p.Next();
  }

  /** Stashed elements come back last in, first out, ahead of the rest. */
  method StashTwiceThenNext<T>(elements: seq<T>, x: T, y: T) returns (first: Attempt<T>, second: Attempt<T>, third: Attempt<T>)
    ensures first == Ok(y) && second == Ok(x)
    ensures third == if elements == [] then Thrown(NO_SUCH_ELEMENT) else Ok(elements[0])
  {
    var it := new ListIterator(elements);
    var p := new PushbackIterator(it);
    p.Stash(x);
    p.Stash(y);
    first := p.Next();
    second := p.Next();
    third := p.Next();
  }
}
