/** Small wrappers shared by every module of the model. */
module Wrappers {

  datatype Option<+T> = None | Some(value: T)

  /** The outcome of a Java call: it returns a value, or it throws an exception
      whose message is kept. JDK exceptions that carry no message of the
      program's own are represented by their class name. */
  datatype Attempt<+T> = Ok(value: T) | Thrown(message: string)

  /** The exceptions of java.util.Iterator: next() with no element left, and
      remove() on an iterator that does not support it. */
  const NO_SUCH_ELEMENT := "NoSuchElementException"
  const UNSUPPORTED := "UnsupportedOperationException"
}
