/** What the other modules share. */
module Wrappers {
  /** Result of an operation that in C returns a pointer or an index, or an error code. */
  datatype Option<+T> = None | Some(value: T)

  lemma Regroup<T>(a: seq<T>, b: seq<T>, c: seq<T>)
    ensures (a + b) + c == a + (b + c)
  {
  }
}
