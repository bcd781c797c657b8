/** Facts about sequences that the models of several files use. */
module Sequences {

  /** Concatenation is associative, so an append can be regrouped. */
  lemma ConcatAssociates<T>(a: seq<T>, b: seq<T>, c: seq<T>)
    ensures a + b + c == a + (b + c)
  {
  }
}
