/** What several modules need: an optional value, and the associativity of (+) on
    sequences, which proofs about long concatenations state step by step. */
module Wrappers {

  datatype Option<+T> = None | Some(value: T)

  lemma Assoc<T>(a: seq<T>, b: seq<T>, c: seq<T>)
    ensures (a + b) + c == a + (b + c)
  {
  }
}
