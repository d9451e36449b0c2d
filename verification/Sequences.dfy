/** Sequences as lists of different things. */
module Sequences {
  ghost predicate NoDuplicates<T>(list: seq<T>) {
    forall i, j | 0 <= i < j < |list| :: list[i] != list[j]
  }
}
