/** The optional value Python expresses with `None`, and the no-duplicates property of a list. */
module Wrappers {

  datatype Option<+T> = None | Some(value: T)

  /** No element listed twice. */
  predicate Distinct<T(==)>(s: seq<T>) {
    forall i, j :: 0 <= i < j < |s| ==> s[i] != s[j]
  }

}
