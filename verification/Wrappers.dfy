/** What every module shares. */
module Wrappers {
  datatype Option<+T> = None | Some(value: T)

  predicate Distinct<T(==)>(q: seq<T>) { forall i, j | 0 <= i < j < |q| :: q[i] != q[j] }
}
