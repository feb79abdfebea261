module Wrappers {
  datatype Option<+T> = None | Some(value: T)

  ghost predicate NoRepeats<T>(xs: seq<T>) { forall i, j :: 0 <= i < j < |xs| ==> xs[i] != xs[j] }
}
