/** The optional value and the law of concatenation shared by the modules. */
module Wrappers {

  datatype Option<+T> = None | Some(value: T)

  lemma SumOfThree<T>(a: seq<T>, b: seq<T>, c: seq<T>)
    ensures a + (b + c) == a + b + c
  {}
}
