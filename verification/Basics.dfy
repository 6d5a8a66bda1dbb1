/**
  What several of the modules share.
*/
module Basics {

  datatype Option<+T> = None | Some(value: T)

  type Positive = n: nat | n > 0 witness 1

  function Max(a: nat, b: nat): nat {
    if a < b then b else a
  }

  function Min(a: nat, b: nat): nat {
    if a < b then a else b
  }
}
