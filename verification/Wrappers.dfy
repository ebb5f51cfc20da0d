/** The optional value and the smaller number shared by all components. */
module Wrappers {
  datatype Option<+T> = None | Some(value: T)

  function Min(a: nat, b: nat): nat { if a < b then a else b }
}
