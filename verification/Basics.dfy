/** The few types every part of the model shares. */
module Basics {

  newtype byte = x: int | 0 <= x < 256

  datatype Option<+T> = None | Some(value: T)

  function AtLeastOne(n: nat): nat
  {
    if n == 0 then 1 else n
  }
}
