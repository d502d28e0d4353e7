/** Options, results and the absolute value, shared by the other modules. */
module Prelude {

  datatype Option<+T> = None | Some(value: T)

  datatype Result<+T, +E> = Ok(value: T) | Err(error: E)

  function Abs(x: real): real {
    if x < 0.0 then -x else x
  }
}
