/** The optional value used wherever the exchange's Rust code uses `Option`. */
module Prelude {
  datatype Option<+T> = None | Some(value: T)

  function Min(x: real, y: real): real {
    if x <= y then x else y
  }
}
