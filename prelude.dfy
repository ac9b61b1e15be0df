/** Small shared definitions. */
module Prelude {

  /** A value that may be absent: JavaScript's `undefined` beside a present value. */
  datatype Option<+T> = None | Some(value: T)
}
