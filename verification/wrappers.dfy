/** The optional value used for the accumulator of `reduce`, whose initial value may be left out. */
module Wrappers {

  /** `None` stands for JavaScript's `undefined`. */
  datatype Option<+T> = None | Some(value: T)
}
