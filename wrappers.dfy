/** The optional value used for operations that can fail. */
module Wrappers {

  /** `None` stands for a failure (in the generator: a `ValueError` raised by
      Python's `date` constructor); `Some` carries the result. */
  datatype Option<T> = None | Some(value: T)
}
