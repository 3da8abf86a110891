/** The optional-value type the calculator uses for "a rate, or nothing" (Python's `None`). */
module Wrappers {

  datatype Option<+T> = None | Some(value: T)
}
