/** An optional value: `None` stands for the converter's `false` result and for a failed run. */
module Wrappers {
  datatype Option<+T> = None | Some(value: T)
}
