/** The optional value used for parsed inputs: None stands for an empty field or
    for a text that JavaScript's parseFloat turns into NaN. */
module Wrappers {
  datatype Option<+T> = None | Some(value: T)
}
