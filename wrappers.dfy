/** The optional value used by every parser of the model: `None` stands for the
    point where the Python code raises (a failed regex match, a `ValueError`). */
module Wrappers {

  datatype Option<+T> = None | Some(value: T)
}
