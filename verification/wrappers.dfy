/** Failure-aware results shared by the model. `None` stands for the point
    where the Go program panics (an index past the end of the scratch field),
    or for bytes that are not a well-formed log. */
module Wrappers {

  datatype Option<+T> = None | Some(value: T)
}
