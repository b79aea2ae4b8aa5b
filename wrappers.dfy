/** The optional value used wherever the Objective-C interface passes or returns nil. */
module Wrappers {

  /** None stands for nil, Some(v) for a non-nil object v. */
  datatype Option<+T> = None | Some(value: T)
}
