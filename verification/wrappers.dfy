/** The daemon's "may be null" values. */
module Wrappers {

  /** `None` stands for Java's `null`, or for an operation that threw. */
  datatype Option<+T> = None | Some(value: T)
}
