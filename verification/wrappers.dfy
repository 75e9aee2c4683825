/** The optional value used wherever the compiler uses a nullable reference. */
module Wrappers {

  /** `None` stands for Java's `null`. */
  datatype Option<+T> = None | Some(value: T)
}
