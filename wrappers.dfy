/** The nullable results of the system: a lookup that may find nothing. */
module Wrappers {

  /** `None` stands for C#'s `null`. */
  datatype Option<+T> = None | Some(value: T)
}
