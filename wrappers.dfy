/** Failure-carrying wrapper used where the source throws or returns an absent value. */
module Wrappers {

  /** `None` stands for the thrown exception or the missing result. */
  datatype Option<+T> = None | Some(value: T)
}
