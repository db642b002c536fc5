/** Failure-compatible result for the source's nulls and thrown exceptions. */
module Wrappers {

  /** `None` stands for a C# `null` result or for an exception the source lets escape. */
  datatype Option<+T> = None | Some(value: T)
}
