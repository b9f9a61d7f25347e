/** Result shapes shared by the rule model and the loader. */
module Wrappers {

  /** A value that may be absent (Go's nil pointer or failed lookup). */
  datatype Option<+T> = None | Some(value: T)

  /** Go's `error` return: nil (Pass) or a failure carrying a cause. */
  datatype Outcome<+E> = Pass | Fail(error: E)
}
