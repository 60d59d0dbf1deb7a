module Wrappers {

  /** Stands for Go's "value or empty string" and "value or error" returns. */
  datatype Option<+T> = None | Some(value: T)
}
