/** Values that may be missing. */
module Wrappers {

  datatype Option<T> = None | Some(value: T)

  /** A missing entry of a Go map reads as "". */
  function FirstNonEmpty(a: string, b: string): string {
    if a != "" then a else b
  }
}
