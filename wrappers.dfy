/** Helper datatypes shared by the other modules. */
module Wrappers {

  /**
   * A value that may be absent: stands for a C pointer that may be NULL, and
   * for a result that is NULL when memory cannot be allocated.
   */
  datatype Option<+T> = None | Some(value: T)
}
