/** Values that may be missing, and reads that may throw. */
module Outcomes {
  datatype Option<T> = None | Some(value: T)

  datatype Read<T> = Failed | Got(value: T)
}
