/** Option type for values that may be absent (a null .NET string, a rejected rectangle). */
module Wrappers {
  datatype Option<+T> = None | Some(value: T)
}
