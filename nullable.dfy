/** The `null` of a JavaScript `T | null` slot. */
module Nullable {

  datatype Option<T> = None | Some(value: T)

}
