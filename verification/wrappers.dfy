/** A value that may be absent: an unopenable file, a missing dot. */
module Wrappers {

  datatype Option<T> = None | Some(value: T)
}
