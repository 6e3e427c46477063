/** The optional value that stands for the source's nullable types: a `ushort?` field, or a reference that may be null. */
module Wrappers {

  datatype Option<+T> = None | Some(value: T)
}
