/** A value that may be missing: what the header decoders return for a buffer too
    short to hold the header. */
module Wrappers {
  datatype Option<+T> = None | Some(value: T)
}
