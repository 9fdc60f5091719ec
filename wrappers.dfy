/** Failure-carrying results shared by the modules of this model. */
module Wrappers {

  datatype Option<+T> = None | Some(value: T)

  datatype Result<+T, +E> = Ok(value: T) | Err(error: E)
}

/** Octets, as held by a Node.js Buffer. */
module Bytes {

  type Byte = x: int | 0 <= x < 256
}
