/** Octets, the alphabet of both wire formats, and optional results. */
module Bytes {
  type byte = b: int | 0 <= b < 0x100

  datatype Option<+T> = None | Some(value: T)
}
