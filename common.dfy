/** Small shared definitions: an optional value and the byte type. */
module Wrappers {

  /** A value that may be absent; the source uses `null` or `undefined` for `None`. */
  datatype Option<+T> = None | Some(value: T) {

    /** The carried value, or `default` when there is none. */
    function GetOr(default: T): T {
      match this
      case Some(v) => v
      case None => default
    }
  }
}

module Bytes {

  /** One octet. The source works on Node buffers and on plain arrays of
      octets; bit operations (`&`, `|`, `<<`, `>>`) are taken on 8 bits, so
      a result written back into a buffer wraps around exactly as `bv8` does. */
  type byte = bv8
}
