/** What all parts of the model share. */
module Basics {
  datatype Option<T> = None | Some(value: T)

  /** Frame indices, and so frame buffers of a port and entries of the index stack. */
  const EC_MAXBUF := 16
  /** No frame of the wanted index. */
  const EC_NOFRAME := -1
  /** Sync managers of a slave. */
  const EC_MAXSM := 8
  /** Bytes of an Ethernet header. */
  const ETH_HEADERSIZE := 14

  function Min(a: nat, b: nat): nat { if a < b then a else b }

  function Max(a: nat, b: nat): nat { if a > b then a else b }

  function Bit(b: bool): nat { if b then 1 else 0 }
}
