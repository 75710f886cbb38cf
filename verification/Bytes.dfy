/** Bytes and little-endian words. */
module Bytes {
  type byte = b: int | 0 <= b < 0x100

  /** Little-endian 16-bit word at an offset; 0 behind the end. */
  function Word(s: seq<byte>, at: nat): nat {
    if at + 1 < |s| then (s[at] as int) + 0x100 * (s[at + 1] as int) else 0
  }

  function WordBytes(w: nat): seq<byte>
    requires w < 0x1_0000
  {
    [w % 0x100, w / 0x100]
  }

  /** memcpy of `src` into `dst` at an offset. */
  function Overwrite(dst: seq<byte>, at: nat, src: seq<byte>): (r: seq<byte>)
    requires at + |src| <= |dst|
    ensures |r| == |dst|
  {
    dst[..at] + src + dst[at + |src|..]
  }
}
