/** Octets, the content of Go's strings and byte slices, and optional values. */
module Bytes {
  type Byte = b: int | 0 <= b < 256

  datatype Option<+T> = None | Some(value: T)

  /** The number of values of a 64-bit word. */
  const TWO_64: int := 0x1_0000_0000_0000_0000

  /** The octets of an ASCII text. */
  function Text(s: string): (r: seq<Byte>)
    ensures |r| == |s|
  {
    seq(|s|, k requires 0 <= k < |s| => if s[k] < 128 as char then s[k] as int else 63)
  }
}
