/** Bytes, texts and the result types shared by every module. */
module Prelude {
  newtype byte = x: int | 0 <= x < 256
  type bytes = seq<byte>

  type u16 = x: int | 0 <= x < 0x1_0000
  type u32 = x: int | 0 <= x < 0x1_0000_0000

  datatype Ipv4 = Ipv4(a: byte, b: byte, c: byte, d: byte)

  const CR: byte := 13
  const LF: byte := 10
  const CRLF: bytes := [CR, LF]
  const CRLF_TEXT: string := "\r\n"

  datatype Option<+T> = None | Some(value: T)

  datatype Result<+T, +E> = Ok(value: T) | Err(error: E)

  /** Positions below `bound`, in order. */
  predicate Increasing(at: seq<nat>, bound: nat) {
    && (forall m :: 0 <= m < |at| ==> at[m] < bound)
    && (forall m, n :: 0 <= m < n < |at| ==> at[m] < at[n])
  }
}
