/** Byte-valued quantities and the constants of headers/mip_routing.h, headers/mip.h and headers/queue.h. */
module Bytes {
  type byte = x: int | 0 <= x < 256

  const INFINITY: byte := 255
  const NO_ROUTE: byte := 255           // MAX_MIP_ADDR, the next hop of a failed lookup
  const MAX_QUEUE_SIZE: nat := 16
  const MAX_TABLE_SIZE: nat := 16       // slots of the ARP table
  const UPD_SIZE: nat := 7
  const HEL_SIZE: nat := 6
  const MAX_MSG_SIZE: nat := 512
  const MAX_NTWRK_SIZE: nat := 15
  const MAX_RT_PKT_SIZE: nat := 54      // UPD_SIZE + 3 * MAX_NTWRK_SIZE + 2
  const U: byte := 85
  const P: byte := 80
  const D: byte := 68
  const H: byte := 72
  const E: byte := 69
  const L: byte := 76
  const R: byte := 82
  const Q: byte := 81
  const S: byte := 83

  datatype Option<+T> = None | Some(value: T)

  /** The value a C expression reads from a plain `char` holding `b`: the language leaves its sign to the platform. */
  function CharValue(signed: bool, b: byte): int {
    if signed && b >= 128 then b - 256 else b
  }

  function Increment(b: byte): byte {
    (b + 1) % 256
  }
}
