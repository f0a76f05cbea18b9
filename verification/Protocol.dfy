/** Byte-level types, the protocol constants and C's unsigned wrap-around. */
module Protocol {

  type Byte = b: int | 0 <= b < 256

  type Packet = seq<Byte>

  const HEADER_SIZE: nat := 16
  const CHUNK_SIZE: nat := 1024
  const WINDOW_SIZE: nat := 64
  const TIMEOUT_MS: nat := 500
  const MAX_RETRIES: nat := 10

  const UDP_DATA: Byte := 1
  const UDP_ACK: Byte := 2

  const TWO_16: nat := 0x1_0000
  const TWO_32: nat := 0x1_0000_0000
  const TWO_64: nat := 0x1_0000_0000_0000_0000

  /** Values of the C types `uint16_t`, `uint32_t` and `uint64_t`. */
  type Word16 = x: int | 0 <= x < TWO_16
  type Word32 = x: int | 0 <= x < TWO_32
  type Word64 = x: int | 0 <= x < TWO_64

  /** Conversion to an unsigned C type keeps the value modulo the type's range. */
  function U16(x: int): Word16 { x % TWO_16 }

  function U32(x: int): Word32 { x % TWO_32 }

  function U64(x: int): Word64 { x % TWO_64 }

  function Min(a: int, b: int): int {
    if a <= b then a else b
  }

  datatype Option<+T> = None | Some(value: T)
}
