// Shared vocabulary of the engine: bytes, identifiers and status codes.
module Common {
  const PAGE_SIZE: nat := 4096
  const HEADER_PAGE_ID: int := 0
  const INVALID_PAGE_ID: int := -1

  type byte = x: int | 0 <= x < 256
  type Bytes = seq<byte>

  /** The range of a 32-bit integer. */
  type Int32 = i: int | -0x8000_0000 <= i < 0x8000_0000

  type UInt32 = i: nat | i < 0x1_0000_0000

  datatype Option<+T> = None | Some(value: T)

  datatype StatusCode = OK | NOT_FOUND | INVALID_ARGUMENT | IO_ERROR | OUT_OF_MEMORY

  datatype RecordID = RecordID(pageId: int, slotId: nat)

  function Zeros(n: nat): (z: Bytes)
    ensures |z| == n
    ensures forall i :: 0 <= i < n ==> z[i] == 0
  {
    seq(n, _ => 0)
  }
}
