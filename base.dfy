/** Shared vocabulary: fixed-width unsigned integer ranges, the errno codes
    the firmware returns, and an Option type for nullable pointers. */
module Base {

  const U8_LIMIT: nat := 0x100
  const U32_LIMIT: nat := 0x1_0000_0000
  const U64_LIMIT: nat := 0x1_0000_0000_0000_0000

  type u8 = x: nat | x < U8_LIMIT
  type u32 = x: nat | x < U32_LIMIT
  type u64 = x: nat | x < U64_LIMIT

  /** Unsigned 64-bit addition as C performs it: modulo 2^64. */
  function AddU64(a: u64, b: u64): (r: u64)
    ensures a + b < U64_LIMIT ==> r == a + b
    ensures a + b >= U64_LIMIT ==> r == a + b - U64_LIMIT
  {
    (a + b) % U64_LIMIT
  }

  /** Unsigned 32-bit addition as C performs it: modulo 2^32. */
  function AddU32(a: nat, b: nat): (r: u32)
    ensures a + b < U32_LIMIT ==> r == a + b
  {
    (a + b) % U32_LIMIT
  }

  /** Truncating cast to uint32_t. */
  function TruncU32(x: nat): (r: u32)
    ensures x < U32_LIMIT ==> r == x
  {
    x % U32_LIMIT
  }

  // errno values of the Zephyr C library the firmware is built against.
  const EPERM: int := 1
  const ENOENT: int := 2
  const ENXIO: int := 6
  const EAGAIN: int := 11
  const ENOMEM: int := 12
  const EFAULT: int := 14
  const EEXIST: int := 17
  const EINVAL: int := 22
  const EINPROGRESS: int := 119
  const EMSGSIZE: int := 122
  const ENOTCONN: int := 128

  /** A nullable value: None plays the part of a NULL pointer. */
  datatype Option<+T> = None | Some(value: T)
}
