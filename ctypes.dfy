/** Fixed-width C integer types, their wrap-around, and the Linux errno values the model uses. */
module CTypes {

  type u8 = x: int | 0 <= x < 0x100
  type u16 = x: int | 0 <= x < 0x1_0000
  type u32 = x: int | 0 <= x < 0x1_0000_0000
  type u64 = x: int | 0 <= x < 0x1_0000_0000_0000_0000
  type i32 = x: int | -0x8000_0000 <= x < 0x8000_0000

  const U32_MAX: u32 := 0xFFFF_FFFF
  const U64_MAX: u64 := 0xFFFF_FFFF_FFFF_FFFF

  /** Conversion of any integer to an unsigned type: reduction modulo 2^width. */
  function ToU16(x: int): u16 { x % 0x1_0000 }
  function ToU32(x: int): u32 { x % 0x1_0000_0000 }
  function ToU64(x: int): u64 { x % 0x1_0000_0000_0000_0000 }

  /** A value that fits the type converts to itself. */
  lemma FitsUnchanged(x: int)
    ensures 0 <= x < 0x1_0000_0000 ==> ToU32(x) == x
    ensures 0 <= x < 0x1_0000_0000_0000_0000 ==> ToU64(x) == x
  {
  }

  lemma FitsUnchangedI32(x: int)
    ensures 0 <= x < 0x8000_0000 ==> ToI32(x) == x
  {
    FitsUnchanged(x);
  }

  /** Conversion of an unsigned 64-bit value to a signed 32-bit one (two's complement of the low 32 bits). */
  function ToI32(x: int): i32
  {
    var low := x % 0x1_0000_0000;
    if low < 0x8000_0000 then low else low - 0x1_0000_0000
  }

  // Linux errno values.
  const EINTR: nat := 4
  const EIO: nat := 5
  const ENOMEM: nat := 12
  const EACCES: nat := 13
  const EFAULT: nat := 14
  const EBUSY: nat := 16
  const ENODEV: nat := 19
  const EINVAL: nat := 22
  const ENOTTY: nat := 25
  const ENOSPC: nat := 28
  const ENOSYS: nat := 38
  const EBADE: nat := 52
  const ENODATA: nat := 61
  const ENOLINK: nat := 67
  const EILSEQ: nat := 84
  const EOPNOTSUPP: nat := 95
  const ETIMEDOUT: nat := 110
  const EINPROGRESS: nat := 115
  const EREMOTEIO: nat := 121
  const ENOMEDIUM: nat := 123
  /** Largest errno value the kernel defines (EHWPOISON). */
  const MAX_ERRNO_VALUE: nat := 133
  const ERESTARTSYS: nat := 512
}
