/**
 * Payload-buffer sizing and the shared-memory layout of the "mmap" protocol, which libbdus's
 * backends (libbdus/src/backends/mmap.c, rw.c, ioctl.c) and kbdus's mmap protocol
 * (kbdus/src/protocols/mmap.c) compute the same way.
 *
 * The shared memory starts with one page holding a 64-byte reply-and-request slot per request
 * buffer, followed by the payload buffers, one after the other.
 */
module PayloadLayout {
  import opened CTypes
  import opened Bits

  /** The room reserved for each reply-and-request structure in the first page. */
  const RAR_SLOT_SIZE: nat := 64

  /** Payload room an ioctl request may need (`1 << 14`). */
  const IOCTL_PAYLOAD_SIZE: nat := 0x4000

  /**
   * The largest payload a request may carry: `max_read_write_size`, raised to the logical block
   * size when write-same is supported and to 16 KiB when ioctl is.
   */
  function MaxPayloadSize(maxReadWriteSize: u32, logicalBlockSize: u32, writeSame: bool, ioctl: bool)
    : (r: nat)
    ensures r >= maxReadWriteSize
    ensures writeSame ==> r >= logicalBlockSize
    ensures ioctl ==> r >= IOCTL_PAYLOAD_SIZE
    ensures r == maxReadWriteSize || (writeSame && r == logicalBlockSize) || (ioctl && r == IOCTL_PAYLOAD_SIZE)
  {
    var size: nat := maxReadWriteSize;
    var size := if writeSame && logicalBlockSize > size then logicalBlockSize else size;
    if ioctl && IOCTL_PAYLOAD_SIZE > size then IOCTL_PAYLOAD_SIZE else size
  }

  /**
   * libbdus's rounding to the page size: a positive size becomes `((size - 1) | (page - 1)) + 1`
   * and 0 stays 0. For a power-of-two page this is the least multiple of the page not below
   * the size.
   */
  function PageRoundUp(size: nat, pageSize: nat): (r: nat)
    requires IsPow2(pageSize)
    ensures r % pageSize == 0
    ensures size <= r < size + pageSize
    ensures r == 0 <==> size == 0
  {
    if size > 0 then RoundUpPow2(size, pageSize) else 0
  }

  /**
   * The kernel's `round_up(size, PAGE_SIZE)` on a 64-bit `size_t`, with no guard for 0:
   * `0 - 1` wraps to all ones and the final `+ 1` wraps back to 0.
   */
  function KernelRoundUp(size: u64, pageSize: u64): (r: u64)
    requires IsPow2(pageSize)
  {
    ToU64(BitOr(ToU64(size - 1), pageSize - 1) + 1)
  }

  /** The kernel's unguarded rounding agrees with libbdus's guarded one, 0 included. */
  lemma KernelRoundUpAgrees(size: u64, pageSize: u64)
    requires IsPow2(pageSize) && size <= U32_MAX && pageSize <= U32_MAX
    ensures KernelRoundUp(size, pageSize) == PageRoundUp(size, pageSize)
  {
    IsPow2HasExponent(pageSize);
    var k: nat :| Pow2(k) == pageSize;
    if size == 0 {
      KernelRoundUpAgreesAtZero(pageSize, k);
    } else {
      KernelRoundUpAgreesAbove(size, pageSize, k);
    }
  }

  lemma KernelRoundUpAgreesAtZero(pageSize: u64, k: nat)
    requires IsPow2(pageSize) && Pow2(k) == pageSize && pageSize <= U32_MAX
    ensures KernelRoundUp(0, pageSize) == 0
  {
    var m: nat := 0x1_0000_0000_0000_0000;
    KernelRoundUpZero(pageSize, k);
    DivModUnique(-1, m, -1, m - 1);
    DivModUnique(m, m, 1, 0);
  }

  lemma KernelRoundUpAgreesAbove(size: u64, pageSize: u64, k: nat)
    requires IsPow2(pageSize) && Pow2(k) == pageSize && 0 < size <= U32_MAX && pageSize <= U32_MAX
    ensures KernelRoundUp(size, pageSize) == RoundUpPow2(size, pageSize)
  {
    var m: nat := 0x1_0000_0000_0000_0000;
    BitOrLowMask(size - 1, k);
    var v := BitOr(size - 1, pageSize - 1) + 1;
    DivModUnique(size - 1, m, 0, size - 1);
    DivModUnique(v, m, 0, v);
  }

  /** At 0, all ones OR-ed with the page mask stay all ones, and adding one wraps to 0. */
  lemma KernelRoundUpZero(pageSize: u64, k: nat)
    requires Pow2(k) == pageSize && pageSize <= U32_MAX
    ensures BitOr(U64_MAX, pageSize - 1) == U64_MAX
  {
    var all: nat := U64_MAX;
    Pow2Value64();
    Pow2Monotone(64, k);
    assert k < 64;
    var q := Pow2(64 - k);
    Pow2Add(k, 64 - k);
    assert q * pageSize == all + 1;
    MulPred(q, pageSize);
    DivModUnique(all, pageSize, q - 1, pageSize - 1);
    BitOrLowMask(all, k);
  }

  lemma MulPred(q: int, d: int)
    ensures (q - 1) * d == q * d - d
  {
  }

  lemma Pow2Value64()
    ensures Pow2(64) == 0x1_0000_0000_0000_0000
  {
    Pow2Value16();
    Pow2Add(16, 16);
    assert Pow2(32) == 0x1_0000 * 0x1_0000 == 0x1_0000_0000;
    Pow2Add(32, 32);
    assert Pow2(64) == 0x1_0000_0000 * 0x1_0000_0000;
  }

  lemma Pow2Value16()
    ensures Pow2(16) == 0x1_0000
  {
    Pow2Add(1, 1);
    assert Pow2(2) == 4;
    Pow2Add(2, 2);
    assert Pow2(4) == 16;
    Pow2Add(4, 4);
    assert Pow2(8) == 256;
    Pow2Add(8, 8);
    assert Pow2(16) == 256 * 256;
  }

  /** Offset of buffer i's reply-and-request slot. */
  function RarOffset(i: nat): nat { RAR_SLOT_SIZE * i }

  /** Offset of buffer i's payload buffer. */
  function PayloadOffset(pageSize: nat, payloadSize: nat, i: nat): nat { pageSize + i * payloadSize }

  /** Length of the whole shared memory for n buffers. */
  function SharedLength(pageSize: nat, payloadSize: nat, n: nat): nat { pageSize + n * payloadSize }

  /**
   * With at most `pageSize / 64` buffers, the slots of distinct buffers do not overlap and all
   * lie in the first page; the payload buffers follow the first page without overlapping one
   * another, the last one ends exactly at the end of the shared memory, and each is
   * page-aligned when the payload size is a multiple of the page.
   */
  lemma LayoutIsDisjoint(pageSize: nat, payloadSize: nat, n: nat, i: nat, j: nat)
    requires RAR_SLOT_SIZE * n <= pageSize
    requires i < j < n
    ensures RarOffset(i) + RAR_SLOT_SIZE <= RarOffset(j)
    ensures RarOffset(j) + RAR_SLOT_SIZE <= pageSize
    ensures pageSize <= PayloadOffset(pageSize, payloadSize, i)
    ensures PayloadOffset(pageSize, payloadSize, i) + payloadSize <= PayloadOffset(pageSize, payloadSize, j)
    ensures PayloadOffset(pageSize, payloadSize, j) + payloadSize <= SharedLength(pageSize, payloadSize, n)
    ensures PayloadOffset(pageSize, payloadSize, n - 1) + payloadSize == SharedLength(pageSize, payloadSize, n)
    ensures pageSize > 0 && payloadSize % pageSize == 0 ==> PayloadOffset(pageSize, payloadSize, j) % pageSize == 0
  {
    MulStepLe(i, j, payloadSize);
    MulStepLe(j, n, payloadSize);
    MulSucc(n - 1, payloadSize);
    if pageSize > 0 && payloadSize % pageSize == 0 {
      PayloadAligned(pageSize, payloadSize, j);
    }
  }

  lemma PayloadAligned(pageSize: nat, payloadSize: nat, j: nat)
    requires pageSize > 0 && payloadSize % pageSize == 0
    ensures PayloadOffset(pageSize, payloadSize, j) % pageSize == 0
  {
    var q := payloadSize / pageSize;
    DivModFacts(payloadSize, pageSize);
    MulAssoc(j, q, pageSize);
    MulSucc(j * q, pageSize);
    assert PayloadOffset(pageSize, payloadSize, j) == (j * q + 1) * pageSize;
    DivModUnique(PayloadOffset(pageSize, payloadSize, j), pageSize, j * q + 1, 0);
  }

  lemma MulAssoc(a: int, b: int, c: int)
    ensures a * (b * c) == (a * b) * c
  {
  }

  /** a < b gives room for one more c after a copies of c. */
  lemma MulStepLe(a: nat, b: nat, c: nat)
    requires a < b
    ensures a * c + c <= b * c
  {
    MulSucc(a, c);
    MulLe(c, a + 1, b);
  }

  lemma MulLe(c: nat, a: nat, b: nat)
    requires a <= b
    ensures c * a <= c * b && a * c <= b * c
  {
  }
}
