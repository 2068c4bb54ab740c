/**
 * The RAM-backed drivers written against libbdus (examples/ram.c, examples/ram-simple.c,
 * tests/drivers/ram.c and fbdd's ram.c) and the zero device (examples/zero.c).
 *
 * A RAM disk keeps the device's contents in one buffer as large as the device; every callback
 * copies between that buffer and the request's buffer. libbdus and kbdus only hand a callback
 * requests that lie inside the device, and write-same requests whose size is a multiple of the
 * logical block size with one block of payload: these are the callbacks' preconditions.
 */
module RamDrivers {
  import opened CTypes
  import opened Wrappers
  import opened Bits
  import opened KbdusAbi
  import KbdusDevice
  import LibBdus

  /* ------------------------------------------------------------------------------------ */
  /* What the callbacks do to the device's contents */

  /** The contents `d` after `data` is copied in at `offset`. */
  function Overwrite(d: seq<u8>, offset: nat, data: seq<u8>): (r: seq<u8>)
    requires offset + |data| <= |d|
    ensures |r| == |d|
  {
    d[..offset] + data + d[offset + |data|..]
  }

  /** Byte by byte: the copied range holds `data`, every other byte keeps its value. */
  lemma OverwriteAt(d: seq<u8>, offset: nat, data: seq<u8>)
    requires offset + |data| <= |d|
    ensures forall k :: 0 <= k < |d| ==>
      Overwrite(d, offset, data)[k] == (if offset <= k < offset + |data| then data[k - offset] else d[k])
  {
  }

  /** `n` copies of `block`, one after the other: what write-same stores. */
  function Repeat(block: seq<u8>, n: nat): (r: seq<u8>)
    ensures |r| == n * |block|
  {
    if n == 0 then [] else
      MulSucc(n - 1, |block|);
      Repeat(block, n - 1) + block
  }

  /** `n` zero bytes: what write-zeros stores and what the zero device reads. */
  function Zeros(n: nat): (r: seq<u8>)
    ensures |r| == n && forall k :: 0 <= k < n ==> r[k] == 0
  {
    seq(n, _ => 0)
  }

  /** Byte k of repeated blocks is byte `k % |block|` of the block. */
  lemma {:induction false} RepeatIndex(block: seq<u8>, n: nat)
    requires |block| > 0
    ensures forall k :: 0 <= k < n * |block| ==> Repeat(block, n)[k] == block[k % |block|]
  {
    if n > 0 {
      RepeatIndex(block, n - 1);
      var l := |block|;
      MulSucc(n - 1, l);
      forall k | 0 <= k < n * l
        ensures Repeat(block, n)[k] == block[k % l]
      {
        if k >= (n - 1) * l {
          DivModUnique(k, l, n - 1, k - (n - 1) * l);
        }
      }
    }
  }

  /** Two adjacent copies amount to one copy of both. */
  lemma OverwriteConcat(d: seq<u8>, offset: nat, x: seq<u8>, y: seq<u8>)
    requires offset + |x| + |y| <= |d|
    ensures Overwrite(Overwrite(d, offset, x), offset + |x|, y) == Overwrite(d, offset, x + y)
  {
    var lhs := Overwrite(Overwrite(d, offset, x), offset + |x|, y);
    var rhs := Overwrite(d, offset, x + y);
    OverwriteAt(d, offset, x);
    OverwriteAt(Overwrite(d, offset, x), offset + |x|, y);
    OverwriteAt(d, offset, x + y);
    forall k | 0 <= k < |d|
      ensures lhs[k] == rhs[k]
    {
      if offset + |x| <= k < offset + |x| + |y| {
        assert (x + y)[k - offset] == y[k - offset - |x|];
      } else if offset <= k < offset + |x| {
        assert (x + y)[k - offset] == x[k - offset];
      }
    }
  }

  /** Writing zeros over whole blocks is write-same of a zero block. */
  lemma ZerosAreRepeatedZeroBlock(blockSize: nat, n: nat)
    requires blockSize > 0
    ensures Zeros(n * blockSize) == Repeat(Zeros(blockSize), n)
  {
    RepeatIndex(Zeros(blockSize), n);
    var z := Zeros(n * blockSize);
    var r := Repeat(Zeros(blockSize), n);
    forall k | 0 <= k < n * blockSize
      ensures z[k] == r[k]
    {
      DivModFacts(k, blockSize);
    }
  }

  /** A read after a write of the same range returns what was written; other ranges keep theirs. */
  lemma ReadAfterWrite(d: seq<u8>, offset: nat, data: seq<u8>, readOffset: nat, readSize: nat)
    requires offset + |data| <= |d| && readOffset + readSize <= |d|
    ensures readOffset == offset && readSize == |data| ==>
      Overwrite(d, offset, data)[readOffset..readOffset + readSize] == data
    ensures readOffset + readSize <= offset || offset + |data| <= readOffset ==>
      Overwrite(d, offset, data)[readOffset..readOffset + readSize] == d[readOffset..readOffset + readSize]
  {
    var r := Overwrite(d, offset, data);
    OverwriteAt(d, offset, data);
    var read := r[readOffset..readOffset + readSize];
    assert forall k :: 0 <= k < readSize ==> read[k] == r[readOffset + k];
  }

  /* ------------------------------------------------------------------------------------ */
  /* The RAM disk's callbacks */

  /**
   * The driver's `user_data`: a buffer of `attrs.size` bytes holding the device's contents,
   * and the logical block size it reads from `attrs`.
   */
  class RamDisk {
    const store: array<u8>
    const logicalBlockSize: nat

    /** The buffer as allocated; `malloc` leaves its bytes unspecified, here `initial`. */
    constructor(initial: seq<u8>, logicalBlockSize: nat)
      ensures store.Length == |initial| && store[..] == initial && fresh(store)
      ensures this.logicalBlockSize == logicalBlockSize
    {
      store := new u8[|initial|](k requires 0 <= k < |initial| => initial[k]);
      this.logicalBlockSize := logicalBlockSize;
    }

    /** `device_read`: copies `size` bytes at `offset` into the request buffer. */
    method Read(buffer: array<u8>, offset: u64, size: u32) returns (ret: int)
      requires buffer != store && size as nat <= buffer.Length
      requires offset as nat + size as nat <= store.Length
      modifies buffer
      ensures ret == 0
      ensures buffer[..size] == store[offset..offset as nat + size as nat]
      ensures buffer[size..] == old(buffer[size..])
    {
      forall k | 0 <= k < size as nat {
        buffer[k] := store[offset as nat + k];
      }
      ret := 0;
    }

    /** `device_write`: copies the request buffer's `size` bytes to `offset`. */
    method Write(buffer: array<u8>, offset: u64, size: u32) returns (ret: int)
      requires buffer != store && size as nat <= buffer.Length
      requires offset as nat + size as nat <= store.Length
      modifies store
      ensures ret == 0
      ensures store[..] == Overwrite(old(store[..]), offset as nat, buffer[..size])
    {
      CopyIn(buffer, offset as nat, size as nat);
      ret := 0;
    }

    /**
     * `device_write_same`: copies the request's one logical block to every block of the range,
     * one block per iteration.
     */
    method WriteSame(buffer: array<u8>, offset: u64, size: u32) returns (ret: int)
      requires buffer != store && logicalBlockSize > 0 && logicalBlockSize <= buffer.Length
      requires size as nat % logicalBlockSize == 0
      requires offset as nat + size as nat <= store.Length
      modifies store
      ensures ret == 0
      ensures store[..]
        == Overwrite(old(store[..]), offset as nat, Repeat(buffer[..logicalBlockSize], size as nat / logicalBlockSize))
    {
      ghost var d := store[..];
      var lbs := logicalBlockSize;
      var end := offset as nat + size as nat;
      ghost var block := buffer[..lbs];
      ghost var blocks := size as nat / lbs;
      DivModFacts(size as nat, lbs);
      var i: nat := offset as nat;
      ghost var j: nat := 0;
      while i < end
        invariant j <= blocks && i == offset as nat + |Repeat(block, j)| && i <= end
        invariant store[..] == Overwrite(d, offset as nat, Repeat(block, j))
      {
        BlockFits(j, blocks, lbs, |block|);
        CopyIn(buffer, i, lbs);
        OverwriteConcat(d, offset as nat, Repeat(block, j), block);
        j := j + 1;
        i := i + lbs;
      }
      BlocksCovered(j, blocks, lbs, |block|);
      ret := 0;
    }

    /** `memcpy` of the first `n` bytes of `buffer` to `offset`. */
    method CopyIn(buffer: array<u8>, offset: nat, n: nat)
      requires buffer != store && n <= buffer.Length && offset + n <= store.Length
      modifies store
      ensures store[..] == Overwrite(old(store[..]), offset, buffer[..n])
    {
      ghost var d := store[..];
      forall k | 0 <= k < n {
        store[offset + k] := buffer[k];
      }
      OverwriteAt(d, offset, buffer[..n]);
      assert forall k :: 0 <= k < store.Length ==> store[..][k] == Overwrite(d, offset, buffer[..n])[k];
    }

    /** `device_write_zeros`: sets the range to zeros (whether it may be unmapped is ignored). */
    method WriteZeros(offset: u64, size: u32, mayUnmap: bool) returns (ret: int)
      requires offset as nat + size as nat <= store.Length
      modifies store
      ensures ret == 0
      ensures store[..] == Overwrite(old(store[..]), offset as nat, Zeros(size as nat))
    {
      ghost var d := store[..];
      forall k | 0 <= k < size as nat {
        store[offset as nat + k] := 0;
      }
      OverwriteAt(d, offset as nat, Zeros(size as nat));
      assert forall k :: 0 <= k < store.Length ==> store[..][k] == Overwrite(d, offset as nat, Zeros(size as nat))[k];
      ret := 0;
    }

    /** The test driver's `device_flush`: the contents are already in memory. */
    method Flush() returns (ret: int)
      ensures ret == 0
    {
      ret := 0;
    }

    /** The test driver's `device_discard`: succeeds and keeps the contents. */
    method Discard(offset: u64, size: u32) returns (ret: int)
      ensures ret == 0
    {
      ret := 0;
    }

    /** The test driver's `device_secure_erase`: succeeds and keeps the contents. */
    method SecureErase(offset: u64, size: u32) returns (ret: int)
      ensures ret == 0
    {
      ret := 0;
    }

    /** The test driver's `device_ioctl`: no command is recognised. */
    method Ioctl(command: u32) returns (ret: int)
      ensures ret == ENOTTY
    {
      ret := ENOTTY;
    }
  }

  /** A whole number of blocks short of the end leaves room for one more block. */
  lemma BlockFits(j: nat, blocks: nat, lbs: nat, blockLength: nat)
    requires lbs > 0 && blockLength == lbs && j * blockLength < blocks * lbs
    ensures j < blocks && j * blockLength + lbs <= blocks * lbs
  {
    if j >= blocks {
      MulMono2(blocks, j, lbs);
    }
    MulMono2(j + 1, blocks, lbs);
    MulSucc(j, lbs);
  }

  /** Leaving the loop exactly at the end of the range means every block was written. */
  lemma BlocksCovered(j: nat, blocks: nat, lbs: nat, blockLength: nat)
    requires lbs > 0 && blockLength == lbs && j <= blocks && j * blockLength >= blocks * lbs
    ensures j == blocks
  {
    if j < blocks {
      MulMono2(j + 1, blocks, lbs);
      MulSucc(j, lbs);
    }
  }

  lemma MulMono2(a: nat, b: nat, c: nat)
    requires a <= b
    ensures a * c <= b * c
  {
  }

  /**
   * `device_initialize` of examples/ram.c and tests/drivers/ram.c: allocates the device-sized
   * buffer, or fails with ENOMEM when `malloc` does (`mallocSucceeded` false).
   */
  method Initialize(attrs: LibBdus.Attrs, mallocSucceeded: bool, initial: seq<u8>)
    returns (ret: int, disk: RamDisk?)
    requires |initial| == attrs.size as nat
    ensures ret == 0 || ret == ENOMEM
    ensures ret == ENOMEM <==> !mallocSucceeded
    ensures ret == 0 ==> disk != null && fresh(disk) && fresh(disk.store)
    ensures ret == 0 ==> disk.store[..] == initial && disk.logicalBlockSize == attrs.logicalBlockSize as nat
  {
    if !mallocSucceeded {
      return ENOMEM, null;
    }
    disk := new RamDisk(initial, attrs.logicalBlockSize as nat);
    ret := 0;
  }

  /** `device_terminate`: frees the buffer and succeeds. */
  method Terminate(disk: RamDisk) returns (ret: int)
    ensures ret == 0
  {
    ret := 0;
  }

  /* ------------------------------------------------------------------------------------ */
  /* The zero device */

  /** zero.c's `device_read`: fills the request buffer with `size` zeros. */
  method ZeroRead(buffer: array<u8>, offset: u64, size: u32) returns (ret: int)
    requires size as nat <= buffer.Length
    modifies buffer
    ensures ret == 0
    ensures buffer[..size] == Zeros(size as nat)
    ensures buffer[size..] == old(buffer[size..])
  {
    forall k | 0 <= k < size as nat {
      buffer[k] := 0;
    }
    ret := 0;
  }

  /* ------------------------------------------------------------------------------------ */
  /* Each driver's callbacks and attributes */

  /** examples/ram.c: read, write, write-same and write-zeros. */
  const EXAMPLE_RAM_OPS := LibBdus.Ops(true, true, true, true, false, false, false, false, false)

  /** tests/drivers/ram.c: every callback except FUA write. */
  const TEST_RAM_OPS := LibBdus.Ops(true, true, true, true, false, true, true, true, true)

  /** examples/ram-simple.c and fbdd's ram.c: read and write only. */
  const SIMPLE_RAM_OPS := LibBdus.Ops(true, true, false, false, false, false, false, false, false)

  /** examples/zero.c: read only. */
  const ZERO_OPS := LibBdus.Ops(true, false, false, false, false, false, false, false, false)

  const GIB: u64 := 0x4000_0000

  /** 1 GiB of 512-byte blocks with 16 concurrent callbacks (examples/ram.c and zero.c). */
  const EXAMPLE_RAM_ATTRS := LibBdus.Attrs(512, 0, GIB, 0, 0, 0, 0, 16)

  /** tests/drivers/ram.c: as the example, with 8 concurrent callbacks. */
  const TEST_RAM_ATTRS := LibBdus.Attrs(512, 0, GIB, 0, 0, 0, 0, 8)

  /** examples/ram-simple.c: 1 GiB of 512-byte blocks. */
  const SIMPLE_RAM_ATTRS := LibBdus.Attrs(512, 0, GIB, 0, 0, 0, 0, 0)

  /** fbdd's ram.c: 1 GiB of 4096-byte blocks. */
  const FBDD_RAM_ATTRS := LibBdus.Attrs(4096, 0, GIB, 0, 0, 0, 0, 0)

  /** tests/drivers/ram.c's internal configuration: 16 queue requests, 2 ioctl requests. */
  const TEST_MAX_ACTIVE_QUEUE_REQS: u32 := 16
  const TEST_MAX_ACTIVE_IOCTL_REQS: u32 := 2

  lemma Pow2Sizes()
    ensures IsPow2(512) && IsPow2(4096)
  {
    Pow2IsPow2(9);
    Pow2IsPow2(12);
    Pow2Value(9);
    Pow2Value(12);
  }

  lemma {:induction false} Pow2Value(k: nat)
    requires k <= 12
    ensures Pow2(k) == [1, 2, 4, 8, 16, 32, 64, 128, 256, 512, 1024, 2048, 4096][k]
  {
    if k > 0 {
      Pow2Value(k - 1);
    }
  }

  /**
   * Every driver's callbacks pass `bdus_run`'s check, and its attributes pass it on a system
   * with 4 KiB pages; fbdd's 4096-byte blocks would not fit a smaller page.
   */
  lemma DriversAreAccepted()
    ensures LibBdus.ValidateOpsRun(EXAMPLE_RAM_OPS) && LibBdus.ValidateOpsRun(TEST_RAM_OPS)
    ensures LibBdus.ValidateOpsRun(SIMPLE_RAM_OPS) && LibBdus.ValidateOpsRun(ZERO_OPS)
    ensures LibBdus.ValidateAttrsRun(EXAMPLE_RAM_ATTRS, 4096) && LibBdus.ValidateAttrsRun(TEST_RAM_ATTRS, 4096)
    ensures LibBdus.ValidateAttrsRun(SIMPLE_RAM_ATTRS, 4096) && LibBdus.ValidateAttrsRun(FBDD_RAM_ATTRS, 4096)
    ensures !LibBdus.ValidateAttrsRun(FBDD_RAM_ATTRS, 2048)
  {
    Pow2Sizes();
  }

  /**
   * The zero device's kbdus configuration supports no request that changes data, so kbdus
   * creates it read-only; any RAM disk's does not.
   */
  lemma ZeroDeviceIsReadOnly(config: DeviceConfig)
    ensures LibBdus.ConfigFollowsOps(config, ZERO_OPS) ==> KbdusDevice.IsReadOnly(config)
    ensures LibBdus.ConfigFollowsOps(config, SIMPLE_RAM_OPS) ==> !KbdusDevice.IsReadOnly(config)
  {
  }

  /* ------------------------------------------------------------------------------------ */
  /* The drivers' `main` functions */

  /** What zero.c's `main` does with its arguments. */
  datatype Launch = Run | Rerun(index: u32) | Usage

  /**
   * zero.c: no argument creates a device, one argument names an existing device (by index or
   * path) to serve again, anything else is a usage error. `argv` includes the program name, so `argc` is `|argv|`.
   */
  function ZeroLaunch(argv: seq<string>): (r: Launch)
    ensures r.Run? <==> |argv| == 1
    ensures r.Rerun? <==> |argv| == 2 && LibBdus.IndexOrPathToIndex(argv[1]).Ok?
    ensures r.Rerun? ==> LibBdus.IndexOrPathToIndex(argv[1]) == Ok(r.index)
  {
    if |argv| == 1 then Run
    else if |argv| == 2 then
      match LibBdus.IndexOrPathToIndex(argv[1])
      case Ok(index) => Rerun(index)
      case Err(_) => Usage
    else Usage
  }

  /** examples/ram.c and tests/drivers/ram.c take no argument. */
  function RamLaunch(argv: seq<string>): (r: Launch)
    ensures r.Run? <==> |argv| == 1
    ensures !r.Rerun?
  {
    if |argv| == 1 then Run else Usage
  }

  /** The exit status: 2 for a usage error, then 0 or 1 as the driver succeeded or failed. */
  function ExitStatus(launch: Launch, success: bool): (code: int)
    ensures code == 2 <==> launch.Usage?
    ensures code == 0 <==> !launch.Usage? && success
    ensures code == 1 <==> !launch.Usage? && !success
  {
    if launch.Usage? then 2 else if success then 0 else 1
  }

  /**
   * examples/ram-simple.c and fbdd's ram.c allocate the buffer in `main`: 1 when that fails,
   * otherwise 0 or 1 as the driver succeeded.
   */
  function SimpleRamExitStatus(mallocSucceeded: bool, success: bool): (code: int)
    ensures code == 0 <==> mallocSucceeded && success
    ensures code == 0 || code == 1
  {
    if !mallocSucceeded then 1 else if success then 0 else 1
  }
}
