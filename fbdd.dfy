/**
 * The fbdd driver (fbdd/fbdd.c): a BDUS device that mirrors an underlying block device and runs
 * every request through the fault registry of `FbdStructs` block by block. Reads fetch the data
 * first and then check each 4096-byte block; writes check each block first, stop at a medium
 * error before anything reaches the underlying device, and then write the (possibly corrupted)
 * data. The other callbacks forward the request to the underlying device. `main` parses the
 * command line into the device's settings and picks the exit code.
 *
 * The system calls are parameters: a `pread`/`pwrite` loop takes the sequence of results its
 * calls return, an `ioctl` or `fdatasync` its return value and `errno`.
 */
module Fbdd {
  import opened CTypes
  import opened Wrappers
  import opened Bits
  import opened FbdDefines
  import opened FbdStructs

  /** The block size the callbacks check faults at (fixed, not the device's logical block size). */
  const BLOCK_SIZE: nat := 4096

  // ---------------------------------------------------------------------------------------------
  // The pread / pwrite loops

  /** The result of one `pread` or `pwrite` call: a byte count, or -1 with `errno`. */
  datatype IoAttempt = Moved(count: nat) | IoFailed(errno: Errno)

  /** A value `errno` holds after a failed call. */
  type Errno = e: int | e > 0 witness 4

  /**
   * Where a transfer loop stands: it moved everything and ended at `offset`, it failed with
   * `errno`, or the calls seen so far left `size` bytes at `offset` to go.
   */
  datatype Transfer = Finished(offset: u64) | Failed(errno: Errno) | Retrying(size: u32, offset: u64)

  /**
   * The loop `while (size > 0)` of `device_read` and `device_write` over successive call results:
   * an interrupted call (EINTR) is repeated, another failure returns its errno, a call that moves
   * nothing returns EIO, and a call that moves `n` bytes advances the offset and shrinks the size
   * (`uint64_t` and `uint32_t` arithmetic).
   */
  function TransferFrom(attempts: seq<IoAttempt>, size: u32, offset: u64): (t: Transfer)
    ensures t.Failed? ==> t.errno != EINTR
    decreases |attempts|
  {
    if size == 0 then Finished(offset)
    else if attempts == [] then Retrying(size, offset)
    else match attempts[0]
      case IoFailed(e) => if e != EINTR then Failed(e) else TransferFrom(attempts[1..], size, offset)
      case Moved(n) =>
        if n == 0 then Failed(EIO) else TransferFrom(attempts[1..], ToU32(size - n), ToU64(offset + n))
  }

  /** The system calls never move more than they are asked to. */
  predicate Honest(attempts: seq<IoAttempt>, size: u32)
    decreases |attempts|
  {
    size == 0 || attempts == [] ||
    match attempts[0]
      case IoFailed(_) => Honest(attempts[1..], size)
      case Moved(n) => n <= size && (n == 0 || Honest(attempts[1..], size - n))
  }

  /**
   * With honest calls, the end of the remaining range never moves: a finished transfer moved
   * exactly `size` bytes, ending at `offset + size`, and an unfinished one still ends there.
   */
  lemma {:induction false} TransferKeepsEnd(attempts: seq<IoAttempt>, size: u32, offset: u64)
    requires Honest(attempts, size)
    ensures var t := TransferFrom(attempts, size, offset);
      && (t.Finished? ==> t.offset == RangeEnd(size, offset))
      && (t.Retrying? ==> RangeEnd(t.size, t.offset) == RangeEnd(size, offset))
    decreases |attempts|
  {
    if size > 0 && attempts != [] {
      match attempts[0]
      case IoFailed(e) =>
        if e == EINTR {
          TransferKeepsEnd(attempts[1..], size, offset);
        }
      case Moved(n) =>
        if n > 0 {
          MovedKeepsEnd(size, offset, n);
          TransferKeepsEnd(attempts[1..], size - n, ToU64(offset + n));
        }
    }
  }

  /** Where a range of `size` bytes at `offset` ends (`uint64_t`). */
  function RangeEnd(size: u32, offset: u64): u64
  {
    ToU64(offset + size)
  }

  /** Moving `n` bytes of the range leaves its end where it was. */
  lemma MovedKeepsEnd(size: u32, offset: u64, n: nat)
    requires 0 < n <= size
    ensures ToU32(size - n) == size - n
    ensures RangeEnd(size - n, ToU64(offset + n)) == RangeEnd(size, offset)
  {
    FitsUnchanged(size - n);
    ModAddLeft(offset + n, size - n, 0x1_0000_0000_0000_0000);
  }

  /** An interrupted call changes nothing: the loop simply calls again. */
  lemma TransferRetriesInterrupt(attempts: seq<IoAttempt>, size: u32, offset: u64)
    ensures TransferFrom([IoFailed(EINTR)] + attempts, size, offset) == TransferFrom(attempts, size, offset)
  {
    assert ([IoFailed(EINTR)] + attempts)[1..] == attempts;
  }

  /** The loop itself. */
  method TransferLoop(size: u32, offset: u64, attempts: seq<IoAttempt>) returns (t: Transfer)
    ensures t == TransferFrom(attempts, size, offset)
  {
    var remaining, at := size, offset;
    var i := 0;
    while remaining > 0
      invariant 0 <= i <= |attempts|
      invariant TransferFrom(attempts[i..], remaining, at) == TransferFrom(attempts, size, offset)
      decreases |attempts| - i
    {
      if i == |attempts| {
        return Retrying(remaining, at);
      }
      assert attempts[i..][1..] == attempts[i + 1..];
      match attempts[i] {
        case IoFailed(e) =>
          if e != EINTR {
            return Failed(e);
          }
        case Moved(n) =>
          if n == 0 {
            return Failed(EIO);
          }
          at := ToU64(at + n);
          remaining := ToU32(remaining - n);
      }
      i := i + 1;
    }
    assert TransferFrom(attempts[i..], remaining, at) == Finished(at);
    return Finished(at);
  }

  /** What a read or write callback returns once its transfer loop is over (None: still looping). */
  function TransferResult(t: Transfer): (r: Option<int>)
    ensures r == Some(0) <==> t.Finished?
    ensures r.None? <==> t.Retrying?
  {
    match t
    case Finished(_) => Some(0)
    case Failed(e) => Some(e as int)
    case Retrying(_, _) => None
  }

  // ---------------------------------------------------------------------------------------------
  // The per-block fault checks

  /** The device offset of the block `index` bytes into a request at `offset` (`uint64_t`). */
  function BlockOffset(offset: u64, index: nat): u64
  {
    ToU64(offset + index)
  }

  /** The offset `device_read` checks, as written: the sum is stored in a `uint32_t`. */
  function ReadBlockOffsetAsWritten(offset: u64, index: nat): u32
  {
    ToU32(offset + index)
  }

  const FOUR_GIB: u64 := 0x1_0000_0000

  /**
   * A read at 4 GiB is checked as a read at 0, while a write there is checked at 4 GiB: a block
   * fault on the first block fires for that read although it does not cover the block read.
   */
  lemma ReadOffsetTruncated(h: HashBytes)
    ensures ReadBlockOffsetAsWritten(FOUR_GIB, 0) == 0
    ensures BlockOffset(FOUR_GIB, 0) == FOUR_GIB
    ensures Hits(BlockTarget(4096, 0), 4096, 0, h)
    ensures !Hits(BlockTarget(4096, 0), 4096, FOUR_GIB, h)
  {
    FitsUnchanged(FOUR_GIB);
    assert InterseptMemory(0, 4095, 0, 4095) == (true, 0, 4095);
    assert InterseptMemory(0, 4095, FOUR_GIB, 0x1_0000_0FFF) == (false, FOUR_GIB, 4095);
  }

  /** The other side: a fault on the block at 4 GiB is seen at 4 GiB but not at 0, where reads look. */
  lemma ReadOffsetMissesHighBlock(h: HashBytes)
    ensures !Hits(BlockTarget(4096, FOUR_GIB), 4096, 0, h)
    ensures Hits(BlockTarget(4096, FOUR_GIB), 4096, FOUR_GIB, h)
  {
    assert InterseptMemory(FOUR_GIB, 0x1_0000_0FFF, 0, 4095) == (false, FOUR_GIB, 4095);
    assert InterseptMemory(FOUR_GIB, 0x1_0000_0FFF, FOUR_GIB, 0x1_0000_0FFF) == (true, FOUR_GIB, 0x1_0000_0FFF);
  }

  /** A block that starts inside the buffer has a digest. */
  lemma BlockHasHash(k: nat, size: nat, count: nat)
    requires BLOCK_SIZE * k < size <= BLOCK_SIZE * count
    ensures k < count
  {
  }

  /** The state of a request's block checks: the registry, the data, the sleeps, a medium error. */
  datatype BlockRun = BlockRun(ranges: seq<Range>, buffer: seq<u8>, delays: seq<u64>, medium: bool)

  /**
   * The block loop of `device_write` (and of `device_read`, with the offset corrected) from
   * block `k` on: each block of the request is checked for faults at its own offset with its
   * own digest; the first medium error stops the loop.
   */
  function CheckBlocksFrom(rs: seq<Range>, buf: seq<u8>, delays: seq<u64>, operation: u8,
                           offset: u64, hashes: seq<HashBytes>, k: nat): BlockRun
    requires |buf| <= BLOCK_SIZE * |hashes|
    decreases |buf| - BLOCK_SIZE * k
  {
    if BLOCK_SIZE * k >= |buf| then BlockRun(rs, buf, delays, false)
    else
      var index := BLOCK_SIZE * k;
      BlockHasHash(k, |buf|, |hashes|);
      var inj := Injected(rs, operation, BLOCK_SIZE, BlockOffset(offset, index), hashes[k]);
      var buf' := buf[index := FlipTimes(buf[index], inj.flips)];
      if inj.status == FBD_STS_MEDIUM_ERROR then BlockRun(inj.ranges, buf', delays + inj.delays, true)
      else CheckBlocksFrom(inj.ranges, buf', delays + inj.delays, operation, offset, hashes, k + 1)
  }

  /** `b` differs from `a` at most in the first byte of each block. */
  predicate SameOutsideBlockStarts(a: seq<u8>, b: seq<u8>)
  {
    |a| == |b| && forall p :: 0 <= p < |a| && p % BLOCK_SIZE != 0 ==> a[p] == b[p]
  }

  lemma UpdateAtBlockStart(a: seq<u8>, b: seq<u8>, k: nat, v: u8)
    requires SameOutsideBlockStarts(a, b) && BLOCK_SIZE * k < |b|
    ensures SameOutsideBlockStarts(a, b[BLOCK_SIZE * k := v])
  {
    assert (BLOCK_SIZE * k) % BLOCK_SIZE == 0;
  }

  /** Faults only ever touch the first byte of a block: every other byte comes through unchanged. */
  lemma {:induction false} CheckBlocksKeepsOtherBytes(rs: seq<Range>, buf: seq<u8>, delays: seq<u64>,
      operation: u8, offset: u64, hashes: seq<HashBytes>, k: nat, orig: seq<u8>)
    requires |buf| <= BLOCK_SIZE * |hashes| && SameOutsideBlockStarts(orig, buf)
    ensures SameOutsideBlockStarts(orig, CheckBlocksFrom(rs, buf, delays, operation, offset, hashes, k).buffer)
    decreases |buf| - BLOCK_SIZE * k
  {
    if BLOCK_SIZE * k < |buf| {
      var index := BLOCK_SIZE * k;
      BlockHasHash(k, |buf|, |hashes|);
      var inj := Injected(rs, operation, BLOCK_SIZE, BlockOffset(offset, index), hashes[k]);
      var buf' := buf[index := FlipTimes(buf[index], inj.flips)];
      UpdateAtBlockStart(orig, buf, k, FlipTimes(buf[index], inj.flips));
      if inj.status != FBD_STS_MEDIUM_ERROR {
        CheckBlocksKeepsOtherBytes(inj.ranges, buf', delays + inj.delays, operation, offset, hashes, k + 1, orig);
      }
    }
  }

  /** The block checks keep the registry's invariant. */
  lemma {:induction false} CheckBlocksKeepsValid(rs: seq<Range>, buf: seq<u8>, delays: seq<u64>,
      operation: u8, offset: u64, hashes: seq<HashBytes>, k: nat)
    requires |buf| <= BLOCK_SIZE * |hashes| && ValidRanges(rs)
    ensures ValidRanges(CheckBlocksFrom(rs, buf, delays, operation, offset, hashes, k).ranges)
    decreases |buf| - BLOCK_SIZE * k
  {
    if BLOCK_SIZE * k < |buf| {
      var index := BLOCK_SIZE * k;
      BlockHasHash(k, |buf|, |hashes|);
      var inj := Injected(rs, operation, BLOCK_SIZE, BlockOffset(offset, index), hashes[k]);
      InjectedKeepsValid(rs, operation, BLOCK_SIZE, BlockOffset(offset, index), hashes[k]);
      if inj.status != FBD_STS_MEDIUM_ERROR {
        var buf' := buf[index := FlipTimes(buf[index], inj.flips)];
        CheckBlocksKeepsValid(inj.ranges, buf', delays + inj.delays, operation, offset, hashes, k + 1);
      }
    }
  }

  /** With no fault registered a request passes through untouched. */
  lemma {:induction false} CheckBlocksWithoutFaults(buf: seq<u8>, delays: seq<u64>, operation: u8,
      offset: u64, hashes: seq<HashBytes>, k: nat)
    requires |buf| <= BLOCK_SIZE * |hashes|
    ensures CheckBlocksFrom([], buf, delays, operation, offset, hashes, k) == BlockRun([], buf, delays, false)
    decreases |buf| - BLOCK_SIZE * k
  {
    if BLOCK_SIZE * k < |buf| {
      var index := BLOCK_SIZE * k;
      BlockHasHash(k, |buf|, |hashes|);
      InjectedOnMiss([], operation, BLOCK_SIZE, BlockOffset(offset, index), hashes[k]);
      assert buf[index := FlipTimes(buf[index], 0)] == buf;
      assert delays + [] == delays;
      CheckBlocksWithoutFaults(buf, delays, operation, offset, hashes, k + 1);
    }
  }

  /** One block of the loop. */
  lemma CheckBlocksStep(rs: seq<Range>, buf: seq<u8>, delays: seq<u64>, operation: u8,
                        offset: u64, hashes: seq<HashBytes>, k: nat)
    requires BLOCK_SIZE * k < |buf| <= BLOCK_SIZE * |hashes|
    ensures k < |hashes|
    ensures var inj := Injected(rs, operation, BLOCK_SIZE, BlockOffset(offset, BLOCK_SIZE * k), hashes[k]);
      var buf' := buf[BLOCK_SIZE * k := FlipTimes(buf[BLOCK_SIZE * k], inj.flips)];
      CheckBlocksFrom(rs, buf, delays, operation, offset, hashes, k)
        == if inj.status == FBD_STS_MEDIUM_ERROR then BlockRun(inj.ranges, buf', delays + inj.delays, true)
           else CheckBlocksFrom(inj.ranges, buf', delays + inj.delays, operation, offset, hashes, k + 1)
  {
    BlockHasHash(k, |buf|, |hashes|);
  }

  /**
   * The block loop: `fbd_check_and_inject_{read,write}_fault` on each 4096-byte block of the
   * buffer, returning at the first medium error.
   */
  method CheckBlocks(dev: FbdDevice, buffer: array<u8>, offset: u64, size: u32, operation: u8,
                     hashes: seq<HashBytes>) returns (delays: seq<u64>, medium: bool)
    requires dev.Valid() && dev.HashingDefined()
    requires buffer.Length == size && size <= BLOCK_SIZE * |hashes|
    requires operation == FBD_OP_WRITE || operation == FBD_OP_READ
    modifies dev`ranges, buffer
    ensures dev.Valid() && dev.HashingDefined()
    ensures var run := CheckBlocksFrom(old(dev.ranges), old(buffer[..]), [], operation, offset, hashes, 0);
      dev.ranges == run.ranges && buffer[..] == run.buffer && delays == run.delays && medium == run.medium
  {
    ghost var run := CheckBlocksFrom(dev.ranges, buffer[..], [], operation, offset, hashes, 0);
    var index := 0;
    var k := 0;
    delays := [];
    while index < size
      invariant index == BLOCK_SIZE * k
      invariant dev.Valid() && dev.HashingDefined()
      invariant CheckBlocksFrom(dev.ranges, buffer[..], delays, operation, offset, hashes, k) == run
      decreases size - index
    {
      BlockHasHash(k, size as nat, |hashes|);
      ghost var rs, buf, ds := dev.ranges, buffer[..], delays;
      var status, d, _ := dev.CheckAndInject(buffer, index, BLOCK_SIZE, BlockOffset(offset, index), operation, hashes[k]);
      CheckBlocksStep(rs, buf, ds, operation, offset, hashes, k);
      delays := delays + d;
      if status == FBD_STS_MEDIUM_ERROR {
        return delays, true;
      }
      index := index + BLOCK_SIZE;
      k := k + 1;
    }
    return delays, false;
  }

  /**
   * `device_read` with the block offset kept as a `uint64_t`: the transfer loop reads the whole
   * request (the bytes it stores are taken to be in `buffer` already); a failed read returns its
   * errno before any fault check; then each block is checked, and a medium error makes the
   * callback return ENOMEDIUM.
   */
  method DeviceRead(dev: FbdDevice, buffer: array<u8>, offset: u64, size: u32,
                    attempts: seq<IoAttempt>, hashes: seq<HashBytes>) returns (ret: Option<int>, delays: seq<u64>)
    requires dev.Valid() && dev.HashingDefined()
    requires buffer.Length == size && size <= BLOCK_SIZE * |hashes|
    modifies dev`ranges, buffer
    ensures dev.Valid()
    ensures var t := TransferFrom(attempts, size, offset);
      !t.Finished? ==> ret == TransferResult(t) && dev.ranges == old(dev.ranges) && buffer[..] == old(buffer[..]) && delays == []
    ensures var t := TransferFrom(attempts, size, offset);
      var run := CheckBlocksFrom(old(dev.ranges), old(buffer[..]), [], FBD_OP_READ, offset, hashes, 0);
      t.Finished? ==> (dev.ranges == run.ranges && buffer[..] == run.buffer && delays == run.delays
        && ret == Some(if run.medium then ENOMEDIUM else 0))
  {
    var t := TransferLoop(size, offset, attempts);
    if !t.Finished? {
      return TransferResult(t), [];
    }
    var medium;
    delays, medium := CheckBlocks(dev, buffer, offset, size, FBD_OP_READ, hashes);
    ret := Some(if medium then ENOMEDIUM else 0);
  }

  /**
   * `device_write`: each block is checked first, and a medium error returns ENOMEDIUM before
   * anything is written (`sent` is None); otherwise the buffer, with the bit flips the faults
   * made, is handed to the `pwrite` loop (`sent`) and its outcome is returned.
   */
  method DeviceWrite(dev: FbdDevice, buffer: array<u8>, offset: u64, size: u32,
                     attempts: seq<IoAttempt>, hashes: seq<HashBytes>)
    returns (ret: Option<int>, delays: seq<u64>, sent: Option<seq<u8>>)
    requires dev.Valid() && dev.HashingDefined()
    requires buffer.Length == size && size <= BLOCK_SIZE * |hashes|
    modifies dev`ranges, buffer
    ensures dev.Valid()
    ensures var run := CheckBlocksFrom(old(dev.ranges), old(buffer[..]), [], FBD_OP_WRITE, offset, hashes, 0);
      && dev.ranges == run.ranges && buffer[..] == run.buffer && delays == run.delays
      && (run.medium ==> ret == Some(ENOMEDIUM) && sent == None)
      && (!run.medium ==> sent == Some(run.buffer) && ret == TransferResult(TransferFrom(attempts, size, offset)))
  {
    var medium;
    delays, medium := CheckBlocks(dev, buffer, offset, size, FBD_OP_WRITE, hashes);
    if medium {
      return Some(ENOMEDIUM), delays, None;
    }
    sent := Some(buffer[..]);
    var t := TransferLoop(size, offset, attempts);
    ret := TransferResult(t);
  }

  // ---------------------------------------------------------------------------------------------
  // The forwarding callbacks and the device configuration

  /**
   * What a forwarding callback returns for a call on the underlying device: 0 when it
   * succeeded, its errno (positive, as a failed call leaves it) otherwise.
   */
  function Forwarded(failed: bool, errno: nat): (r: int)
    requires failed ==> errno > 0
    ensures r >= 0 && (r == 0 <==> !failed)
  {
    if failed then errno else 0
  }

  /** The range ioctls the callbacks issue on the underlying device. */
  datatype RangeCommand = ZeroOut | Discard | SecureDiscard

  /** An ioctl on a byte range `{start, length}`. */
  datatype RangeIoctl = RangeIoctl(command: RangeCommand, start: u64, length: u64)

  /**
   * `device_write_zeros` (BLKZEROOUT; `may_unmap` is ignored), `device_discard` (BLKDISCARD)
   * and `device_secure_erase` (BLKSECDISCARD): the request's own range goes to the underlying
   * device, and the callback fails exactly when the ioctl does (a non-zero return).
   */
  function RangeCallback(command: RangeCommand, offset: u64, size: u32, ioctlRet: int, errno: nat)
    : (r: (RangeIoctl, int))
    requires ioctlRet != 0 ==> errno > 0
    ensures r.0.start == offset && r.0.length == size && r.0.command == command
    ensures r.1 == 0 <==> ioctlRet == 0
  {
    (RangeIoctl(command, offset, size), Forwarded(ioctlRet != 0, errno))
  }

  /** `device_flush`: `fdatasync` on the underlying device; fails exactly when it does. */
  function FlushCallback(fdatasyncRet: int, errno: nat): (r: int)
    requires fdatasyncRet != 0 ==> errno > 0
    ensures r == 0 <==> fdatasyncRet == 0
  {
    Forwarded(fdatasyncRet != 0, errno)
  }

  /**
   * `device_ioctl`: the same command on the underlying device; only a return of -1 is a failure,
   * so a positive return still counts as success.
   */
  function IoctlCallback(ioctlRet: int, errno: nat): (r: int)
    requires ioctlRet == -1 ==> errno > 0
    ensures r == 0 <==> ioctlRet != -1
  {
    Forwarded(ioctlRet == -1, errno)
  }

  /**
   * `configure_device_discard` and `configure_device_secure_erase`: an empty request that
   * succeeds or fails with EINVAL means supported, EOPNOTSUPP means unsupported, and any other
   * error makes configuration fail (None).
   */
  function ProbeSupport(ioctlRet: int, errno: nat): (r: Option<bool>)
    ensures r == Some(true) <==> ioctlRet == 0 || errno == EINVAL
    ensures r == Some(false) <==> ioctlRet != 0 && errno != EINVAL && errno == EOPNOTSUPP
  {
    if ioctlRet == 0 || errno == EINVAL then Some(true)
    else if errno == EOPNOTSUPP then Some(false)
    else None
  }

  /** The callbacks the driver registers: discard and secure erase only when supported. */
  datatype Ops = Ops(discard: bool, secureErase: bool)

  /** `struct bdus_attrs` as the driver fills it. */
  datatype Attrs = Attrs(size: u64, logicalBlockSize: u32, physicalBlockSize: u32,
                         maxConcurrentCallbacks: nat, dontDaemonize: bool)

  /**
   * `device_attrs` with `get_device_attrs`: one callback at a time, daemonizing as asked;
   * the sizes are filled in by `configure_device`.
   */
  function DeviceAttrs(dontDaemonize: bool): (a: Attrs)
    ensures a.maxConcurrentCallbacks == 1 && a.dontDaemonize == dontDaemonize
  {
    Attrs(0, 0, 0, 1, dontDaemonize)
  }

  /** The answers of the underlying device to the configuration ioctls, in the order they are issued. */
  datatype Probes = Probes(discardRet: int, discardErrno: nat, secureRet: int, secureErrno: nat,
                           size: Option<u64>, logicalBlockSize: Option<u32>, physicalBlockSize: Option<u32>)

  /**
   * `configure_device`: probes discard and secure erase support, then mirrors the size and
   * both block sizes of the underlying device; any failure ends it (None).
   */
  function ConfigureDevice(p: Probes, attrs: Attrs): (r: Option<(Ops, Attrs)>)
    ensures r.Some? <==> (ProbeSupport(p.discardRet, p.discardErrno).Some?
      && ProbeSupport(p.secureRet, p.secureErrno).Some?
      && p.size.Some? && p.logicalBlockSize.Some? && p.physicalBlockSize.Some?)
    ensures r.Some? ==> var (ops, a) := r.value;
      && ops.discard == ProbeSupport(p.discardRet, p.discardErrno).value
      && ops.secureErase == ProbeSupport(p.secureRet, p.secureErrno).value
      && a == attrs.(size := p.size.value, logicalBlockSize := p.logicalBlockSize.value,
                     physicalBlockSize := p.physicalBlockSize.value)
  {
    match (ProbeSupport(p.discardRet, p.discardErrno), ProbeSupport(p.secureRet, p.secureErrno))
    case (Some(discard), Some(secure)) =>
      if p.size.None? || p.logicalBlockSize.None? || p.physicalBlockSize.None? then None
      else Some((Ops(discard, secure),
                 attrs.(size := p.size.value, logicalBlockSize := p.logicalBlockSize.value,
                        physicalBlockSize := p.physicalBlockSize.value)))
    case _ => None
  }

  /**
   * `device_initalize`: records the BDUS device's path, index, size and logical block size. The
   * wake-up of the server thread is not part of this model.
   */
  method Initialize(dev: FbdDevice, path: string, index: int, attrs: Attrs) returns (ret: int)
    modifies dev`path, dev`index, dev`size, dev`logicalBlockSize
    ensures dev.path == Some(path) && dev.index == index
    ensures dev.size == attrs.size && dev.logicalBlockSize == attrs.logicalBlockSize
    ensures ret == 0
  {
    dev.path := Some(path);
    dev.index := index;
    dev.size := attrs.size;
    dev.logicalBlockSize := attrs.logicalBlockSize;
    ret := 0;
  }

  // ---------------------------------------------------------------------------------------------
  // The command line

  /** The outcome of `fbd_device_set_hash_type`: a hash type, or the invalid-options flag. */
  datatype HashChoice = Chosen(hashType: u8) | Rejected

  /**
   * `fbd_device_set_hash_type` as written: the third test is `strcmp(...)` without `== 0`, so
   * every unknown name selects MurmurHash and only "MURMUR_x86_128" itself is rejected.
   */
  function SetHashTypeAsWritten(arg: string): HashChoice
  {
    if arg == "MD5" then Chosen(FBD_HASH_MD5 as u8)
    else if arg == "XXH3_128" then Chosen(FBD_HASH_XXH3_128 as u8)
    else if arg != "MURMUR_x86_128" then Chosen(FBD_HASH_MURMUR_x86_128 as u8)
    else Rejected
  }

  lemma SetHashTypeSwapsMurmur()
    ensures SetHashTypeAsWritten("MURMUR_x86_128") == Rejected
    ensures SetHashTypeAsWritten("SHA1") == Chosen(FBD_HASH_MURMUR_x86_128 as u8)
  {
    assert |"MURMUR_x86_128"| == 14 && |"SHA1"| == 4;
  }

  /** The name of each hash type on the command line. */
  function HashTypeName(t: u8): string
  {
    if t == FBD_HASH_MD5 then "MD5"
    else if t == FBD_HASH_XXH3_128 then "XXH3_128"
    else "MURMUR_x86_128"
  }

  predicate NamedHashType(t: u8)
  {
    t == FBD_HASH_MD5 || t == FBD_HASH_XXH3_128 || t == FBD_HASH_MURMUR_x86_128
  }

  /** `fbd_device_set_hash_type` with all three tests written `strcmp(...) == 0`. */
  function SetHashType(arg: string): (c: HashChoice)
    ensures c.Chosen? ==> NamedHashType(c.hashType) && arg == HashTypeName(c.hashType)
  {
    if arg == "MD5" then Chosen(FBD_HASH_MD5 as u8)
    else if arg == "XXH3_128" then Chosen(FBD_HASH_XXH3_128 as u8)
    else if arg == "MURMUR_x86_128" then Chosen(FBD_HASH_MURMUR_x86_128 as u8)
    else Rejected
  }

  /** Each hash type is selected by its own name. */
  lemma SetHashTypeByName(t: u8)
    requires NamedHashType(t)
    ensures SetHashType(HashTypeName(t)) == Chosen(t)
  {
    assert |"MD5"| == 3 && |"XXH3_128"| == 8 && |"MURMUR_x86_128"| == 14;
  }

  /** An option as `getopt` returns it for the option string "u:bh:d:DP". */
  datatype Opt = OptU(arg: string) | OptB | OptH(arg: string) | OptD(arg: string) | OptBigD | OptP
               | OptBad(optopt: char)

  /** What the option loop has gathered. */
  datatype Parsed = Parsed(settings: UserSettings, hashType: u8, underlying: Option<string>,
                           dontDaemonize: bool, invalid: bool)

  /** The options before any is parsed (`dont_daemon` starts true). */
  function ParsedStart(hashType: u8): Parsed
  {
    Parsed(UserSettings(false, false, false, false), hashType, None, true, false)
  }

  /** A hash type option's effect on the hash type and the invalid-options flag. */
  function ApplyHashChoice(p: Parsed, arg: string): Parsed
  {
    match SetHashType(arg)
    case Chosen(t) => p.(hashType := t)
    case Rejected => p.(invalid := true)
  }

  /** One pass of the `switch` in `main`'s option loop on a recognised option. */
  function ApplyOption(p: Parsed, o: Opt): Parsed
    requires !o.OptBad?
  {
    match o
    case OptU(a) => p.(underlying := Some(a))
    case OptB => p.(settings := p.settings.(blockMode := true))
    case OptH(a) => ApplyHashChoice(p.(settings := p.settings.(hashMode := true)), a)
    case OptD(a) => ApplyHashChoice(p.(settings := p.settings.(dedupMode := true)), a)
    case OptBigD => p.(settings := p.settings.(deviceMode := true))
    case OptP => p.(dontDaemonize := false)
  }

  /** The option loop over `opts`: None when it meets a bad option (and `main` returns 2). */
  function ParseFrom(p: Parsed, opts: seq<Opt>): Option<Parsed>
    decreases |opts|
  {
    if opts == [] then Some(p)
    else if opts[0].OptBad? then None
    else ParseFrom(ApplyOption(p, opts[0]), opts[1..])
  }

  /** The loop stops exactly when some option is not recognised. */
  lemma {:induction false} ParseFromFails(p: Parsed, opts: seq<Opt>)
    ensures ParseFrom(p, opts).None? <==> exists o :: o in opts && o.OptBad?
    decreases |opts|
  {
    if opts != [] {
      assert opts == [opts[0]] + opts[1..];
      if !opts[0].OptBad? {
        ParseFromFails(ApplyOption(p, opts[0]), opts[1..]);
      }
    }
  }

  /** Hash mode is on exactly when some option is `-h`. */
  lemma {:induction false} ParseFromHashMode(p: Parsed, opts: seq<Opt>)
    requires ParseFrom(p, opts).Some?
    ensures ParseFrom(p, opts).value.settings.hashMode <==> p.settings.hashMode || exists o :: o in opts && o.OptH?
    decreases |opts|
  {
    if opts != [] {
      assert opts == [opts[0]] + opts[1..];
      ParseFromHashMode(ApplyOption(p, opts[0]), opts[1..]);
    }
  }

  /** Dedup mode is on exactly when some option is `-d`. */
  lemma {:induction false} ParseFromDedupMode(p: Parsed, opts: seq<Opt>)
    requires ParseFrom(p, opts).Some?
    ensures ParseFrom(p, opts).value.settings.dedupMode <==> p.settings.dedupMode || exists o :: o in opts && o.OptD?
    decreases |opts|
  {
    if opts != [] {
      assert opts == [opts[0]] + opts[1..];
      ParseFromDedupMode(ApplyOption(p, opts[0]), opts[1..]);
    }
  }

  /** The options are rejected exactly when some `-h` or `-d` names an unknown hash type. */
  lemma {:induction false} ParseFromInvalid(p: Parsed, opts: seq<Opt>)
    requires ParseFrom(p, opts).Some?
    ensures ParseFrom(p, opts).value.invalid
        <==> p.invalid || exists o :: o in opts && HashOption(o) && SetHashType(o.arg).Rejected?
    decreases |opts|
  {
    if opts != [] {
      assert opts == [opts[0]] + opts[1..];
      ParseFromInvalid(ApplyOption(p, opts[0]), opts[1..]);
    }
  }

  /** The underlying device is that of the last `-u` option, if any. */
  lemma {:induction false} ParseFromUnderlying(p: Parsed, opts: seq<Opt>, k: nat)
    requires ParseFrom(p, opts).Some?
    requires k < |opts| && opts[k].OptU?
    requires forall j :: k < j < |opts| ==> !opts[j].OptU?
    ensures ParseFrom(p, opts).value.underlying == Some(opts[k].arg)
    decreases |opts|
  {
    if k == 0 {
      ParseFromKeepsUnderlying(ApplyOption(p, opts[0]), opts[1..]);
    } else {
      ParseFromUnderlying(ApplyOption(p, opts[0]), opts[1..], k - 1);
    }
  }

  /** Without a `-u` option the underlying device stays as it was. */
  lemma {:induction false} ParseFromKeepsUnderlying(p: Parsed, opts: seq<Opt>)
    requires ParseFrom(p, opts).Some?
    requires forall j :: 0 <= j < |opts| ==> !opts[j].OptU?
    ensures ParseFrom(p, opts).value.underlying == p.underlying
    decreases |opts|
  {
    if opts != [] {
      assert forall j :: 0 <= j < |opts| - 1 ==> opts[1..][j] == opts[j + 1];
      ParseFromKeepsUnderlying(ApplyOption(p, opts[0]), opts[1..]);
    }
  }

  predicate HashOption(o: Opt)
  {
    o.OptH? || o.OptD?
  }

  /** `main`'s option loop, applying each option to the device and the local variables. */
  method ParseOptions(dev: FbdDevice, opts: seq<Opt>) returns (r: Option<Parsed>)
    modifies dev`settings, dev`hashType
    ensures r == ParseFrom(Parsed(old(dev.settings), old(dev.hashType), None, true, false), opts)
    ensures r.Some? ==> dev.settings == r.value.settings && dev.hashType == r.value.hashType
  {
    var p := Parsed(dev.settings, dev.hashType, None, true, false);
    var i := 0;
    while i < |opts|
      invariant 0 <= i <= |opts|
      invariant ParseFrom(p, opts[i..]) == ParseFrom(Parsed(old(dev.settings), old(dev.hashType), None, true, false), opts)
      invariant dev.settings == p.settings && dev.hashType == p.hashType
    {
      assert opts[i..][1..] == opts[i + 1..];
      if opts[i].OptBad? {
        return None;
      }
      p := ApplyOption(p, opts[i]);
      dev.settings := p.settings;
      dev.hashType := p.hashType;
      i := i + 1;
    }
    assert opts[i..] == [];
    return Some(p);
  }

  /**
   * The exit code of `main` after the option loop: 2 for a bad option; 0 (after printing
   * "Invalid options") for an unknown hash type; 3 when both dedup and hash modes are on; 2 with
   * no underlying device; 1 when it cannot be opened or configured; otherwise 0 or 1 as the
   * driver run succeeds.
   */
  function ExitCode(parsed: Option<Parsed>, openFd: int, configured: bool, runSucceeded: bool): (code: int)
    ensures parsed.None? ==> code == 2
    ensures parsed.Some? && parsed.value.invalid ==> code == 0
    ensures (parsed.Some? && parsed.value.settings.hashMode && parsed.value.settings.dedupMode
              && !parsed.value.invalid) ==> code == 3
    ensures (parsed.Some? && !parsed.value.invalid
              && !(parsed.value.settings.hashMode && parsed.value.settings.dedupMode)) ==>
              (parsed.value.underlying.None? ==> code == 2)
              && (parsed.value.underlying.Some? && openFd < 0 ==> code == 1)
              && (parsed.value.underlying.Some? && openFd >= 0 && !configured ==> code == 1)
              && (parsed.value.underlying.Some? && openFd >= 0 && configured ==>
                    code == (if runSucceeded then 0 else 1))
    ensures code == 0 ==> parsed.Some? && (parsed.value.invalid || runSucceeded)
    ensures 0 <= code <= 3
  {
    match parsed
    case None => 2
    case Some(p) =>
      if p.invalid then 0
      else if p.settings.dedupMode && p.settings.hashMode then 3
      else if p.underlying.None? then 2
      else if openFd < 0 then 1
      else if !configured then 1
      else if runSucceeded then 0 else 1
  }

  /**
   * `main`: a fresh device (no descriptor, its hash type the uninitialised `garbageHashType`),
   * the option loop, the checks, and the driver run; `open` returns `openFd`, the configuration
   * ioctls answer `probes` and `bdus_run` reports `runSucceeded`.
   */
  method FbddMain(opts: seq<Opt>, garbageHashType: u8, openFd: int, probes: Probes, runSucceeded: bool)
    returns (code: int, dev: FbdDevice)
    ensures var parsed := ParseFrom(ParsedStart(garbageHashType), opts);
      code == ExitCode(parsed, openFd,
                       parsed.Some? && ConfigureDevice(probes, DeviceAttrs(parsed.value.dontDaemonize)).Some?,
                       runSucceeded)
    ensures (code == 0 && !ParseFrom(ParsedStart(garbageHashType), opts).value.invalid) ==> dev.fd == openFd
  {
    dev := new FbdDevice(-1, garbageHashType);
    var parsed := ParseOptions(dev, opts);
    if parsed.None? {
      return 2, dev;
    }
    var p := parsed.value;
    if p.invalid {
      return 0, dev;
    }
    if p.settings.dedupMode && p.settings.hashMode {
      return 3, dev;
    }
    if p.underlying.None? {
      return 2, dev;
    }
    if openFd < 0 {
      return 1, dev;
    }
    var config := ConfigureDevice(probes, DeviceAttrs(p.dontDaemonize));
    if config.None? {
      return 1, dev;
    }
    dev.fd := openFd;
    code := if runSucceeded then 0 else 1;
  }
}
