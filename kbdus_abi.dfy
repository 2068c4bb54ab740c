/**
 * The user/kernel interface shared by kbdus and libbdus (kbdus/include/kbdus.h and
 * kbdus/include-private/kbdus/config.h): request types, the device configuration record,
 * the hard limits, and the Linux encoding of ioctl command numbers.
 */
module KbdusAbi {
  import opened CTypes
  import Bits

  // `enum kbdus_request_type`, numbered from 0 in declaration order.
  const REQ_DEVICE_AVAILABLE: u32 := 0
  const REQ_TERMINATE: u32 := 1
  const REQ_FLUSH_AND_TERMINATE: u32 := 2
  const REQ_READ: u32 := 3
  const REQ_WRITE: u32 := 4
  const REQ_WRITE_SAME: u32 := 5
  const REQ_WRITE_ZEROS_NO_UNMAP: u32 := 6
  const REQ_WRITE_ZEROS_MAY_UNMAP: u32 := 7
  const REQ_FUA_WRITE: u32 := 8
  const REQ_FLUSH: u32 := 9
  const REQ_DISCARD: u32 := 10
  const REQ_SECURE_ERASE: u32 := 11
  const REQ_IOCTL: u32 := 12

  /** Notification requests are never replied to. */
  predicate IsNotification(t: u32)
  {
    t == REQ_DEVICE_AVAILABLE || t == REQ_TERMINATE || t == REQ_FLUSH_AND_TERMINATE
  }

  // Hard limits.
  const HARD_MAX_DEVICES: nat := 4096
  const HARD_MAX_ACTIVE_QUEUE_REQS: u32 := 4096
  const HARD_MAX_ACTIVE_IOCTL_REQS: u32 := 4096
  const MMAP_MAX_REQUEST_BUFFERS: u32 := 64

  /** `struct kbdus_version`. */
  datatype Version = Version(major: u32, minor: u32, patch: u32)

  /** `struct kbdus_device_config`; the u8 flags are booleans here. */
  datatype DeviceConfig = DeviceConfig(
    seqnum: u64,
    size: u64,
    index: u32,
    major: u32,
    firstMinor: u32,
    logicalBlockSize: u32,
    physicalBlockSize: u32,
    maxReadWriteSize: u32,
    maxWriteSameSize: u32,
    maxWriteZerosSize: u32,
    maxDiscardEraseSize: u32,
    supportsRead: bool,
    supportsWrite: bool,
    supportsWriteSame: bool,
    supportsWriteZeros: bool,
    supportsFuaWrite: bool,
    supportsFlush: bool,
    supportsDiscard: bool,
    supportsSecureErase: bool,
    supportsIoctl: bool,
    isRotational: bool,
    shouldMergeRequests: bool,
    lifoRequestTransmission: bool,
    maxActiveQueueReqs: u32,
    maxActiveIoctlReqs: u32,
    disablePartitionScanning: bool,
    destroyWhenDetached: bool)

  /** `struct kbdus_protocol_config`: the protocol name and the mmap protocol's buffer count. */
  datatype ProtocolConfig = ProtocolConfig(protocolName: string, numRequestBuffers: u32)

  // Linux ioctl command layout: bits 30..31 direction, bits 16..29 argument size.
  const IOC_NONE: nat := 0
  const IOC_WRITE: nat := 1
  const IOC_READ: nat := 2
  const IOC_SIZE_LIMIT: nat := 0x4000

  /** `_IOC_DIR(cmd)`. */
  function IocDir(cmd: u32): (d: nat)
    ensures d < 4
  {
    (cmd / 0x4000_0000) % 4
  }

  /** `_IOC_SIZE(cmd)`. */
  function IocSize(cmd: u32): (s: nat)
    ensures s < IOC_SIZE_LIMIT
  {
    (cmd / 0x1_0000) % IOC_SIZE_LIMIT
  }

  /** `_IOC(dir, type, nr, size)`: the command number built from its four fields. */
  function IocCommand(dir: nat, iocType: nat, nr: nat, size: nat): (cmd: u32)
    requires dir < 4 && iocType < 0x100 && nr < 0x100 && size < IOC_SIZE_LIMIT
  {
    dir * 0x4000_0000 + size * 0x1_0000 + iocType * 0x100 + nr
  }

  /** Decoding a built command gives back its direction and size. */
  lemma IocFieldsRoundTrip(dir: nat, iocType: nat, nr: nat, size: nat)
    requires dir < 4 && iocType < 0x100 && nr < 0x100 && size < IOC_SIZE_LIMIT
    ensures IocDir(IocCommand(dir, iocType, nr, size)) == dir
    ensures IocSize(IocCommand(dir, iocType, nr, size)) == size
  {
    var cmd := IocCommand(dir, iocType, nr, size);
    var low := iocType * 0x100 + nr;
    assert low < 0x1_0000;
    assert cmd == (dir * IOC_SIZE_LIMIT + size) * 0x1_0000 + low;
    Bits.DivModUnique(cmd, 0x1_0000, dir * IOC_SIZE_LIMIT + size, low);
    Bits.DivModUnique(dir * IOC_SIZE_LIMIT + size, IOC_SIZE_LIMIT, dir, size);
    assert cmd == dir * 0x4000_0000 + (size * 0x1_0000 + low);
    Bits.DivModUnique(cmd, 0x4000_0000, dir, size * 0x1_0000 + low);
  }
}
