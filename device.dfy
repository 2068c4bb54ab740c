/**
 * kbdus's block devices (kbdus/src/device.c): validation and normalisation of device
 * configurations, the check on ioctl commands submitted to a device, the device life cycle
 * and the reference count that keeps a device structure alive while an ioctl uses it.
 *
 * The kernel's `PAGE_SIZE` is the 4 KiB page of x86; the block device major number that
 * `register_blkdev` hands out is a parameter.
 */
module KbdusDevice {
  import opened CTypes
  import opened Wrappers
  import opened Bits
  import opened KbdusAbi
  import KernelUtilities

  const PAGE_SIZE: u32 := 4096

  /** The cap that adjustment puts on `max_read_write_size` (512 KiB). */
  const MAX_READ_WRITE_CAP: u32 := 512 * 1024

  // Linux's `BLKROSET` and `BLKFLSBUF`: `_IO(0x12, 93)` and `_IO(0x12, 97)`.
  const BLKROSET: u32 := 0x125D
  const BLKFLSBUF: u32 := 0x1261

  /* ------------------------------------------------------------------------------------ */
  /* Request types and the configuration flags that enable them */

  /** Whether `config` enables requests of type `t`. */
  predicate Supports(config: DeviceConfig, t: u32)
  {
    if t == REQ_READ then config.supportsRead
    else if t == REQ_WRITE then config.supportsWrite
    else if t == REQ_WRITE_SAME then config.supportsWriteSame
    else if t == REQ_WRITE_ZEROS_NO_UNMAP || t == REQ_WRITE_ZEROS_MAY_UNMAP then config.supportsWriteZeros
    else if t == REQ_FUA_WRITE then config.supportsFuaWrite
    else if t == REQ_FLUSH then config.supportsFlush
    else if t == REQ_DISCARD then config.supportsDiscard
    else if t == REQ_SECURE_ERASE then config.supportsSecureErase
    else if t == REQ_IOCTL then config.supportsIoctl
    else false
  }

  /** Request types that change the device's contents. */
  predicate ModifiesData(t: u32)
  {
    t == REQ_WRITE || t == REQ_WRITE_SAME || t == REQ_WRITE_ZEROS_NO_UNMAP
    || t == REQ_WRITE_ZEROS_MAY_UNMAP || t == REQ_FUA_WRITE || t == REQ_DISCARD
    || t == REQ_SECURE_ERASE
  }

  /** `kbdus_device_is_read_only_`: the device accepts no request that changes its contents. */
  function IsReadOnly(config: DeviceConfig): (r: bool)
    ensures r <==> forall t: u32 :: ModifiesData(t) ==> !Supports(config, t)
  {
    assert ModifiesData(REQ_WRITE) && ModifiesData(REQ_WRITE_SAME) && ModifiesData(REQ_WRITE_ZEROS_NO_UNMAP);
    assert ModifiesData(REQ_FUA_WRITE) && ModifiesData(REQ_DISCARD) && ModifiesData(REQ_SECURE_ERASE);
    !config.supportsWrite && !config.supportsWriteSame && !config.supportsWriteZeros
    && !config.supportsFuaWrite && !config.supportsDiscard && !config.supportsSecureErase
  }

  /** Reads and flushes leave a device read-only. */
  lemma ReadAndFlushOnly(config: DeviceConfig)
    requires forall t: u32 :: Supports(config, t) ==> t in {REQ_READ, REQ_FLUSH, REQ_IOCTL}
    ensures IsReadOnly(config)
  {
  }

  /* ------------------------------------------------------------------------------------ */
  /* Ioctl commands */

  /**
   * `kbdus_device_is_valid_ioctl_`: a command without an argument direction needs size 0
   * and a null argument; one that reads, writes or both needs a size in [1, 2^14) and a
   * non-null argument.
   */
  function IsValidIoctl(command: u32, argIsNull: bool): (ok: bool)
    ensures ok ==> IocDir(command) == IOC_NONE || IocSize(command) > 0
    ensures ok ==> (argIsNull <==> IocDir(command) == IOC_NONE)
  {
    var size := IocSize(command);
    match IocDir(command)
    case 0 => size == 0 && argIsNull
    case 1 => 0 < size < 0x4000 && !argIsNull
    case 2 => 0 < size < 0x4000 && !argIsNull
    case 3 => 0 < size < 0x4000 && !argIsNull
  }

  /**
   * On a command built from its fields: it is valid exactly when its direction and size
   * agree (no argument and no size, or an argument with a size) and the argument pointer
   * matches the direction.
   */
  lemma ValidIoctlByFields(dir: nat, iocType: nat, nr: nat, size: nat, argIsNull: bool)
    requires dir < 4 && iocType < 0x100 && nr < 0x100 && size < IOC_SIZE_LIMIT
    ensures IsValidIoctl(IocCommand(dir, iocType, nr, size), argIsNull) <==>
      if dir == IOC_NONE then size == 0 && argIsNull else size > 0 && !argIsNull
  {
    IocFieldsRoundTrip(dir, iocType, nr, size);
  }

  /* ------------------------------------------------------------------------------------ */
  /* Configuration validation */

  function Max(a: u32, b: u32): (m: u32)
    ensures m >= a && m >= b && (m == a || m == b)
  {
    if a > b then a else b
  }

  /** What a valid configuration is. */
  ghost predicate ValidConfig(c: DeviceConfig)
  {
    && (c.supportsFuaWrite ==> c.supportsFlush)
    && IsPow2(c.logicalBlockSize) && 512 <= c.logicalBlockSize <= PAGE_SIZE
    && (c.physicalBlockSize == 0
        || (IsPow2(c.physicalBlockSize) && c.logicalBlockSize <= c.physicalBlockSize <= PAGE_SIZE))
    && c.size > 0 && Divides(Max(c.physicalBlockSize, c.logicalBlockSize), c.size)
    && (c.maxReadWriteSize == 0 || c.maxReadWriteSize >= PAGE_SIZE)
    && (c.maxWriteSameSize == 0 || c.maxWriteSameSize >= c.logicalBlockSize)
    && (c.maxWriteZerosSize == 0 || c.maxWriteZerosSize >= c.logicalBlockSize)
    && (c.maxDiscardEraseSize == 0 || c.maxDiscardEraseSize >= c.logicalBlockSize)
    && 1 <= c.maxActiveQueueReqs <= HARD_MAX_ACTIVE_QUEUE_REQS
    && 1 <= c.maxActiveIoctlReqs <= HARD_MAX_ACTIVE_IOCTL_REQS
  }

  /** kbdus's power-of-two bit test agrees with `IsPow2`. */
  lemma PowerOfTwoTest(x: u64)
    ensures KernelUtilities.IsPowerOfTwo(x) <==> IsPow2(x)
  {
    IsPow2Exponent(x);
  }

  /**
   * `kbdus_device_validate_config_`. The ioctl limit must lie in [1, 4096] even for a device
   * that does not support ioctl.
   */
  function ValidateConfig(c: DeviceConfig): (ok: bool)
    ensures ok <==> ValidConfig(c)
  {
    var lbs := c.logicalBlockSize;
    var pbs := c.physicalBlockSize;
    PowerOfTwoTest(lbs);
    PowerOfTwoTest(pbs);
    var valid := !c.supportsFuaWrite || c.supportsFlush;
    var valid := valid && KernelUtilities.IsPowerOfTwo(lbs) && lbs >= 512 && lbs <= PAGE_SIZE;
    var valid := valid && (pbs == 0 || (KernelUtilities.IsPowerOfTwo(pbs) && pbs >= lbs && pbs <= PAGE_SIZE));
    var valid := valid && KernelUtilities.IsPositiveMultipleOf(c.size, Max(pbs, lbs));
    var valid := valid && (c.maxReadWriteSize == 0 || c.maxReadWriteSize >= PAGE_SIZE);
    var valid := valid && (c.maxWriteSameSize == 0 || c.maxWriteSameSize >= lbs);
    var valid := valid && (c.maxWriteZerosSize == 0 || c.maxWriteZerosSize >= lbs);
    var valid := valid && (c.maxDiscardEraseSize == 0 || c.maxDiscardEraseSize >= lbs);
    var valid := valid && c.maxActiveQueueReqs >= 1 && c.maxActiveQueueReqs <= HARD_MAX_ACTIVE_QUEUE_REQS;
    valid && c.maxActiveIoctlReqs >= 1 && c.maxActiveIoctlReqs <= HARD_MAX_ACTIVE_IOCTL_REQS
  }

  /* ------------------------------------------------------------------------------------ */
  /* Configuration adjustment */

  /** The kernel's `min_not_zero`: the smaller of the non-zero arguments. */
  function MinNotZero(x: u32, y: u32): (m: u32)
    ensures m == 0 <==> x == 0 && y == 0
    ensures x != 0 ==> m <= x
    ensures y != 0 ==> m <= y
    ensures m == x || m == y
  {
    if x == 0 then y
    else if y == 0 then x
    else if x < y then x else y
  }

  /**
   * The kernel's `round_down(x, y)`, a mask that is only meaningful for a power-of-two `y`,
   * the only kind it is used with here: the largest multiple of `y` not above `x`.
   */
  function RoundDown(x: u32, y: u32): (r: u32)
    requires y > 0
    ensures r <= x && Divides(y, r) && x - r < y
  {
    var q := x / y;
    assert x - x % y == q * y;
    x - x % y
  }

  /** A multiple of `y` is its own rounding. */
  lemma RoundDownMultiple(x: u32, y: u32)
    requires y > 0 && Divides(y, x)
    ensures RoundDown(x, y) == x
  {
    ModZeroIffDivides(x, y);
  }

  /** Rounding a value at least `m` down to a divisor of `m` stays at least `m`. */
  lemma RoundDownKeepsMultipleBound(x: u32, y: u32, m: u32)
    requires 0 < y && Divides(y, m) && m <= x
    ensures RoundDown(x, y) >= m
  {
    var q := x / y;
    var r := x % y;
    assert x == q * y + r && r < y;
    assert RoundDown(x, y) == q * y;
    var p: nat :| m == p * y;
    assert (q + 1) * y == q * y + y;
    if p > q {
      MulMonoLe(q + 1, p, y);
    } else {
      MulMonoLe(p, q, y);
    }
  }

  /** Rounding a value at least `y` down gives a non-zero multiple of `y`. */
  lemma RoundDownPositive(x: u32, y: u32)
    requires 0 < y <= x
    ensures RoundDown(x, y) >= y
  {
    assert y == 1 * y;
    RoundDownKeepsMultipleBound(x, y, y);
  }

  lemma MulMonoLe(a: nat, b: nat, y: nat)
    requires a <= b
    ensures a * y <= b * y
  {
  }

  /**
   * One adjusted maximum: 0 when its requests are unsupported, otherwise the configured value
   * (or `cap` when it is 0) capped at `cap` and rounded down to a multiple of the logical
   * block size.
   */
  function AdjustedMax(v: u32, supported: bool, cap: u32, lbs: u32): (r: u32)
    requires lbs > 0 && cap > 0
    ensures !supported ==> r == 0
    ensures Divides(lbs, r)
    ensures r <= cap
    ensures v != 0 ==> r <= v
  {
    if !supported then assert 0 == 0 * lbs; 0
    else RoundDown(MinNotZero(v, cap), lbs)
  }

  /** A maximum that validation accepted adjusts to 0 exactly when its requests are unsupported. */
  lemma AdjustedMaxZeroIff(v: u32, supported: bool, cap: u32, lbs: u32)
    requires 0 < lbs <= cap && (v == 0 || v >= lbs)
    ensures AdjustedMax(v, supported, cap, lbs) == 0 <==> !supported
    ensures supported ==> AdjustedMax(v, supported, cap, lbs) >= lbs
  {
    if supported {
      RoundDownPositive(MinNotZero(v, cap), lbs);
    }
  }

  /** Adjusting an already adjusted maximum changes nothing. */
  lemma AdjustedMaxIdempotent(v: u32, supported: bool, cap: u32, lbs: u32)
    requires 0 < lbs <= cap && (v == 0 || v >= lbs)
    ensures AdjustedMax(AdjustedMax(v, supported, cap, lbs), supported, cap, lbs) == AdjustedMax(v, supported, cap, lbs)
  {
    var r := AdjustedMax(v, supported, cap, lbs);
    if supported {
      assert MinNotZero(r, cap) == r;
      RoundDownMultiple(r, lbs);
    }
  }

  /** `x`, or `default` when `x` is 0. */
  function OrDefault(x: u32, default: u32): (r: u32)
    ensures r != 0 <==> x != 0 || default != 0
    ensures x != 0 ==> r == x
  {
    if x == 0 then default else x
  }

  /** Which requests each maximum limits. */
  predicate ReadWriteSupported(c: DeviceConfig)
  {
    c.supportsRead || c.supportsWrite || c.supportsFuaWrite
  }

  predicate DiscardEraseSupported(c: DeviceConfig)
  {
    c.supportsDiscard || c.supportsSecureErase
  }

  /** What `kbdus_device_adjust_config_` leaves in a configuration, `major` being kbdus's major number. */
  function Adjusted(c: DeviceConfig, major: u32): (a: DeviceConfig)
    requires c.logicalBlockSize > 0
  {
    var lbs := c.logicalBlockSize;
    c.(major := major,
       physicalBlockSize := OrDefault(c.physicalBlockSize, lbs),
       maxReadWriteSize := AdjustedMax(c.maxReadWriteSize, ReadWriteSupported(c), MAX_READ_WRITE_CAP, lbs),
       maxWriteSameSize := AdjustedMax(c.maxWriteSameSize, c.supportsWriteSame, U32_MAX, lbs),
       maxWriteZerosSize := AdjustedMax(c.maxWriteZerosSize, c.supportsWriteZeros, U32_MAX, lbs),
       maxDiscardEraseSize := AdjustedMax(c.maxDiscardEraseSize, DiscardEraseSupported(c), U32_MAX, lbs))
  }

  /**
   * `kbdus_device_adjust_config_`: computes the new field values one after the other as the
   * source does, then stores them in the configuration it was given.
   */
  method AdjustConfig(config: DeviceConfig, major: u32) returns (c: DeviceConfig)
    requires config.logicalBlockSize > 0
    ensures c == Adjusted(config, major)
  {
    var lbs := config.logicalBlockSize;
    var pbs := config.physicalBlockSize;
    if pbs == 0 {
      pbs := lbs;
    }
    var maxReadWrite: u32;
    if !config.supportsRead && !config.supportsWrite && !config.supportsFuaWrite {
      maxReadWrite := 0;
    } else {
      maxReadWrite := RoundDown(MinNotZero(config.maxReadWriteSize, MAX_READ_WRITE_CAP), lbs);
    }
    var maxWriteSame: u32;
    if !config.supportsWriteSame {
      maxWriteSame := 0;
    } else {
      maxWriteSame := RoundDown(MinNotZero(config.maxWriteSameSize, U32_MAX), lbs);
    }
    var maxWriteZeros: u32;
    if !config.supportsWriteZeros {
      maxWriteZeros := 0;
    } else {
      maxWriteZeros := RoundDown(MinNotZero(config.maxWriteZerosSize, U32_MAX), lbs);
    }
    var maxDiscardErase: u32;
    if !config.supportsDiscard && !config.supportsSecureErase {
      maxDiscardErase := 0;
    } else {
      maxDiscardErase := RoundDown(MinNotZero(config.maxDiscardEraseSize, U32_MAX), lbs);
    }
    c := config.(major := major, physicalBlockSize := pbs, maxReadWriteSize := maxReadWrite,
      maxWriteSameSize := maxWriteSame, maxWriteZerosSize := maxWriteZeros,
      maxDiscardEraseSize := maxDiscardErase);
  }

  /**
   * Adjustment leaves every maximum a multiple of the logical block size, never above a
   * non-zero configured value, and the read/write maximum within 512 KiB; the physical
   * block size is always set.
   */
  lemma AdjustedMaximaBounded(c: DeviceConfig, major: u32)
    requires ValidConfig(c)
    ensures Adjusted(c, major).physicalBlockSize >= c.logicalBlockSize
    ensures var a := Adjusted(c, major);
      && Divides(c.logicalBlockSize, a.maxReadWriteSize) && Divides(c.logicalBlockSize, a.maxWriteSameSize)
      && Divides(c.logicalBlockSize, a.maxWriteZerosSize) && Divides(c.logicalBlockSize, a.maxDiscardEraseSize)
    ensures var a := Adjusted(c, major);
      && (c.maxReadWriteSize != 0 ==> a.maxReadWriteSize <= c.maxReadWriteSize)
      && (c.maxWriteSameSize != 0 ==> a.maxWriteSameSize <= c.maxWriteSameSize)
      && (c.maxWriteZerosSize != 0 ==> a.maxWriteZerosSize <= c.maxWriteZerosSize)
      && (c.maxDiscardEraseSize != 0 ==> a.maxDiscardEraseSize <= c.maxDiscardEraseSize)
      && a.maxReadWriteSize <= MAX_READ_WRITE_CAP
  {
  }

  /** On a valid configuration, an adjusted maximum is 0 exactly when the requests it limits are unsupported. */
  lemma AdjustedMaximaZeroIffUnsupported(c: DeviceConfig, major: u32)
    requires ValidConfig(c)
    ensures var a := Adjusted(c, major);
      && (a.maxReadWriteSize == 0 <==> !ReadWriteSupported(c))
      && (a.maxWriteSameSize == 0 <==> !c.supportsWriteSame)
      && (a.maxWriteZerosSize == 0 <==> !c.supportsWriteZeros)
      && (a.maxDiscardEraseSize == 0 <==> !DiscardEraseSupported(c))
  {
    var lbs := c.logicalBlockSize;
    AdjustedMaxZeroIff(c.maxReadWriteSize, ReadWriteSupported(c), MAX_READ_WRITE_CAP, lbs);
    AdjustedMaxZeroIff(c.maxWriteSameSize, c.supportsWriteSame, U32_MAX, lbs);
    AdjustedMaxZeroIff(c.maxWriteZerosSize, c.supportsWriteZeros, U32_MAX, lbs);
    AdjustedMaxZeroIff(c.maxDiscardEraseSize, DiscardEraseSupported(c), U32_MAX, lbs);
  }

  /** A valid configuration stays valid once adjusted. */
  lemma AdjustedStaysValid(c: DeviceConfig, major: u32)
    requires ValidConfig(c)
    ensures ValidConfig(Adjusted(c, major))
  {
    var a := Adjusted(c, major);
    var lbs := c.logicalBlockSize;
    AdjustedMaxZeroIff(c.maxReadWriteSize, ReadWriteSupported(c), MAX_READ_WRITE_CAP, lbs);
    AdjustedMaxZeroIff(c.maxWriteSameSize, c.supportsWriteSame, U32_MAX, lbs);
    AdjustedMaxZeroIff(c.maxWriteZerosSize, c.supportsWriteZeros, U32_MAX, lbs);
    AdjustedMaxZeroIff(c.maxDiscardEraseSize, DiscardEraseSupported(c), U32_MAX, lbs);
    assert Max(a.physicalBlockSize, lbs) == Max(c.physicalBlockSize, lbs);
    if ReadWriteSupported(c) {
      // the page size is a multiple of the logical block size, so rounding keeps it as a floor
      PageSizeIsPow2();
      Pow2Divides(lbs, PAGE_SIZE);
      ModZeroIffDivides(PAGE_SIZE, lbs);
      var m := MinNotZero(c.maxReadWriteSize, MAX_READ_WRITE_CAP);
      RoundDownKeepsMultipleBound(m, lbs, PAGE_SIZE);
    }
  }

  lemma PageSizeIsPow2()
    ensures IsPow2(PAGE_SIZE)
  {
    assert IsPow2(1) && IsPow2(2) && IsPow2(4) && IsPow2(8) && IsPow2(16) && IsPow2(32);
    assert IsPow2(64) && IsPow2(128) && IsPow2(256) && IsPow2(512) && IsPow2(1024) && IsPow2(2048);
  }

  /** Adjusting twice is adjusting once. */
  lemma AdjustIdempotent(c: DeviceConfig, major: u32)
    requires ValidConfig(c)
    ensures Adjusted(Adjusted(c, major), major) == Adjusted(c, major)
  {
    var lbs := c.logicalBlockSize;
    var a := Adjusted(c, major);
    assert a.logicalBlockSize == lbs && a.major == major;
    assert ReadWriteSupported(a) == ReadWriteSupported(c) && DiscardEraseSupported(a) == DiscardEraseSupported(c);
    AdjustedMaxIdempotent(c.maxReadWriteSize, ReadWriteSupported(c), MAX_READ_WRITE_CAP, lbs);
    AdjustedMaxIdempotent(c.maxWriteSameSize, c.supportsWriteSame, U32_MAX, lbs);
    AdjustedMaxIdempotent(c.maxWriteZerosSize, c.supportsWriteZeros, U32_MAX, lbs);
    AdjustedMaxIdempotent(c.maxDiscardEraseSize, DiscardEraseSupported(c), U32_MAX, lbs);
  }

  /**
   * `kbdus_device_validate_and_adjust_config`: -EINVAL and the configuration untouched when
   * it is invalid; otherwise 0 and the adjusted configuration, which is still valid.
   */
  method ValidateAndAdjust(config: DeviceConfig, major: u32) returns (ret: int, c: DeviceConfig)
    ensures !ValidConfig(config) ==> ret == -(EINVAL as int) && c == config
    ensures ValidConfig(config) ==> ret == 0 && c == Adjusted(config, major) && ValidConfig(c)
  {
    if !ValidateConfig(config) {
      return -(EINVAL as int), config;
    }
    c := AdjustConfig(config, major);
    AdjustedStaysValid(config, major);
    ret := 0;
  }

  /* ------------------------------------------------------------------------------------ */
  /* Device life cycle */

  /** `enum kbdus_device_state`. */
  datatype DeviceState = Unavailable | Active | Inactive | Terminated

  /** What moves a device between states. */
  datatype Event =
    | DiskAdded    // the add-disk task's compare-exchange from UNAVAILABLE to ACTIVE
    | Terminate
    | Deactivate
    | Activate

  /**
   * The state after `e`, or `None` where no caller lets the event happen: deactivating a
   * TERMINATED device, activating one that is not INACTIVE. Deactivation exchanges the state
   * for INACTIVE whatever it was (the assertion that it was ACTIVE only logs), so an INACTIVE
   * device stays INACTIVE and an UNAVAILABLE one becomes INACTIVE.
   */
  function Next(s: DeviceState, e: Event): (r: Option<DeviceState>)
    ensures e == Terminate ==> r == Some(Terminated)
    ensures e == DiskAdded ==> r == Some(if s == Unavailable then Active else s)
    ensures e == Deactivate ==> (r.Some? <==> s != Terminated) && (r.Some? ==> r.value == Inactive)
    ensures e == Activate ==> (r.Some? <==> s == Inactive) && (r.Some? ==> r.value == Active)
  {
    match e
    case DiskAdded => Some(if s == Unavailable then Active else s)
    case Terminate => Some(Terminated)
    case Deactivate => if s != Terminated then Some(Inactive) else None
    case Activate => if s == Inactive then Some(Active) else None
  }

  /** The state after a run of events from `s`, `None` once an event is refused. */
  function Run(s: DeviceState, events: seq<Event>): Option<DeviceState>
    decreases |events|
  {
    if events == [] then Some(s)
    else match Next(s, events[0])
      case None => None
      case Some(s') => Run(s', events[1..])
  }

  /** A device reaches ACTIVE from elsewhere only through the compare-exchange or activation. */
  lemma EnteringActive(s: DeviceState, e: Event)
    requires s != Active && Next(s, e) == Some(Active)
    ensures (s == Unavailable && e == DiskAdded) || (s == Inactive && e == Activate)
  {
  }

  /** TERMINATED is final: every accepted event leaves the device TERMINATED. */
  lemma {:induction false} TerminatedIsFinal(events: seq<Event>)
    ensures Run(Terminated, events).Some? ==> Run(Terminated, events) == Some(Terminated)
  {
    if events != [] {
      TerminatedIsFinal(events[1..]);
    }
  }

  /** A device that has left UNAVAILABLE never returns to it. */
  lemma {:induction false} UnavailableNeverReentered(s: DeviceState, events: seq<Event>)
    requires s != Unavailable
    ensures Run(s, events) != Some(Unavailable)
    decreases |events|
  {
    if events != [] {
      match Next(s, events[0])
      case None =>
      case Some(s') => UnavailableNeverReentered(s', events[1..]);
    }
  }

  /* ------------------------------------------------------------------------------------ */
  /* The device structure */

  /**
   * `struct kbdus_device`. `attached` says whether the request queue's `queuedata` still
   * points at the structure, which is also whether the structure is still allocated;
   * `inverterPresent` whether the inverter has not been destroyed yet.
   */
  class Device {
    var state: DeviceState
    const config: DeviceConfig
    const maxActiveIoctlReqs: nat
    var refCount: nat
    var attached: bool
    var inverterPresent: bool

    /** The structure is allocated exactly while someone holds a reference to it. */
    ghost predicate Valid()
      reads this
    {
      attached <==> refCount > 0
    }

    /**
     * `kbdus_device_create` on its success path: UNAVAILABLE, one reference (the creator's),
     * and as many ioctl slots as the configuration asks for when ioctl is supported, else none.
     */
    constructor (config: DeviceConfig)
      ensures Valid()
      ensures state == Unavailable && refCount == 1 && attached && inverterPresent
      ensures this.config == config
      ensures maxActiveIoctlReqs == if config.supportsIoctl then config.maxActiveIoctlReqs as nat else 0
    {
      state := Unavailable;
      this.config := config;
      refCount := 1;
      maxActiveIoctlReqs := if config.supportsIoctl then config.maxActiveIoctlReqs as nat else 0;
      attached := true;
      inverterPresent := true;
    }

    /** `kbdus_device_add_disk_`'s final compare-exchange from UNAVAILABLE to ACTIVE. */
    method MarkDiskAdded()
      modifies this
      ensures Some(state) == Next(old(state), DiskAdded)
      ensures refCount == old(refCount) && attached == old(attached) && inverterPresent == old(inverterPresent)
    {
      if state == Unavailable {
        state := Active;
      }
    }

    /** `kbdus_device_terminate`. */
    method Terminate()
      modifies this
      ensures Some(state) == Next(old(state), Event.Terminate)
      ensures refCount == old(refCount) && attached == old(attached) && inverterPresent == old(inverterPresent)
    {
      state := Terminated;
    }

    /** `kbdus_device_deactivate`, whose callers never pass a TERMINATED device. */
    method Deactivate()
      requires state != Terminated
      modifies this
      ensures Some(state) == Next(old(state), Event.Deactivate)
      ensures refCount == old(refCount) && attached == old(attached) && inverterPresent == old(inverterPresent)
    {
      state := Inactive;
    }

    /** `kbdus_device_activate`, whose callers guarantee an INACTIVE device. */
    method Activate()
      requires state == Inactive
      modifies this
      ensures Some(state) == Next(old(state), Event.Activate)
      ensures refCount == old(refCount) && attached == old(attached) && inverterPresent == old(inverterPresent)
    {
      state := Active;
    }

    /** `kbdus_device_get_ref_`: a new reference while the structure is still attached. */
    method GetRef() returns (got: bool)
      requires Valid()
      modifies this
      ensures Valid()
      ensures got == old(attached) && attached == old(attached)
      ensures refCount == if got then old(refCount) + 1 else old(refCount)
      ensures state == old(state) && inverterPresent == old(inverterPresent)
    {
      if attached {
        refCount := refCount + 1;
        got := true;
      } else {
        got := false;
      }
    }

    /** `kbdus_device_put_ref_`: drops a reference; dropping the last one frees the structure. */
    method PutRef()
      requires Valid() && attached
      modifies this
      ensures Valid()
      ensures refCount == old(refCount) - 1
      ensures attached <==> refCount > 0
      ensures state == old(state) && inverterPresent == old(inverterPresent)
    {
      refCount := refCount - 1;
      if refCount == 0 {
        attached := false;
      }
    }

    /**
     * `kbdus_device_ioctl_`. `interrupted` is whether waiting for an ioctl slot was
     * interrupted and `inverterResult` what the inverter returns for the request. The
     * reference taken for the call is dropped before returning, so the count is unchanged.
     */
    method Ioctl(command: u32, argIsNull: bool, interrupted: bool, inverterResult: int) returns (ret: int)
      requires Valid()
      modifies this
      ensures Valid()
      ensures refCount == old(refCount) && attached == old(attached)
      ensures state == old(state) && inverterPresent == old(inverterPresent)
      ensures command == BLKFLSBUF || command == BLKROSET ==> ret == -(ENOTTY as int)
      ensures command != BLKFLSBUF && command != BLKROSET ==>
        if !old(attached) then ret == -(ENODEV as int)
        else if maxActiveIoctlReqs == 0 || !IsValidIoctl(command, argIsNull) then ret == -(ENOTTY as int)
        else if interrupted then ret == -(ERESTARTSYS as int)
        else if !inverterPresent then ret == -(ENODEV as int)
        else ret == inverterResult
    {
      if command == BLKFLSBUF || command == BLKROSET {
        return -(ENOTTY as int);
      }
      var got := GetRef();
      if !got {
        return -(ENODEV as int);
      }
      if maxActiveIoctlReqs == 0 {
        ret := -(ENOTTY as int);
      } else if !IsValidIoctl(command, argIsNull) {
        ret := -(ENOTTY as int);
      } else if interrupted {
        ret := -(ERESTARTSYS as int);
      } else if inverterPresent {
        ret := inverterResult;
      } else {
        ret := -(ENODEV as int);
      }
      PutRef();
    }

    /**
     * `kbdus_device_destroy`: terminates and destroys the inverter (so every later ioctl finds
     * none) and drops the creator's reference, which frees the structure unless an ioctl still
     * holds one. The device's own state is left as it was: only the inverter is terminated.
     */
    method Destroy()
      requires Valid() && attached
      modifies this
      ensures Valid()
      ensures state == old(state) && !inverterPresent
      ensures refCount == old(refCount) - 1
    {
      inverterPresent := false;
      PutRef();
    }
  }

  /** An ioctl that raced with destruction finds the device freed and reports -ENODEV. */
  method IoctlAfterDestroy(config: DeviceConfig, command: u32) returns (ret: int)
    ensures command != BLKFLSBUF && command != BLKROSET ==> ret == -(ENODEV as int)
  {
    var d := new Device(config);
    d.Destroy();
    ret := d.Ioctl(command, false, false, 0);
  }
}
