/**
 * The parts of libbdus's front end (libbdus/src/bdus.c) with logic of their own: decimal
 * index parsing, device paths, the attribute and callback validators of `bdus_run` and
 * `bdus_rerun`, the defaulting of the internal configuration, the clamp on concurrent
 * callbacks, the version check and the flush/destroy sequence.
 *
 * C strings are modelled as their characters up to (not including) the terminating NUL.
 * The control-device calls of `bdus_manage_dev_` are not modelled; their success is a parameter.
 */
module LibBdus {
  import opened CTypes
  import opened Wrappers
  import opened Bits
  import opened Decimal
  import opened KbdusAbi
  import LibUtilities
  import LibBackend

  /** C's `isspace` in the "C" locale. */
  predicate IsSpace(c: char)
  {
    c == ' ' || c == '\t' || c == '\n' || c == '\U{B}' || c == '\U{C}' || c == '\r'
  }

  /** How many leading characters of `s` are decimal digits: where `strtoull` stops. */
  function DigitRun(s: string): (n: nat)
    ensures n <= |s| && AllDigits(s[..n])
    ensures n < |s| ==> !IsDigit(s[n])
  {
    if s == [] || !IsDigit(s[0]) then 0
    else
      var m := DigitRun(s[1..]);
      assert s[..1 + m] == [s[0]] + s[1..][..m];
      1 + m
  }

  /** A string of digits is its own digit run. */
  lemma {:induction false} DigitRunOfDigits(s: string)
    ensures AllDigits(s) ==> DigitRun(s) == |s|
  {
    if s != [] && AllDigits(s) {
      DigitRunOfDigits(s[1..]);
    }
  }

  /**
   * `bdus_parse_uint32_`: rejects an empty string, a leading sign or white space, and a leading
   * zero followed by more characters; then `strtoull` (which saturates at ULLONG_MAX) must
   * consume the whole string, and the value must fit in 32 bits. `None` leaves the output alone.
   */
  function ParseUint32(s: string): (r: Option<u32>)
    ensures r.Some? <==> Canonical(s) && Value(s) <= U32_MAX
    ensures r.Some? ==> r.value == Value(s)
  {
    if s == [] || s[0] == '+' || s[0] == '-' || IsSpace(s[0]) then None
    else if s[0] == '0' && |s| > 1 then None
    else
      var run := DigitRun(s);
      var value := if Value(s[..run]) > U64_MAX then U64_MAX else Value(s[..run]);
      assert run == |s| ==> s[..run] == s;
      DigitRunOfDigits(s);
      if value == U64_MAX then None
      else if run != |s| then None
      else if value > U32_MAX then None
      else Some(value)
  }

  /** Formatting an index and parsing it back gives the index. */
  lemma ParseFormat(n: u32)
    ensures ParseUint32(Format(n)) == Some(n)
  {
  }

  /** A string that parses is the formatting of its value. */
  lemma FormatParse(s: string)
    requires ParseUint32(s).Some?
    ensures Format(ParseUint32(s).value) == s
  {
    FormatValue(s);
  }

  const DEV_PATH_PREFIX: string := "/dev/bdus-"

  /** The path of device `index`, as `"/dev/bdus-%" PRIu32` renders it. */
  function DevPath(index: u32): string
  {
    DEV_PATH_PREFIX + Format(index)
  }

  /**
   * `bdus_dev_path_to_index_`: the string must start with "/dev/bdus-" and the rest must parse
   * as an index. It accepts exactly the device paths.
   */
  function PathToIndex(path: string): (r: Option<u32>)
    ensures r.Some? ==> path == DevPath(r.value)
    ensures forall i: u32 {:trigger DevPath(i)} :: path == DevPath(i) ==> r == Some(i)
  {
    var n := |DEV_PATH_PREFIX|;
    if |path| < n || path[..n] != DEV_PATH_PREFIX then None
    else
      PrefixedPath(path);
      ParseUint32(path[n..])
  }

  lemma PrefixedPath(path: string)
    requires |path| >= |DEV_PATH_PREFIX| && path[..|DEV_PATH_PREFIX|] == DEV_PATH_PREFIX
    ensures var r := ParseUint32(path[|DEV_PATH_PREFIX|..]);
      (r.Some? ==> path == DevPath(r.value))
      && forall i: u32 {:trigger DevPath(i)} :: path == DevPath(i) ==> r == Some(i)
  {
    var n := |DEV_PATH_PREFIX|;
    var r := ParseUint32(path[n..]);
    assert path == DEV_PATH_PREFIX + path[n..];
    if r.Some? {
      FormatParse(path[n..]);
    }
    forall i: u32 | path == DevPath(i)
      ensures r == Some(i)
    {
      assert path[n..] == Format(i);
      ParseFormat(i);
    }
  }

  /** No string is both a bare index and a device path. */
  lemma IndexAndPathDisjoint(s: string)
    ensures !(ParseUint32(s).Some? && PathToIndex(s).Some?)
  {
    if PathToIndex(s).Some? {
      assert s[0] == DEV_PATH_PREFIX[0];
    }
  }

  /**
   * `bdus_dev_index_or_path_to_index`: a bare index first, then a device path; anything else
   * is EINVAL.
   */
  function IndexOrPathToIndex(s: string): (r: Result<u32, nat>)
    ensures r.Ok? <==> ParseUint32(s).Some? || PathToIndex(s).Some?
    ensures ParseUint32(s).Some? ==> r == Ok(ParseUint32(s).value)
    ensures PathToIndex(s).Some? ==> r == Ok(PathToIndex(s).value)
    ensures r.Err? ==> r.error == EINVAL
  {
    match ParseUint32(s)
    case Some(i) =>
      IndexAndPathDisjoint(s);
      Ok(i)
    case None =>
      match PathToIndex(s)
      case Some(i) => Ok(i)
      case None => Err(EINVAL)
  }

  /**
   * What `bdus_dev_index_to_path` leaves behind: its return value, the characters written to
   * the buffer (`snprintf` writes at most `bufSize - 1` characters and a NUL, nothing when
   * `bufSize` is 0), and the error it sets.
   */
  datatype PathOutput = PathOutput(returned: nat, written: string, error: Option<nat>)

  /**
   * `bdus_dev_index_to_path`: formats the path and returns its length without the NUL, unless a
   * non-zero buffer size is too small, which returns 0 with EINVAL. (Its EIO branch for a
   * non-positive `snprintf` result is unreachable: the path has at least 11 characters.)
   */
  function IndexToPath(bufSize: u64, index: u32): (out: PathOutput)
    ensures out.error.Some? <==> bufSize != 0 && bufSize <= |DevPath(index)|
    ensures out.error.Some? ==> out.error.value == EINVAL && out.returned == 0
    ensures out.error.None? ==> out.returned == |DevPath(index)| > 0
    ensures bufSize == 0 ==> out.written == []
    ensures out.error.None? && bufSize != 0 ==> out.written == DevPath(index) + ['\0']
    ensures bufSize != 0 ==> |out.written| == LibUtilities.Min(|DevPath(index)| + 1, bufSize)
  {
    var path := DevPath(index);
    var ret := |path|;
    var written := if bufSize == 0 then [] else path[..LibUtilities.Min(ret, bufSize - 1)] + ['\0'];
    if bufSize != 0 && ret >= bufSize then PathOutput(0, written, Some(EINVAL))
    else
      assert bufSize != 0 ==> path[..ret] == path;
      PathOutput(ret, written, None)
  }

  /** The path `bdus_dev_index_to_path` writes leads back to its index. */
  lemma PathRoundTrip(bufSize: u64, index: u32)
    requires bufSize > |DevPath(index)|
    ensures var out := IndexToPath(bufSize, index);
      PathToIndex(out.written[..out.returned]) == Some(index)
  {
    var out := IndexToPath(bufSize, index);
    assert out.written[..out.returned] == DevPath(index);
  }

  /** Which callbacks a driver implements (non-NULL members of `struct bdus_ops`). */
  datatype Ops = Ops(
    read: bool, write: bool, writeSame: bool, writeZeros: bool, fuaWrite: bool, flush: bool,
    discard: bool, secureErase: bool, ioctl: bool)

  /**
   * The request types `bdus_run` asks kbdus to support: exactly those whose callback the driver
   * implements.
   */
  predicate ConfigFollowsOps(config: DeviceConfig, ops: Ops)
  {
    config.supportsRead == ops.read && config.supportsWrite == ops.write
    && config.supportsWriteSame == ops.writeSame && config.supportsWriteZeros == ops.writeZeros
    && config.supportsFuaWrite == ops.fuaWrite && config.supportsFlush == ops.flush
    && config.supportsDiscard == ops.discard && config.supportsSecureErase == ops.secureErase
    && config.supportsIoctl == ops.ioctl
  }

  /** `struct bdus_attrs`, without the daemonisation flag. */
  datatype Attrs = Attrs(
    logicalBlockSize: u32,
    physicalBlockSize: u32,
    size: u64,
    maxReadWriteSize: u32,
    maxWriteSameSize: u32,
    maxWriteZerosSize: u32,
    maxDiscardEraseSize: u32,
    maxConcurrentCallbacks: u32)

  /** `bdus_validate_ops_run_`: `fua_write` requires `flush`. */
  function ValidateOpsRun(ops: Ops): (ok: bool)
    ensures ok <==> (ops.fuaWrite ==> ops.flush)
  {
    !(ops.fuaWrite && !ops.flush)
  }

  /**
   * `bdus_validate_attrs_run_` for a system page size `pageSize` (0 when it cannot be obtained,
   * which fails with the errno `sysconf` left). Every other failure is EINVAL.
   */
  function ValidateAttrsRun(attrs: Attrs, pageSize: u64): (ok: bool)
    ensures ok <==>
      pageSize != 0
      && IsPow2(attrs.logicalBlockSize) && 512 <= attrs.logicalBlockSize <= ToU32(pageSize)
      && (attrs.physicalBlockSize == 0
          || (IsPow2(attrs.physicalBlockSize)
              && attrs.logicalBlockSize <= attrs.physicalBlockSize <= ToU32(pageSize)))
      && attrs.size > 0
      && attrs.size % LibUtilities.Max(attrs.physicalBlockSize, attrs.logicalBlockSize) == 0
      && (attrs.maxReadWriteSize == 0 || attrs.maxReadWriteSize >= ToU32(pageSize))
      && (attrs.maxWriteSameSize == 0 || attrs.maxWriteSameSize >= attrs.logicalBlockSize)
      && (attrs.maxWriteZerosSize == 0 || attrs.maxWriteZerosSize >= attrs.logicalBlockSize)
      && (attrs.maxDiscardEraseSize == 0 || attrs.maxDiscardEraseSize >= attrs.logicalBlockSize)
  {
    var page := ToU32(pageSize);
    var lbs := attrs.logicalBlockSize;
    var pbs := attrs.physicalBlockSize;
    PowerOfTwoTest(lbs);
    PowerOfTwoTest(pbs);
    if pageSize == 0 then false
    else if !LibUtilities.IsPowerOfTwo(lbs) || lbs < 512 || lbs > page then false
    else if pbs != 0 && (!LibUtilities.IsPowerOfTwo(pbs) || pbs < lbs || pbs > page) then false
    else
      var adjusted := LibUtilities.Max(pbs, lbs);
      ModZeroIffDivides(attrs.size, adjusted);
      if !LibUtilities.IsPositiveMultipleOf(attrs.size, adjusted) then false
      else if attrs.maxReadWriteSize != 0 && attrs.maxReadWriteSize < page then false
      else if attrs.maxWriteSameSize != 0 && attrs.maxWriteSameSize < lbs then false
      else if attrs.maxWriteZerosSize != 0 && attrs.maxWriteZerosSize < lbs then false
      else if attrs.maxDiscardEraseSize != 0 && attrs.maxDiscardEraseSize < lbs then false
      else true
  }

  /** libbdus's bit test for a power of two agrees with `IsPow2`. */
  lemma PowerOfTwoTest(x: u64)
    ensures LibUtilities.IsPowerOfTwo(x) <==> IsPow2(x)
  {
    IsPow2Exponent(x);
  }

  /** What `bdus_validate_ops_rerun_` reports: its return value, and whether it set an error. */
  datatype OpsCheck = OpsCheck(accepted: bool, errorSet: bool)

  /** A callback mismatch against an existing device, of the kind `bdus_validate_ops_rerun_` reports. */
  predicate OpsMismatch(ops: Ops, device: DeviceConfig)
  {
    (device.supportsRead && !ops.read)
    || (device.supportsWrite && !ops.write)
    || (device.supportsWriteSame && !ops.writeSame)
    || (device.supportsWriteZeros && !ops.writeZeros)
    || (device.supportsFuaWrite && !ops.fuaWrite)
    || (device.supportsFlush && !ops.flush)
    || (!device.supportsFlush && ops.flush)
    || (device.supportsDiscard && !ops.discard)
    || (device.supportsSecureErase && !ops.secureErase)
    || (device.supportsIoctl && !ops.ioctl)
  }

  /**
   * `bdus_validate_ops_rerun_` as written: `fua_write` without `flush` fails; every mismatch with
   * the existing device's supported requests sets an EINVAL error message, but the function
   * still returns true.
   */
  function ValidateOpsRerunAsWritten(ops: Ops, device: DeviceConfig): (r: OpsCheck)
    ensures !r.accepted <==> ops.fuaWrite && !ops.flush
    ensures r.errorSet <==> !r.accepted || OpsMismatch(ops, device)
  {
    if ops.fuaWrite && !ops.flush then OpsCheck(false, true)
    else
      var mismatches := [
        device.supportsRead && !ops.read,
        device.supportsWrite && !ops.write,
        device.supportsWriteSame && !ops.writeSame,
        device.supportsWriteZeros && !ops.writeZeros,
        device.supportsFuaWrite && !ops.fuaWrite,
        device.supportsFlush && !ops.flush,
        !device.supportsFlush && ops.flush,
        device.supportsDiscard && !ops.discard,
        device.supportsSecureErase && !ops.secureErase,
        device.supportsIoctl && !ops.ioctl];
      OpsCheck(true, true in mismatches)
  }

  /** A driver without `read` re-attaching to a device that supports reads is accepted as written. */
  lemma MissingCallbackAcceptedAsWritten(device: DeviceConfig)
    requires device.supportsRead && !device.supportsFlush
    ensures var ops := Ops(false, false, false, false, false, false, false, false, false);
      ValidateOpsRerunAsWritten(ops, device).accepted
      && ValidateOpsRerunAsWritten(ops, device).errorSet
  {
  }

  /**
   * `bdus_validate_ops_rerun_` as its error messages describe it: a callback mismatch fails like
   * `fua_write` without `flush` does.
   */
  function ValidateOpsRerun(ops: Ops, device: DeviceConfig): (ok: bool)
    ensures ok ==> (ops.fuaWrite ==> ops.flush)
    ensures ok ==> (ops.flush <==> device.supportsFlush)
    ensures ok ==>
      (device.supportsRead ==> ops.read) && (device.supportsWrite ==> ops.write)
      && (device.supportsWriteSame ==> ops.writeSame) && (device.supportsWriteZeros ==> ops.writeZeros)
      && (device.supportsFuaWrite ==> ops.fuaWrite) && (device.supportsDiscard ==> ops.discard)
      && (device.supportsSecureErase ==> ops.secureErase) && (device.supportsIoctl ==> ops.ioctl)
    ensures ok <==> !ValidateOpsRerunAsWritten(ops, device).errorSet
  {
    var check := ValidateOpsRerunAsWritten(ops, device);
    check.accepted && !check.errorSet
  }

  /**
   * `bdus_validate_attrs_rerun_`: block sizes and size must be 0 (keep) or equal to the existing
   * device's; each maximum must be 0 or at least the existing one. Failures are EINVAL.
   */
  function ValidateAttrsRerun(attrs: Attrs, device: DeviceConfig): (ok: bool)
    ensures ok <==>
      attrs.logicalBlockSize in {0, device.logicalBlockSize}
      && attrs.physicalBlockSize in {0, device.physicalBlockSize}
      && attrs.size in {0, device.size}
      && (attrs.maxReadWriteSize == 0 || attrs.maxReadWriteSize >= device.maxReadWriteSize)
      && (attrs.maxWriteSameSize == 0 || attrs.maxWriteSameSize >= device.maxWriteSameSize)
      && (attrs.maxWriteZerosSize == 0 || attrs.maxWriteZerosSize >= device.maxWriteZerosSize)
      && (attrs.maxDiscardEraseSize == 0 || attrs.maxDiscardEraseSize >= device.maxDiscardEraseSize)
    ensures (attrs.logicalBlockSize == 0 && attrs.physicalBlockSize == 0 && attrs.size == 0
             && attrs.maxReadWriteSize == 0 && attrs.maxWriteSameSize == 0
             && attrs.maxWriteZerosSize == 0 && attrs.maxDiscardEraseSize == 0) ==> ok
  {
    if attrs.logicalBlockSize != 0 && attrs.logicalBlockSize != device.logicalBlockSize then false
    else if attrs.physicalBlockSize != 0 && attrs.physicalBlockSize != device.physicalBlockSize then false
    else if attrs.size != 0 && attrs.size != device.size then false
    else if attrs.maxReadWriteSize != 0 && attrs.maxReadWriteSize < device.maxReadWriteSize then false
    else if attrs.maxWriteSameSize != 0 && attrs.maxWriteSameSize < device.maxWriteSameSize then false
    else if attrs.maxWriteZerosSize != 0 && attrs.maxWriteZerosSize < device.maxWriteZerosSize then false
    else if attrs.maxDiscardEraseSize != 0 && attrs.maxDiscardEraseSize < device.maxDiscardEraseSize then false
    else true
  }

  /** The existing device's own attributes always pass the re-run check. */
  lemma DeviceAttrsPassRerun(device: DeviceConfig, maxConcurrentCallbacks: u32)
    ensures ValidateAttrsRerun(Attrs(device.logicalBlockSize, device.physicalBlockSize, device.size,
      device.maxReadWriteSize, device.maxWriteSameSize, device.maxWriteZerosSize,
      device.maxDiscardEraseSize, maxConcurrentCallbacks), device)
  {
  }

  /** `struct bdus_internal_config_`, the fields `bdus_adjust_internal_config_` touches. */
  class InternalConfig {
    var backendName: Option<string>
    var maxActiveQueueReqs: u32
    var maxActiveIoctlReqs: u32

    constructor(backendName: Option<string>, maxActiveQueueReqs: u32, maxActiveIoctlReqs: u32)
      ensures this.backendName == backendName
      ensures this.maxActiveQueueReqs == maxActiveQueueReqs
      ensures this.maxActiveIoctlReqs == maxActiveIoctlReqs
    {
      this.backendName := backendName;
      this.maxActiveQueueReqs := maxActiveQueueReqs;
      this.maxActiveIoctlReqs := maxActiveIoctlReqs;
    }

    /**
     * `bdus_adjust_internal_config_`: fills in the defaults (backend "mmap", 64 queue requests,
     * 16 ioctl requests) and looks the backend up; an unknown backend gives None (EINVAL).
     */
    method Adjust() returns (backend: Option<LibBackend.Backend>)
      modifies this
      ensures backendName == Some(if old(backendName).Some? then old(backendName).value else "mmap")
      ensures maxActiveQueueReqs == if old(maxActiveQueueReqs) == 0 then 64 else old(maxActiveQueueReqs)
      ensures maxActiveIoctlReqs == if old(maxActiveIoctlReqs) == 0 then 16 else old(maxActiveIoctlReqs)
      ensures maxActiveQueueReqs > 0 && maxActiveIoctlReqs > 0
      ensures backend.Some? ==> backend.value.backendName == backendName.value
      ensures backend.None? <==> forall i :: 0 <= i < |LibBackend.BACKENDS| ==>
        LibBackend.BACKENDS[i].backendName != backendName.value
    {
      if backendName.None? {
        backendName := Some("mmap");
      }
      if maxActiveQueueReqs == 0 {
        maxActiveQueueReqs := 64;
      }
      if maxActiveIoctlReqs == 0 {
        maxActiveIoctlReqs := 16;
      }
      backend := LibBackend.Lookup(backendName.value);
    }
  }

  /** The default backend exists. */
  lemma DefaultBackendExists()
    ensures LibBackend.BACKENDS[1].backendName == "mmap"
  {
  }

  /** The bound the clamp uses: the sum of the two request limits, as a 32-bit addition. */
  function ActiveRequestLimit(config: InternalConfig): u32
    reads config
  {
    ToU32(config.maxActiveQueueReqs + config.maxActiveIoctlReqs)
  }

  /** The copy of the driver's attributes `bdus_run_impl_` and `bdus_rerun_impl_` adjust in place. */
  class AttrsCopy {
    var attrs: Attrs

    constructor(attrs: Attrs)
      ensures this.attrs == attrs
    {
      this.attrs := attrs;
    }

    /**
     * `max_concurrent_callbacks = min(max(v, 1), queue + ioctl)`; the result is also the number
     * of request buffers the protocol is configured with. Other attributes are unchanged.
     */
    method ClampConcurrentCallbacks(config: InternalConfig) returns (numRequestBuffers: u32)
      modifies this
      ensures attrs == old(attrs).(maxConcurrentCallbacks := numRequestBuffers)
      ensures numRequestBuffers <= ActiveRequestLimit(config)
      ensures ActiveRequestLimit(config) > 0 ==> numRequestBuffers >= 1
      ensures numRequestBuffers == old(attrs.maxConcurrentCallbacks)
        || numRequestBuffers == ActiveRequestLimit(config)
        || (numRequestBuffers == 1 && old(attrs.maxConcurrentCallbacks) == 0)
      ensures 1 <= old(attrs.maxConcurrentCallbacks) <= ActiveRequestLimit(config) ==>
        numRequestBuffers == old(attrs.maxConcurrentCallbacks)
    {
      var limit := ActiveRequestLimit(config);
      numRequestBuffers := LibUtilities.Min(LibUtilities.Max(attrs.maxConcurrentCallbacks, 1), limit);
      attrs := attrs.(maxConcurrentCallbacks := numRequestBuffers);
    }
  }

  /** With adjusted limits that do not overflow, the clamped value lies in [1, queue + ioctl]. */
  lemma ClampWithinAdjustedLimits(queue: u32, ioctl: u32, v: u32)
    requires 0 < queue && 0 < ioctl && queue + ioctl <= U32_MAX
    ensures var r := LibUtilities.Min(LibUtilities.Max(v, 1), ToU32(queue + ioctl));
      1 <= r <= queue + ioctl
  {
  }

  /** The version check of `bdus_open_control_`: kbdus and libbdus must agree on all three numbers. */
  function CheckVersion(kbdus: Version, libbdus: Version): (r: Result<(), nat>)
    ensures r.Ok? <==> kbdus.major == libbdus.major && kbdus.minor == libbdus.minor && kbdus.patch == libbdus.patch
    ensures r.Err? ==> r.error == EINVAL
  {
    if kbdus.major != libbdus.major || kbdus.minor != libbdus.minor || kbdus.patch != libbdus.patch
    then Err(EINVAL)
    else Ok(())
  }

  /** A control-device operation `bdus_manage_dev_` performs. */
  datatype ControlOp = GetSeqnum | FlushDev | RequestDestruction | WaitUntilDestroyed

  /**
   * `bdus_manage_dev_`: translates the index to a seqnum, then flushes and/or requests
   * destruction and waits for it, each step only when the previous ones succeeded. The
   * parameters say which control-device operations would succeed; `performed` lists those
   * attempted, in order.
   */
  method ManageDev(flush: bool, destroy: bool, controlOpened: bool, seqnumOk: bool, flushOk: bool,
                   destructionOk: bool, waitOk: bool)
    returns (success: bool, performed: seq<ControlOp>)
    ensures success <==>
      controlOpened && seqnumOk && (flush ==> flushOk) && (destroy ==> destructionOk && waitOk)
    ensures !controlOpened ==> performed == []
    ensures controlOpened ==> |performed| >= 1 && performed[0] == GetSeqnum
    ensures FlushDev in performed <==> controlOpened && flush && seqnumOk
    ensures RequestDestruction in performed <==> controlOpened && destroy && seqnumOk && (flush ==> flushOk)
    ensures WaitUntilDestroyed in performed <==>
      controlOpened && destroy && seqnumOk && (flush ==> flushOk) && destructionOk
  {
    performed := [];
    if !controlOpened {
      return false, performed;
    }
    success := seqnumOk;
    performed := performed + [GetSeqnum];
    if flush {
      if success {
        performed := performed + [FlushDev];
        success := flushOk;
      }
    }
    if destroy {
      if success {
        performed := performed + [RequestDestruction];
        success := destructionOk;
        if success {
          performed := performed + [WaitUntilDestroyed];
          success := waitOk;
        }
      }
    }
  }

  /** `bdus_flush_dev`: flush without destroying. */
  method FlushDevice(controlOpened: bool, seqnumOk: bool, flushOk: bool) returns (success: bool)
    ensures success <==> controlOpened && seqnumOk && flushOk
  {
    var performed;
    success, performed := ManageDev(true, false, controlOpened, seqnumOk, flushOk, false, false);
  }

  /** `bdus_destroy_dev`: destroy, flushing first when asked to. */
  method DestroyDevice(flushDev: bool, controlOpened: bool, seqnumOk: bool, flushOk: bool,
                       destructionOk: bool, waitOk: bool) returns (success: bool)
    ensures success <==>
      controlOpened && seqnumOk && (flushDev ==> flushOk) && destructionOk && waitOk
  {
    var performed;
    success, performed := ManageDev(flushDev, true, controlOpened, seqnumOk, flushOk, destructionOk, waitOk);
  }
}
