/**
 * The backend-independent half of libbdus's request handling (libbdus/src/backend.c): the
 * table of backends, the translation of a request into a driver callback, the size of the
 * reply payload, and what happens once the device becomes available.
 *
 * Driver callbacks are not modelled; the value a callback returns is a parameter.
 */
module LibBackend {
  import opened CTypes
  import opened Wrappers
  import opened KbdusAbi
  import Bits

  /** A backend: its own name and the name of the kernel protocol it speaks. */
  datatype Backend = Backend(backendName: string, protocolName: string)

  /** `bdus_backend_all_`, in table order. */
  const BACKENDS: seq<Backend> := [Backend("ioctl", "ioctl"), Backend("mmap", "mmap"), Backend("rw", "rw")]

  /** `bdus_backend_lookup_`: the first backend of the table with the given name, if any. */
  method Lookup(name: string) returns (r: Option<Backend>)
    ensures r.Some? ==>
      exists i :: 0 <= i < |BACKENDS| && BACKENDS[i] == r.value
        && (forall j :: 0 <= j < i ==> BACKENDS[j].backendName != name)
    ensures r.Some? ==> r.value.backendName == name && r.value.protocolName == name
    ensures r.None? <==> forall i :: 0 <= i < |BACKENDS| ==> BACKENDS[i].backendName != name
  {
    for i := 0 to |BACKENDS|
      invariant forall j :: 0 <= j < i ==> BACKENDS[j].backendName != name
    {
      if BACKENDS[i].backendName == name {
        return Some(BACKENDS[i]);
      }
    }
    return None;
  }

  /** A driver callback invocation: which callback, and the arguments the request determines. */
  datatype Call =
    | CallRead(offset: u64, size: u32)
    | CallWrite(offset: u64, size: u32)
    | CallWriteSame(offset: u64, size: u32)
    | CallWriteZeros(offset: u64, size: u32, mayUnmap: bool)
    | CallFuaWrite(offset: u64, size: u32)
    | CallFlush
    | CallDiscard(offset: u64, size: u32)
    | CallSecureErase(offset: u64, size: u32)
      /** `passesBuffer` is false when the callback receives NULL instead of the payload buffer. */
    | CallIoctl(command: u32, passesBuffer: bool)

  /**
   * The callback `bdus_backend_process_request_` invokes for a request, or None when its
   * switch has no case for the type (which covers the three notification types).
   */
  function CallFor(reqType: u32, arg64: u64, arg32: u32): (r: Option<Call>)
    ensures r.None? <==> !(REQ_READ <= reqType <= REQ_IOCTL)
    ensures r.Some? && r.value.CallWriteZeros? ==>
      (r.value.mayUnmap <==> reqType == REQ_WRITE_ZEROS_MAY_UNMAP)
    ensures r.Some? && r.value.CallIoctl? ==>
      r.value.command == arg32 && (r.value.passesBuffer <==> IocDir(arg32) != IOC_NONE)
    ensures r.Some? && !r.value.CallFlush? && !r.value.CallIoctl? ==>
      r.value.offset == arg64 && r.value.size == arg32
  {
    if reqType == REQ_READ then Some(CallRead(arg64, arg32))
    else if reqType == REQ_WRITE then Some(CallWrite(arg64, arg32))
    else if reqType == REQ_WRITE_SAME then Some(CallWriteSame(arg64, arg32))
    else if reqType == REQ_WRITE_ZEROS_NO_UNMAP then Some(CallWriteZeros(arg64, arg32, false))
    else if reqType == REQ_WRITE_ZEROS_MAY_UNMAP then Some(CallWriteZeros(arg64, arg32, true))
    else if reqType == REQ_FUA_WRITE then Some(CallFuaWrite(arg64, arg32))
    else if reqType == REQ_FLUSH then Some(CallFlush)
    else if reqType == REQ_DISCARD then Some(CallDiscard(arg64, arg32))
    else if reqType == REQ_SECURE_ERASE then Some(CallSecureErase(arg64, arg32))
    else if reqType == REQ_IOCTL then Some(CallIoctl(arg32, IocDir(arg32) != IOC_NONE))
    else None
  }

  /** An ioctl whose argument only travels from the caller to the driver. */
  predicate WriteOnlyIoctl(reqType: u32, arg32: u32)
  {
    reqType == REQ_IOCTL && IocDir(arg32) == IOC_WRITE
  }

  /**
   * The value `bdus_backend_process_request_` returns: the number of payload bytes the reply
   * carries, or -1 for a type it does not handle. `callbackResult` is the callback's return
   * value (0 or an errno).
   */
  function ReplySize(reqType: u32, arg32: u32, callbackResult: i32): (size: int)
    ensures size == -1 <==> CallFor(reqType, 0, arg32).None?
    ensures size >= -1
    ensures size > 0 ==>
      callbackResult == 0
      && ((reqType == REQ_READ && size == arg32)
          || (reqType == REQ_IOCTL && IocDir(arg32) % 2 == 1 && size == IocSize(arg32)))
    ensures reqType == REQ_READ ==> size == (if callbackResult == 0 then arg32 else 0)
    ensures reqType == REQ_IOCTL ==>
      size == (if callbackResult == 0 && IocDir(arg32) % 2 == 1 then IocSize(arg32) else 0)
    ensures REQ_WRITE <= reqType <= REQ_SECURE_ERASE ==> size == 0
  {
    var negatedErrno := -(callbackResult as int);
    if reqType == REQ_READ then
      (if negatedErrno == 0 then arg32 else 0)
    else if reqType == REQ_IOCTL then
      if IocDir(arg32) == IOC_NONE then 0
      else
        assert Bits.BitAnd(IocDir(arg32), IOC_WRITE) == IocDir(arg32) % 2;
        if negatedErrno == 0 && Bits.BitAnd(IocDir(arg32), IOC_WRITE) != 0 then IocSize(arg32) else 0
    else if CallFor(reqType, 0, arg32).Some? then 0
    else -1
  }

  /**
   * `bdus_backend_process_request_` on a payload buffer: clears the first `_IOC_SIZE` bytes for a
   * write-only ioctl before the callback runs, and reports the reply payload size and, for a
   * handled type, the reply's negated errno. The buffer is described as the callback receives it.
   */
  method ProcessRequest(payload: array<u8>, reqType: u32, arg64: u64, arg32: u32, callbackResult: i32)
    returns (replySize: int, negatedErrno: Option<int>)
    requires WriteOnlyIoctl(reqType, arg32) ==> IocSize(arg32) <= payload.Length
    modifies payload
    ensures replySize == ReplySize(reqType, arg32, callbackResult)
    ensures negatedErrno == (if CallFor(reqType, arg64, arg32).Some? then Some(-(callbackResult as int)) else None)
    ensures WriteOnlyIoctl(reqType, arg32) ==>
      (forall i :: 0 <= i < IocSize(arg32) ==> payload[i] == 0)
      && (forall i :: IocSize(arg32) <= i < payload.Length ==> payload[i] == old(payload[i]))
    ensures !WriteOnlyIoctl(reqType, arg32) ==> payload[..] == old(payload[..])
  {
    if CallFor(reqType, arg64, arg32).None? {
      return -1, None;
    }
    if WriteOnlyIoctl(reqType, arg32) {
      var n := IocSize(arg32);
      for i := 0 to n
        invariant forall j :: 0 <= j < i ==> payload[j] == 0
        invariant forall j :: i <= j < payload.Length ==> payload[j] == old(payload[j])
      {
        payload[i] := 0;
      }
    }
    replySize := ReplySize(reqType, arg32, callbackResult);
    negatedErrno := Some(-(callbackResult as int));
  }

  /**
   * `bdus_backend_process_flush_request_`: the reply to a flush-and-terminate request carries no
   * payload, and its negated errno is that of the flush callback.
   */
  function ProcessFlushRequest(callbackResult: i32): (int, int)
  {
    (0, -(callbackResult as int))
  }

  /** The default `on_device_available` callback: EIO when printing the device path fails. */
  function DefaultOnDeviceAvailable(printed: bool): (r: nat)
    ensures r == 0 <==> printed
    ensures r != 0 ==> r == EIO
  {
    if printed then 0 else EIO
  }

  /**
   * `bdus_backend_on_device_available_`: `callbackResult` is what the driver's (or the default)
   * callback returned, and `daemonizeErrno` is None when daemonising succeeds. The result is
   * Ok(whether the process was daemonised) or Err(errno).
   */
  function OnDeviceAvailable(callbackResult: int, dontDaemonize: bool, daemonizeErrno: Option<int>)
    : (r: Result<bool, int>)
    ensures r.Ok? <==> callbackResult == 0 && (dontDaemonize || daemonizeErrno.None?)
    ensures r.Ok? ==> (r.value <==> !dontDaemonize)
    ensures callbackResult != 0 ==> r == Err(callbackResult)
    ensures callbackResult == 0 && !dontDaemonize && daemonizeErrno.Some? ==> r == Err(daemonizeErrno.value)
  {
    if callbackResult != 0 then Err(callbackResult)
    else if !dontDaemonize then
      match daemonizeErrno
      case Some(e) => Err(e)
      case None => Ok(true)
    else Ok(false)
  }
}
