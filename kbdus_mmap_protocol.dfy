/**
 * kbdus's "mmap" protocol (kbdus/src/protocols/mmap.c): the driver and the kernel exchange
 * requests and replies through a shared memory area that holds one 64-byte reply-and-request
 * slot per request buffer in its first page, followed by one payload buffer per request
 * buffer. The driver names the buffer to use by its index, passed as the ioctl argument.
 *
 * Copying payloads between the shared memory and the block layer's pages is not modelled;
 * the requests handed to the driver and the replies it sends drive the inverter, whose model
 * this one calls.
 */
module KbdusMmapProtocol {
  import opened CTypes
  import opened Wrappers
  import opened Bits
  import opened KbdusAbi
  import opened PayloadLayout
  import KbdusDevice
  import KbdusInverter

  /** `_IO(KBDUS_IOCTL_TYPE, 13..15)`: the three commands this protocol answers. */
  const IOCTL_RECEIVE_REQUEST: u32 := 0xBD0D
  const IOCTL_SEND_REPLY: u32 := 0xBD0E
  const IOCTL_SEND_REPLY_AND_RECEIVE_REQUEST: u32 := 0xBD0F

  /** The three commands are `_IO` commands of type 0xBD, numbers 13 to 15. */
  lemma CommandNumbers()
    ensures IOCTL_RECEIVE_REQUEST == IocCommand(IOC_NONE, 0xBD, 13, 0)
    ensures IOCTL_SEND_REPLY == IocCommand(IOC_NONE, 0xBD, 14, 0)
    ensures IOCTL_SEND_REPLY_AND_RECEIVE_REQUEST == IocCommand(IOC_NONE, 0xBD, 15, 0)
  {
  }

  /** `struct kbdusmmap_state_`: the buffer count and the size of each payload buffer. */
  datatype MmapState = MmapState(numRequestBuffers: nat, payloadBufferSize: nat)

  /**
   * `kbdusmmap_get_payload_buffer_size_`: the largest payload a request of this device may
   * carry, rounded up to the page size with the kernel's `round_up`.
   */
  function PayloadBufferSize(c: DeviceConfig): (r: nat)
    ensures r % KbdusDevice.PAGE_SIZE as nat == 0
    ensures MaxPayloadSize(c.maxReadWriteSize, c.logicalBlockSize, c.supportsWriteSame, c.supportsIoctl) <= r
    ensures r < MaxPayloadSize(c.maxReadWriteSize, c.logicalBlockSize, c.supportsWriteSame, c.supportsIoctl)
      + KbdusDevice.PAGE_SIZE as nat
  {
    KbdusDevice.PageSizeIsPow2();
    var size := MaxPayloadSize(c.maxReadWriteSize, c.logicalBlockSize, c.supportsWriteSame, c.supportsIoctl);
    KernelRoundUpAgrees(size, KbdusDevice.PAGE_SIZE as u64);
    KernelRoundUp(size, KbdusDevice.PAGE_SIZE as u64)
  }

  /** `kbdusmmap_validate_config_`: between 1 and `KBDUSMMAP_MAX_REQUEST_BUFFERS` buffers. */
  function ValidateConfig(p: ProtocolConfig): (ok: bool)
    ensures ok <==> 1 <= p.numRequestBuffers <= MMAP_MAX_REQUEST_BUFFERS
  {
    p.numRequestBuffers >= 1 && p.numRequestBuffers <= MMAP_MAX_REQUEST_BUFFERS
  }

  /**
   * `kbdusmmap_create_instance_`: -ENOMEM when either allocation fails (`stateAllocated`,
   * `memoryAllocated`), else the protocol state; the shared memory then has
   * `SharedLength(PAGE_SIZE, payload, n)` bytes.
   */
  function CreateInstance(c: DeviceConfig, p: ProtocolConfig, stateAllocated: bool, memoryAllocated: bool)
    : (r: Result<MmapState, nat>)
    ensures r.Err? <==> !stateAllocated || !memoryAllocated
    ensures r.Err? ==> r.error == ENOMEM
    ensures r.Ok? ==> (r.value.numRequestBuffers == p.numRequestBuffers as nat
      && r.value.payloadBufferSize == PayloadBufferSize(c))
  {
    if !stateAllocated || !memoryAllocated then Err(ENOMEM)
    else Ok(MmapState(p.numRequestBuffers as nat, PayloadBufferSize(c)))
  }

  /**
   * For an accepted configuration the layout works: the reply-and-request slots of all
   * buffers fit in the first page (64 slots of 64 bytes fill it exactly), the payload buffers
   * are page-aligned, pairwise disjoint and end at the end of the shared memory.
   */
  lemma LayoutOfValidConfig(c: DeviceConfig, p: ProtocolConfig, i: nat, j: nat)
    requires ValidateConfig(p) && i < j < p.numRequestBuffers as nat
    ensures var st := MmapState(p.numRequestBuffers as nat, PayloadBufferSize(c));
      var page := KbdusDevice.PAGE_SIZE as nat;
      RarOffset(i) + RAR_SLOT_SIZE <= RarOffset(j)
      && RarOffset(j) + RAR_SLOT_SIZE <= page
      && PayloadOffset(page, st.payloadBufferSize, i) + st.payloadBufferSize <= PayloadOffset(page, st.payloadBufferSize, j)
      && PayloadOffset(page, st.payloadBufferSize, j) % page == 0
      && PayloadOffset(page, st.payloadBufferSize, st.numRequestBuffers - 1) + st.payloadBufferSize
         == SharedLength(page, st.payloadBufferSize, st.numRequestBuffers)
  {
    var n := p.numRequestBuffers as nat;
    MulLe(RAR_SLOT_SIZE, n, 64);
    LayoutIsDisjoint(KbdusDevice.PAGE_SIZE as nat, PayloadBufferSize(c), n, i, j);
  }

  /** The fields of `struct kbdusmmap_reply` that matter here. */
  datatype Reply = Reply(handleIndex: u16, handleSeqnum: u64, negatedErrno: int)

  /** What a request-receiving command did. */
  datatype Received =
    | Handed(request: KbdusInverter.Request)
    | ReceiveFailed(errno: nat)
    /** Nothing to hand out yet: the caller is still asleep in the inverter. */
    | Sleeping

  /**
   * The inverter's handle limit: a pool never has more slots than the queue and ioctl
   * maxima allow, so every slot's handle names it back.
   */
  predicate PoolFits(inv: KbdusInverter.Inverter)
  {
    inv.numReqs as nat <= HARD_MAX_ACTIVE_QUEUE_REQS as nat + HARD_MAX_ACTIVE_IOCTL_REQS as nat
  }

  /**
   * `kbdusmmap_receive_request_`: one pass of the inverter's request get; a request it hands
   * out is committed at once, so its slot awaits completion.
   */
  method ReceiveRequest(inv: KbdusInverter.Inverter, interrupted: bool) returns (r: Received)
    requires inv.Valid() && PoolFits(inv)
    modifies inv, inv.reqsAll
    ensures inv.Valid()
    ensures interrupted ==> r == ReceiveFailed(ERESTARTSYS) && unchanged(inv, inv.reqsAll)
    ensures r.Handed? && !IsNotification(r.request.reqType) && !old(inv.flags.terminated) ==>
      inv.Holds(r.request, KbdusInverter.AwaitingCompletion)
    ensures r.Sleeping? ==> unchanged(inv, inv.reqsAll)
  {
    var attempt := inv.BeginRequestGet(interrupted);
    match attempt {
      case Failed(e) =>
        r := ReceiveFailed(e);
      case WaitAgain =>
        r := Sleeping;
      case Got(request) =>
        if !IsNotification(request.reqType) {
          var i := old(inv.reqsAwaitingGet[0]);
          KbdusInverter.HandleOfSlot(inv.numReqs as nat, i);
        }
        inv.CommitRequestGet(request);
        r := Handed(request);
    }
  }

  /**
   * `kbdusmmap_send_reply_`: nothing to do (0) for handle index 0, and nothing for a stale
   * handle (the request timed out, was cancelled or was already completed); the inverter's
   * error for a bad handle or a slot not awaiting completion; otherwise the request is
   * completed with the reply's errno and 0 is returned.
   */
  method SendReply(inv: KbdusInverter.Inverter, reply: Reply) returns (ret: int)
    requires inv.Valid()
    modifies inv, inv.reqsAll
    ensures inv.Valid()
    ensures reply.handleIndex == 0 ==> ret == 0 && unchanged(inv, inv.reqsAll)
    ensures reply.handleIndex != 0 && inv.HandleToSlot(reply.handleIndex).None? ==>
      ret == -(EINVAL as int) && unchanged(inv, inv.reqsAll)
    ensures reply.handleIndex != 0 && inv.HandleToSlot(reply.handleIndex).Some? ==>
      var i := inv.HandleToSlot(reply.handleIndex).value;
      if old(inv.reqsAll[i].request.handleSeqnum) != reply.handleSeqnum then
        ret == 0 && unchanged(inv, inv.reqsAll)
      else if old(inv.reqsAll[i].state) != KbdusInverter.AwaitingCompletion then
        ret == -(EINVAL as int) && unchanged(inv, inv.reqsAll)
      else
        ret == 0 && inv.flags == old(inv.flags)
        && if old(inv.reqsAll[i].request.reqType) == REQ_IOCTL then
          inv.reqsAll[i] == KbdusInverter.IoctlCompletedWith(old(inv.reqsAll[i]).(state := KbdusInverter.BeingCompleted),
            KbdusInverter.SanitizedIoctlErrno(old(inv.flags.terminated), reply.negatedErrno))
        else
          inv.reqsAll[i].state == KbdusInverter.Free
          && inv.completedQueueRequests == old(inv.completedQueueRequests)
            + [KbdusInverter.Completion(i, KbdusInverter.SanitizedQueueErrno(old(inv.flags.terminated), reply.negatedErrno))]
  {
    if reply.handleIndex == 0 {
      return 0;
    }
    var begun := inv.BeginRequestCompletion(reply.handleIndex, reply.handleSeqnum);
    match begun {
      case Err(e) =>
        ret := -(e as int);
      case Ok(None) =>
        ret := 0;
      case Ok(Some(request)) =>
        inv.CommitRequestCompletion(request, reply.negatedErrno);
        ret := 0;
    }
  }

  /**
   * `kbdusmmap_handle_control_ioctl_`: -ENOTTY for any other command, -EINVAL for a buffer
   * index not below the buffer count; otherwise the reply in the buffer's slot is sent and/or
   * a request received into it. Combined, a failing reply stops before receiving.
   */
  method HandleControlIoctl(inv: KbdusInverter.Inverter, st: MmapState, command: u32, argument: u64,
                            reply: Reply, interrupted: bool)
    returns (ret: int, received: Option<Received>)
    requires inv.Valid() && PoolFits(inv)
    modifies inv, inv.reqsAll
    ensures inv.Valid()
    ensures command !in {IOCTL_RECEIVE_REQUEST, IOCTL_SEND_REPLY, IOCTL_SEND_REPLY_AND_RECEIVE_REQUEST} ==>
      ret == -(ENOTTY as int) && received.None? && unchanged(inv, inv.reqsAll)
    ensures (command in {IOCTL_RECEIVE_REQUEST, IOCTL_SEND_REPLY, IOCTL_SEND_REPLY_AND_RECEIVE_REQUEST}
      && argument as nat >= st.numRequestBuffers) ==>
      ret == -(EINVAL as int) && received.None? && unchanged(inv, inv.reqsAll)
    ensures command == IOCTL_SEND_REPLY ==> received.None?
    ensures received.Some? ==> command != IOCTL_SEND_REPLY && argument as nat < st.numRequestBuffers
    ensures received.Some? && received.value.ReceiveFailed? ==> ret == -(received.value.errno as int)
    ensures received.Some? && !received.value.ReceiveFailed? ==> ret == 0
  {
    received := None;
    if command != IOCTL_RECEIVE_REQUEST && command != IOCTL_SEND_REPLY
      && command != IOCTL_SEND_REPLY_AND_RECEIVE_REQUEST {
      return -(ENOTTY as int), received;
    }
    if argument as nat >= st.numRequestBuffers {
      return -(EINVAL as int), received;
    }
    if command != IOCTL_RECEIVE_REQUEST {
      ret := SendReply(inv, reply);
      if command == IOCTL_SEND_REPLY || ret != 0 {
        return;
      }
    }
    var r := ReceiveRequest(inv, interrupted);
    received := Some(r);
    ret := if r.ReceiveFailed? then -(r.errno as int) else 0;
  }
}
