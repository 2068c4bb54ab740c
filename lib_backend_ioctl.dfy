/**
 * The libbdus "ioctl" backend (libbdus/src/backends/ioctl.c). Its payload buffers are sized by
 * `PayloadLayout.MaxPayloadSize` without rounding, and its run phases are those of
 * `BackendService`; what is particular to it is the reply-and-request union each service
 * thread hands to the kernel, which also tells the kernel where the thread's payload buffer is.
 */
module LibIoctlBackend {
  import opened CTypes
  import opened Wrappers
  import BackendService

  /** The common part of `union kbdusioctl_reply_and_request` as the thread sends it. */
  datatype RarHeader = RarHeader(bufferPtr: u64, handleIndex: u16)

  /**
   * `bdusioctl_service_loop_`: the shared service loop over a union that starts out naming the
   * thread's payload buffer and no reply (handle index 0); every later exchange still names the
   * same buffer and replies to the request received before it.
   */
  method ServiceLoop(c: BackendService.Context, xs: seq<BackendService.Exchange>)
    returns (stoppedAt: Option<nat>, sent: seq<RarHeader>)
    modifies c
    ensures c.allowDeviceAvailable == old(c.allowDeviceAvailable)
    ensures c.status == BackendService.FinalStatus(c.allowDeviceAvailable, xs, old(c.status))
    ensures stoppedAt.Some? <==> BackendService.Ends(c.allowDeviceAvailable, xs)
    ensures stoppedAt.Some? ==> stoppedAt.value < |xs|
    ensures c.terminationRequested <==> old(c.terminationRequested) || c.status.Error?
    ensures |sent| == (if stoppedAt.Some? then stoppedAt.value + 1 else |xs|)
    ensures |sent| > 0 ==> sent[0] == RarHeader(c.payloadAddress, 0)
    ensures forall j :: 0 <= j < |sent| ==> sent[j].bufferPtr == c.payloadAddress
    ensures forall j :: 0 < j < |sent| ==>
      xs[j - 1].Received? && sent[j].handleIndex == xs[j - 1].request.handleIndex
  {
    var handles;
    stoppedAt, handles := c.ServiceLoop(xs);
    sent := seq(|handles|, j requires 0 <= j < |handles| => RarHeader(c.payloadAddress, handles[j]));
  }
}
