/**
 * The libbdus "mmap" backend (libbdus/src/backends/mmap.c): the size of each payload buffer and
 * the placement of every service thread's reply-and-request slot and payload buffer in the
 * memory it shares with the kernel. Its service loop and run phases are those of
 * `BackendService`.
 */
module LibMmapBackend {
  import opened CTypes
  import opened Bits
  import opened PayloadLayout
  import BackendService

  /**
   * `bdusmmap_get_payload_buffer_size_`: the largest payload a request may carry, rounded up to
   * the least multiple of the page size, so that consecutive buffers stay page-aligned.
   */
  function PayloadBufferSize(maxReadWriteSize: u32, logicalBlockSize: u32, writeSame: bool, ioctl: bool,
                             pageSize: nat): (r: nat)
    requires IsPow2(pageSize)
    ensures var m := MaxPayloadSize(maxReadWriteSize, logicalBlockSize, writeSame, ioctl);
      r % pageSize == 0 && m <= r < m + pageSize && (r == 0 <==> m == 0)
  {
    PageRoundUp(MaxPayloadSize(maxReadWriteSize, logicalBlockSize, writeSame, ioctl), pageSize)
  }

  /** Address of thread i's reply-and-request slot in shared memory mapped at `base`. */
  function RarAddress(base: nat, i: nat): nat
  {
    base + RarOffset(i)
  }

  /**
   * The initialisation loop of `bdusmmap_run_`: one context per service thread, thread i using
   * the payload buffer at `page + i * payload` of the shared memory mapped at `base`, with
   * device-available notifications disallowed.
   */
  method InitContexts(numThreads: nat, base: nat, pageSize: nat, payloadSize: nat)
    returns (contexts: seq<BackendService.Context>)
    requires base + SharedLength(pageSize, payloadSize, numThreads) <= U64_MAX
    ensures |contexts| == numThreads
    ensures forall i :: 0 <= i < numThreads ==> fresh(contexts[i])
    ensures forall i, j :: 0 <= i < j < numThreads ==> contexts[i] != contexts[j]
    ensures forall i :: 0 <= i < numThreads ==>
      contexts[i].threadIndex == i
      && contexts[i].payloadAddress == base + PayloadOffset(pageSize, payloadSize, i)
      && contexts[i].status == BackendService.Running
      && !contexts[i].allowDeviceAvailable
      && !contexts[i].terminationRequested
  {
    contexts := [];
    for i := 0 to numThreads
      invariant |contexts| == i
      invariant forall j :: 0 <= j < i ==> fresh(contexts[j])
      invariant forall j, k :: 0 <= j < k < i ==> contexts[j] != contexts[k]
      invariant forall j :: 0 <= j < i ==>
        contexts[j].threadIndex == j
        && contexts[j].payloadAddress == base + PayloadOffset(pageSize, payloadSize, j)
        && contexts[j].status == BackendService.Running
        && !contexts[j].allowDeviceAvailable
        && !contexts[j].terminationRequested
    {
      MulLe(payloadSize, i, numThreads);
      var c := new BackendService.Context(i, base + PayloadOffset(pageSize, payloadSize, i));
      contexts := contexts + [c];
    }
  }
}
