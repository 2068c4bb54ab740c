/**
 * The service-thread logic the three libbdus backends share (libbdus/src/backends/mmap.c,
 * rw.c and ioctl.c). Each service thread owns a context whose status records why its loop
 * ended; a run succeeds or fails according to those statuses.
 *
 * The kernel side of each round trip (the ioctl, or the readv/writev pair) is an input: the
 * loop consumes a finite sequence of exchanges, and a loop whose exchanges run out before the
 * kernel ends it is reported as still serving.
 */
module BackendService {
  import opened CTypes
  import opened Wrappers
  import opened KbdusAbi
  import LibBackend

  /**
   * `BDUS*_STATUS_*`. `Running` stands for a context whose loop has not ended (the C field is
   * left unset until then).
   */
  datatype Status = Running | DeviceAvailable | Terminate | Error(errno: int)

  /** A request header as the kernel delivers it. */
  datatype Request = Request(handleSeqnum: u64, handleIndex: u16, reqType: u16, arg32: u32, arg64: u64)

  /**
   * One round trip with the kernel: the request received, together with the value returned by
   * the driver callback it triggers, or the failure of the exchange with its errno.
   */
  datatype Exchange = Received(request: Request, callbackResult: i32) | ExchangeFailed(errno: int)

  /**
   * `*_process_request_`: the status a received request ends the loop with, or None when it is
   * handled by a driver callback and the loop goes on.
   */
  function Dispatch(allowDeviceAvailable: bool, reqType: u32, arg32: u32, callbackResult: i32)
    : (r: Option<Status>)
    ensures r.None? <==> REQ_READ <= reqType <= REQ_IOCTL
    ensures r == Some(DeviceAvailable) <==> reqType == REQ_DEVICE_AVAILABLE && allowDeviceAvailable
    ensures r == Some(Terminate) <==> reqType == REQ_TERMINATE || reqType == REQ_FLUSH_AND_TERMINATE
    ensures r.Some? && r.value.Error? ==>
      r.value.errno == EINVAL
      && ((reqType == REQ_DEVICE_AVAILABLE && !allowDeviceAvailable) || reqType > REQ_IOCTL)
    ensures r != Some(Running)
  {
    if reqType == REQ_DEVICE_AVAILABLE then
      if allowDeviceAvailable then Some(DeviceAvailable) else Some(Error(EINVAL))
    else if reqType == REQ_TERMINATE then Some(Terminate)
    else if reqType == REQ_FLUSH_AND_TERMINATE then
      var (replySize, _) := LibBackend.ProcessFlushRequest(callbackResult);
      if replySize < 0 then Some(Error(EINVAL)) else Some(Terminate)
    else if LibBackend.ReplySize(reqType, arg32, callbackResult) < 0 then Some(Error(EINVAL))
    else None
  }

  /** The status one exchange ends the loop with, or None when the loop goes on. */
  function Outcome(allowDeviceAvailable: bool, x: Exchange): (r: Option<Status>)
    ensures r != Some(Running)
  {
    match x
    case ExchangeFailed(e) => Some(Error(e))
    case Received(req, cb) => Dispatch(allowDeviceAvailable, req.reqType, req.arg32, cb)
  }

  /** Whether some exchange of `xs` ends the loop. */
  predicate Ends(allowDeviceAvailable: bool, xs: seq<Exchange>)
  {
    exists k :: 0 <= k < |xs| && Outcome(allowDeviceAvailable, xs[k]).Some?
  }

  /** The status of a context after its loop consumed `xs`, having started with `initial`. */
  function FinalStatus(allowDeviceAvailable: bool, xs: seq<Exchange>, initial: Status): Status
  {
    if xs == [] then initial
    else match Outcome(allowDeviceAvailable, xs[0])
      case Some(s) => s
      case None => FinalStatus(allowDeviceAvailable, xs[1..], initial)
  }

  /** A loop that ends does so with the outcome of its first stopping exchange. */
  lemma {:induction false} FinalStatusOfEndedLoop(allow: bool, xs: seq<Exchange>, initial: Status, k: nat)
    requires k < |xs| && Outcome(allow, xs[k]).Some?
    requires forall j :: 0 <= j < k ==> Outcome(allow, xs[j]).None?
    ensures FinalStatus(allow, xs, initial) == Outcome(allow, xs[k]).value
    ensures FinalStatus(allow, xs, initial) != Running
  {
    if k > 0 {
      assert Outcome(allow, xs[0]).None?;
      FinalStatusOfEndedLoop(allow, xs[1..], initial, k - 1);
    }
  }

  /** A loop that does not end keeps its initial status. */
  lemma {:induction false} FinalStatusOfEndlessLoop(allow: bool, xs: seq<Exchange>, initial: Status)
    requires !Ends(allow, xs)
    ensures FinalStatus(allow, xs, initial) == initial
  {
    if xs != [] {
      assert Outcome(allow, xs[0]).None?;
      forall k | 0 <= k < |xs[1..]|
        ensures Outcome(allow, xs[1..][k]).None?
      {
        assert xs[1..][k] == xs[k + 1];
      }
      FinalStatusOfEndlessLoop(allow, xs[1..], initial);
    }
  }

  /** The per-thread context of a backend (`struct bdus*_context_`), reduced to its status logic. */
  class Context {
    /** This thread's position among the backend's service threads. */
    const threadIndex: nat
    /** The address of this thread's payload buffer. */
    const payloadAddress: u64
    var allowDeviceAvailable: bool
    var status: Status
    /** Whether the thread asked the kernel to end the session (`*_request_termination_`). */
    var terminationRequested: bool

    constructor (threadIndex: nat, payloadAddress: u64)
      ensures this.threadIndex == threadIndex && this.payloadAddress == payloadAddress
      ensures !allowDeviceAvailable && status == Running && !terminationRequested
    {
      this.threadIndex := threadIndex;
      this.payloadAddress := payloadAddress;
      allowDeviceAvailable := false;
      status := Running;
      terminationRequested := false;
    }

    /**
     * `bdusmmap_process_request_` / `bdusioctl_process_request_` on a received request: false
     * when the loop must stop, with the status it stops with.
     */
    method ProcessRequest(request: Request, callbackResult: i32) returns (proceed: bool)
      modifies this
      ensures var d := Dispatch(allowDeviceAvailable, request.reqType, request.arg32, callbackResult);
        (proceed <==> d.None?) && status == (if proceed then old(status) else d.value)
      ensures allowDeviceAvailable == old(allowDeviceAvailable)
      ensures terminationRequested == old(terminationRequested)
    {
      var d := Dispatch(allowDeviceAvailable, request.reqType, request.arg32, callbackResult);
      match d {
        case Some(s) =>
          status := s;
          proceed := false;
        case None =>
          proceed := true;
      }
    }

    /**
     * The service loop of the mmap and ioctl backends: each exchange sends the reply to the
     * previous request and receives the next one, until an exchange fails or a request ends
     * the loop; an ERROR status then asks the kernel to end the session.
     *
     * `sent` lists the handle index each exchange replies to (0 meaning no reply): the first
     * exchange sends none, and each later one replies to the request received before it,
     * because the reply and the request share their handle fields.
     */
    method ServiceLoop(xs: seq<Exchange>) returns (stoppedAt: Option<nat>, sent: seq<u16>)
      modifies this
      ensures allowDeviceAvailable == old(allowDeviceAvailable)
      ensures status == FinalStatus(allowDeviceAvailable, xs, old(status))
      ensures stoppedAt.Some? <==> Ends(allowDeviceAvailable, xs)
      ensures stoppedAt.Some? ==>
        stoppedAt.value < |xs| && Outcome(allowDeviceAvailable, xs[stoppedAt.value]) == Some(status)
      ensures ContinuesBefore(allowDeviceAvailable, xs, if stoppedAt.Some? then stoppedAt.value else |xs|)
      ensures |sent| == (if stoppedAt.Some? then stoppedAt.value + 1 else |xs|)
      ensures RepliesToPrevious(xs, sent)
      ensures terminationRequested <==> old(terminationRequested) || status.Error?
    {
      var handleIndex: u16 := 0;
      sent := [];
      stoppedAt := None;
      var i := 0;
      while i < |xs|
        invariant 0 <= i <= |xs|
        invariant allowDeviceAvailable == old(allowDeviceAvailable)
        invariant terminationRequested == old(terminationRequested)
        invariant status == old(status) && stoppedAt.None?
        invariant ContinuesBefore(allowDeviceAvailable, xs, i)
        invariant |sent| == i && RepliesToPrevious(xs, sent)
        invariant i > 0 ==> xs[i - 1].Received? && handleIndex == xs[i - 1].request.handleIndex
        invariant i == 0 ==> handleIndex == 0
      {
        RepliesStep(xs, sent, handleIndex);
        sent := sent + [handleIndex];
        match xs[i] {
          case ExchangeFailed(e) =>
            status := Error(e);
            stoppedAt := Some(i);
            break;
          case Received(req, cb) =>
            handleIndex := req.handleIndex;
            var proceed := ProcessRequest(req, cb);
            if !proceed {
              stoppedAt := Some(i);
              break;
            }
        }
        i := i + 1;
      }
      if stoppedAt.Some? {
        FinalStatusOfEndedLoop(allowDeviceAvailable, xs, old(status), stoppedAt.value);
      } else {
        FinalStatusOfEndlessLoop(allowDeviceAvailable, xs, old(status));
      }
      if status.Error? {
        terminationRequested := true;
      }
    }
  }

  /** No exchange before position n ends the loop. */
  predicate ContinuesBefore(allow: bool, xs: seq<Exchange>, n: nat)
  {
    n <= |xs| && forall j :: 0 <= j < n ==> Outcome(allow, xs[j]).None?
  }

  /**
   * The handle indices sent over a loop on `xs`: none (0) first, then each exchange replies to
   * the request received in the one before it.
   */
  predicate RepliesToPrevious(xs: seq<Exchange>, sent: seq<u16>)
  {
    |sent| <= |xs|
    && (|sent| > 0 ==> sent[0] == 0)
    && forall k :: 0 <= k < |sent| - 1 ==> xs[k].Received? && sent[k + 1] == xs[k].request.handleIndex
  }

  lemma RepliesStep(xs: seq<Exchange>, sent: seq<u16>, handleIndex: u16)
    requires RepliesToPrevious(xs, sent) && |sent| < |xs|
    requires |sent| == 0 ==> handleIndex == 0
    requires |sent| > 0 ==> xs[|sent| - 1].Received? && handleIndex == xs[|sent| - 1].request.handleIndex
    ensures RepliesToPrevious(xs, sent + [handleIndex])
  {
    var s := sent + [handleIndex];
    forall k | 0 <= k < |s| - 1 ensures xs[k].Received? && s[k + 1] == xs[k].request.handleIndex {
      if k + 1 < |sent| {
        assert s[k + 1] == sent[k + 1];
      }
    }
  }

  /** The errno of the first status that is an ERROR, if any. */
  function FirstError(statuses: seq<Status>): (r: Option<int>)
    ensures r.None? <==> forall i :: 0 <= i < |statuses| ==> !statuses[i].Error?
    ensures r.Some? ==>
      exists i :: 0 <= i < |statuses| && statuses[i] == Error(r.value)
        && forall j :: 0 <= j < i ==> !statuses[j].Error?
  {
    if statuses == [] then None
    else if statuses[0].Error? then Some(statuses[0].errno)
    else
      var r := FirstError(statuses[1..]);
      assert forall i :: 1 <= i < |statuses| ==> statuses[1..][i - 1] == statuses[i];
      r
  }

  /**
   * The final scan of `*_run_3_`, after every service thread has been joined: the errno of the
   * first context that ended in ERROR, if any.
   */
  method ScanStatuses(contexts: seq<Context>) returns (failure: Option<int>)
    ensures failure == FirstError(seq(|contexts|, i requires 0 <= i < |contexts| reads contexts => contexts[i].status))
  {
    ghost var statuses := seq(|contexts|, i requires 0 <= i < |contexts| reads contexts => contexts[i].status);
    for i := 0 to |contexts|
      invariant FirstError(statuses) == FirstError(statuses[i..])
    {
      assert statuses[i..][0] == contexts[i].status;
      if contexts[i].status.Error? {
        return Some(contexts[i].status.errno);
      }
      assert statuses[i..][1..] == statuses[i + 1..];
    }
    assert statuses[|contexts|..] == [];
    return None;
  }

  /** How a backend run ends: success, failure with an errno, or a service thread still serving. */
  datatype RunOutcome = Succeeded | Failed(errno: int) | StillServing

  /** The statuses the phase-two loops end with. */
  function PhaseTwoStatuses(phaseTwo: seq<seq<Exchange>>): seq<Status>
  {
    seq(|phaseTwo|, i requires 0 <= i < |phaseTwo| => FinalStatus(false, phaseTwo[i], Running))
  }

  /**
   * The outcome of `*_run_2_` followed by `*_run_3_`. Phase one is thread 0's loop with
   * device-available notifications allowed: TERMINATE succeeds, ERROR fails, and
   * DEVICE_AVAILABLE leads, once `available` (the device-available step) succeeds, to phase two,
   * where every thread serves with the notification disallowed; the run then fails with the
   * errno of the first thread that ended in ERROR.
   */
  ghost function RunSpec(phaseOne: seq<Exchange>, available: Result<bool, int>, phaseTwo: seq<seq<Exchange>>)
    : RunOutcome
  {
    if !Ends(true, phaseOne) then StillServing
    else
      var s1 := FinalStatus(true, phaseOne, Running);
      if s1 == Terminate then Succeeded
      else if s1.Error? then Failed(s1.errno)
      else if available.Err? then Failed(available.error)
      else if exists i :: 0 <= i < |phaseTwo| && !Ends(false, phaseTwo[i]) then StillServing
      else match FirstError(PhaseTwoStatuses(phaseTwo))
        case Some(e) => Failed(e)
        case None => Succeeded
  }

  /**
   * A run succeeds exactly when phase one ends with TERMINATE, or when it ends with
   * DEVICE_AVAILABLE, the device-available step succeeds and every phase-two thread ends
   * without ERROR.
   */
  lemma RunSucceedsIff(phaseOne: seq<Exchange>, available: Result<bool, int>, phaseTwo: seq<seq<Exchange>>)
    ensures RunSpec(phaseOne, available, phaseTwo) == Succeeded <==>
      Ends(true, phaseOne)
      && (FinalStatus(true, phaseOne, Running) == Terminate
          || (FinalStatus(true, phaseOne, Running) == DeviceAvailable
              && available.Ok?
              && (forall i :: 0 <= i < |phaseTwo| ==> Ends(false, phaseTwo[i]))
              && (forall i :: 0 <= i < |phaseTwo| ==> !FinalStatus(false, phaseTwo[i], Running).Error?)))
  {
    if Ends(true, phaseOne) {
      var k :| 0 <= k < |phaseOne| && Outcome(true, phaseOne[k]).Some?;
      var first := FirstStop(true, phaseOne, k);
      FinalStatusOfEndedLoop(true, phaseOne, Running, first);
      var st := PhaseTwoStatuses(phaseTwo);
      assert forall i :: 0 <= i < |phaseTwo| ==> st[i] == FinalStatus(false, phaseTwo[i], Running);
    }
  }

  /** The first exchange that ends a loop, given one that does. */
  lemma {:induction false} FirstStop(allow: bool, xs: seq<Exchange>, k: nat) returns (first: nat)
    requires k < |xs| && Outcome(allow, xs[k]).Some?
    ensures first <= k && Outcome(allow, xs[first]).Some?
    ensures forall j :: 0 <= j < first ==> Outcome(allow, xs[j]).None?
  {
    if exists j :: 0 <= j < k && Outcome(allow, xs[j]).Some? {
      var j :| 0 <= j < k && Outcome(allow, xs[j]).Some?;
      first := FirstStop(allow, xs, j);
    } else {
      first := k;
    }
  }

  /**
   * The phase-two part of `*_run_3_`: every thread runs its service loop with the
   * device-available notification disallowed. Whether all loops ended, and if so the status
   * each ended with.
   */
  method ServePhaseTwo(contexts: seq<Context>, phaseTwo: seq<seq<Exchange>>) returns (allEnded: bool)
    requires |phaseTwo| == |contexts|
    requires forall i, j :: 0 <= i < j < |contexts| ==> contexts[i] != contexts[j]
    requires forall i :: 0 <= i < |contexts| ==> !contexts[i].allowDeviceAvailable
    modifies contexts
    ensures allEnded <==> forall j :: 0 <= j < |contexts| ==> Ends(false, phaseTwo[j])
    ensures allEnded ==> forall j :: 0 <= j < |contexts| ==> contexts[j].status == FinalStatus(false, phaseTwo[j], Running)
    ensures forall i :: 0 <= i < |contexts| ==>
      (contexts[i].terminationRequested <==> old(contexts[i].terminationRequested) || contexts[i].status.Error?)
  {
    allEnded := true;
    for i := 0 to |contexts|
      invariant allEnded <==> forall j :: 0 <= j < i ==> Ends(false, phaseTwo[j])
      invariant forall j :: 0 <= j < i && Ends(false, phaseTwo[j]) ==>
        contexts[j].status == FinalStatus(false, phaseTwo[j], Running)
      invariant forall j :: i <= j < |contexts| ==>
        !contexts[j].allowDeviceAvailable && contexts[j].terminationRequested == old(contexts[j].terminationRequested)
        && contexts[j].status == old(contexts[j].status)
      invariant forall j :: 0 <= j < i ==>
        (contexts[j].terminationRequested <==> old(contexts[j].terminationRequested) || contexts[j].status.Error?)
    {
      var before := contexts[i].status;
      var s, _ := contexts[i].ServiceLoop(phaseTwo[i]);
      if s.None? {
        allEnded := false;
      } else {
        FinalStatusOfEndedLoop(false, phaseTwo[i], before, s.value);
        FinalStatusOfEndedLoop(false, phaseTwo[i], Running, s.value);
      }
    }
  }

  /**
   * `*_run_2_` and `*_run_3_` over fresh contexts: phase one on thread 0, the device-available
   * step (`availableCallback`, `dontDaemonize` and `daemonizeErrno` as in
   * `LibBackend.OnDeviceAvailable`), then every thread's phase-two loop and the final scan.
   * Threads are independent, so their loops run one after the other here.
   */
  method Run(contexts: seq<Context>, phaseOne: seq<Exchange>, availableCallback: int, dontDaemonize: bool,
             daemonizeErrno: Option<int>, phaseTwo: seq<seq<Exchange>>) returns (outcome: RunOutcome)
    requires |contexts| >= 1 && |phaseTwo| == |contexts|
    requires forall i, j :: 0 <= i < j < |contexts| ==> contexts[i] != contexts[j]
    requires forall i :: 0 <= i < |contexts| ==> contexts[i].status == Running && !contexts[i].allowDeviceAvailable
    modifies contexts
    ensures outcome == RunSpec(phaseOne, LibBackend.OnDeviceAvailable(availableCallback, dontDaemonize, daemonizeErrno), phaseTwo)
    ensures outcome.Failed? ==>
      (exists i :: 0 <= i < |contexts| && contexts[i].status == Error(outcome.errno))
      || outcome.errno == availableCallback
      || (daemonizeErrno.Some? && outcome.errno == daemonizeErrno.value)
    ensures forall i :: 0 <= i < |contexts| ==> (contexts[i].terminationRequested <==> old(contexts[i].terminationRequested) || contexts[i].status.Error?)
  {
    var available := LibBackend.OnDeviceAvailable(availableCallback, dontDaemonize, daemonizeErrno);
    var c0 := contexts[0];
    c0.allowDeviceAvailable := true;
    var stop, _ := c0.ServiceLoop(phaseOne);
    if stop.None? {
      return StillServing;
    }
    FinalStatusOfEndedLoop(true, phaseOne, Running, stop.value);
    if c0.status == Terminate {
      return Succeeded;
    }
    if c0.status.Error? {
      return Failed(c0.status.errno);
    }
    c0.allowDeviceAvailable := false;
    if available.Err? {
      return Failed(available.error);
    }
    var allEnded := ServePhaseTwo(contexts, phaseTwo);
    if !allEnded {
      return StillServing;
    }
    var failure := ScanStatuses(contexts);
    assert seq(|contexts|, i requires 0 <= i < |contexts| reads contexts => contexts[i].status)
      == PhaseTwoStatuses(phaseTwo);
    match failure {
      case Some(e) =>
        outcome := Failed(e);
      case None =>
        outcome := Succeeded;
    }
  }
}
