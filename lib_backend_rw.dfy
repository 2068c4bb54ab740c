/**
 * The libbdus "rw" backend (libbdus/src/backends/rw.c): each service thread reads a request
 * header (and payload) from the control device with readv and writes the reply with writev,
 * retrying calls a signal interrupts. Its payload buffers are sized by
 * `PayloadLayout.MaxPayloadSize` without rounding, and its run phases are those of
 * `BackendService`.
 */
module LibRwBackend {
  import opened CTypes
  import opened Wrappers
  import opened KbdusAbi
  import opened BackendService
  import LibBackend

  /** `sizeof(struct kbdusrw_request_header)`. */
  const REQUEST_HEADER_SIZE: nat := 24
  /** `sizeof(struct kbdusrw_reply_header)`. */
  const REPLY_HEADER_SIZE: nat := 16

  /** The result of one readv or writev call: the number of bytes moved, or a failure. */
  datatype IoAttempt = Transferred(count: nat) | IoFailed(errno: int)

  /** How a retried transfer ends: it moved an acceptable amount, it failed, or it is still being retried. */
  datatype Verdict = Done | Broken(errno: int) | Retrying

  /**
   * The verdict on a transfer whose successive attempts are `attempts`: interrupted attempts
   * (EINTR) are retried; the first other one decides. A read (`exact` false) needs at least
   * `expected` bytes, a write (`exact` true) exactly `expected`; anything else is EINVAL.
   */
  function TransferVerdict(attempts: seq<IoAttempt>, expected: nat, exact: bool): (v: Verdict)
    ensures v.Retrying? <==> forall k :: 0 <= k < |attempts| ==> attempts[k] == IoFailed(EINTR)
    ensures v.Done? ==>
      exists k :: 0 <= k < |attempts| && attempts[k].Transferred?
        && (if exact then attempts[k].count == expected else attempts[k].count >= expected)
        && forall j :: 0 <= j < k ==> attempts[j] == IoFailed(EINTR)
    ensures v.Broken? ==> v.errno != EINTR || v.errno == EINVAL
  {
    if attempts == [] then Retrying
    else match attempts[0]
      case IoFailed(e) =>
        if e != EINTR then Broken(e)
        else
          var v := TransferVerdict(attempts[1..], expected, exact);
          assert forall k :: 1 <= k < |attempts| ==> attempts[k] == attempts[1..][k - 1];
          if v.Done? then
            var k' :| 0 <= k' < |attempts[1..]| && attempts[1..][k'].Transferred?
              && (if exact then attempts[1..][k'].count == expected else attempts[1..][k'].count >= expected)
              && forall j :: 0 <= j < k' ==> attempts[1..][j] == IoFailed(EINTR);
            assert attempts[k' + 1] == attempts[1..][k'];
            v
          else v
      case Transferred(n) =>
        if (if exact then n != expected else n < expected) then Broken(EINVAL) else Done
  }

  /**
   * `bdusrw_read_request_` and `bdusrw_write_reply_`: the retry loop over the attempts, which
   * records a failure in the context status.
   */
  method SettleTransfer(c: Context, attempts: seq<IoAttempt>, expected: nat, exact: bool) returns (v: Verdict)
    modifies c
    ensures v == TransferVerdict(attempts, expected, exact)
    ensures c.status == (if v.Broken? then Error(v.errno) else old(c.status))
    ensures c.allowDeviceAvailable == old(c.allowDeviceAvailable)
    ensures c.terminationRequested == old(c.terminationRequested)
  {
    var i := 0;
    while i < |attempts|
      invariant 0 <= i <= |attempts|
      invariant TransferVerdict(attempts, expected, exact) == TransferVerdict(attempts[i..], expected, exact)
      invariant c.status == old(c.status)
      invariant c.allowDeviceAvailable == old(c.allowDeviceAvailable)
      invariant c.terminationRequested == old(c.terminationRequested)
    {
      assert attempts[i..][0] == attempts[i];
      assert attempts[i..][1..] == attempts[i + 1..];
      match attempts[i] {
        case IoFailed(e) =>
          if e != EINTR {
            c.status := Error(e);
            return Broken(e);
          }
        case Transferred(n) =>
          if (if exact then n != expected else n < expected) {
            c.status := Error(EINVAL);
            return Broken(EINVAL);
          }
          return Done;
      }
      i := i + 1;
    }
    assert attempts[i..] == [];
    return Retrying;
  }

  /**
   * `bdusrw_process_request_`: -1 for a notification or an unknown type (which end the loop,
   * with the status `Dispatch` gives), otherwise the reply payload size.
   */
  method ProcessRequest(c: Context, request: Request, callbackResult: i32) returns (replySize: int)
    modifies c
    ensures var d := Dispatch(old(c.allowDeviceAvailable), request.reqType, request.arg32, callbackResult);
      (replySize < 0 <==> d.Some?)
      && (d.None? ==> replySize == LibBackend.ReplySize(request.reqType, request.arg32, callbackResult))
      && c.status == (if d.Some? then d.value else old(c.status))
    ensures c.allowDeviceAvailable == old(c.allowDeviceAvailable)
    ensures c.terminationRequested == old(c.terminationRequested)
  {
    var proceed := c.ProcessRequest(request, callbackResult);
    replySize := if proceed then LibBackend.ReplySize(request.reqType, request.arg32, callbackResult) else -1;
  }

  /** One iteration of the rw service loop, as the kernel and the driver make it go. */
  datatype Round = Round(readAttempts: seq<IoAttempt>, request: Request, callbackResult: i32, writeAttempts: seq<IoAttempt>)

  /** A reply header written back, with the length of the payload that follows it. */
  datatype Reply = Reply(handleSeqnum: u64, handleIndex: u16, payloadLength: nat)

  /** The reply a handled request receives. */
  function ReplyTo(r: Round): Reply
    requires Dispatch(false, r.request.reqType, r.request.arg32, r.callbackResult).None?
  {
    Reply(r.request.handleSeqnum, r.request.handleIndex,
          LibBackend.ReplySize(r.request.reqType, r.request.arg32, r.callbackResult))
  }

  /**
   * What one round does: the replies it writes (none or one), and whether the loop goes on or
   * leaves, with the status it leaves with (None when a transfer is still being retried).
   */
  datatype Step = Continue(written: seq<Reply>) | Leave(outcome: Option<Status>, written: seq<Reply>)

  /** One iteration of `bdusrw_service_loop_`. */
  function StepOf(allow: bool, r: Round): (st: Step)
    ensures |st.written| <= 1
    ensures |st.written| == 1 ==>
      r.request.handleIndex != 0
      && Dispatch(false, r.request.reqType, r.request.arg32, r.callbackResult).None?
      && st.written[0] == ReplyTo(r)
    ensures st.Continue? ==> Dispatch(allow, r.request.reqType, r.request.arg32, r.callbackResult).None?
  {
    match TransferVerdict(r.readAttempts, REQUEST_HEADER_SIZE, false)
    case Retrying => Leave(None, [])
    case Broken(e) => Leave(Some(Error(e)), [])
    case Done =>
      match Dispatch(allow, r.request.reqType, r.request.arg32, r.callbackResult)
      case Some(s) => Leave(Some(s), [])
      case None =>
        if r.request.handleIndex == 0 then Continue([])
        else
          var reply := ReplyTo(r);
          match TransferVerdict(r.writeAttempts, REPLY_HEADER_SIZE + reply.payloadLength, true)
          case Retrying => Leave(None, [reply])
          case Broken(e) => Leave(Some(Error(e)), [reply])
          case Done => Continue([reply])
  }

  /**
   * `bdusrw_service_loop_` over the rounds: the status the loop ends with (None while it has
   * not ended) and the replies it writes.
   */
  function Serve(allow: bool, rounds: seq<Round>): (Option<Status>, seq<Reply>)
  {
    if rounds == [] then (None, [])
    else match StepOf(allow, rounds[0])
      case Leave(o, written) => (o, written)
      case Continue(written) =>
        var rest := Serve(allow, rounds[1..]);
        (rest.0, written + rest.1)
  }

  /**
   * Every reply the loop writes answers one of the rounds' requests: one that was handled (not a
   * notification), has a non-zero handle index, and whose seqnum and index the reply copies.
   */
  lemma {:induction false} RepliesAnswerRequests(allow: bool, rounds: seq<Round>)
    ensures forall rep :: rep in Serve(allow, rounds).1 ==>
      (exists k :: 0 <= k < |rounds| && rounds[k].request.handleIndex != 0
        && Dispatch(false, rounds[k].request.reqType, rounds[k].request.arg32, rounds[k].callbackResult).None?
        && rep == ReplyTo(rounds[k]))
  {
    if rounds != [] {
      RepliesAnswerRequests(allow, rounds[1..]);
      forall rep | rep in Serve(allow, rounds[1..]).1
        ensures exists k ::
                  0 <= k < |rounds| && rounds[k].request.handleIndex != 0
                  && Dispatch(false, rounds[k].request.reqType, rounds[k].request.arg32, rounds[k].callbackResult).None?
                  && rep == ReplyTo(rounds[k])
      {
        var k :| 0 <= k < |rounds[1..]| && rounds[1..][k].request.handleIndex != 0
          && Dispatch(false, rounds[1..][k].request.reqType, rounds[1..][k].request.arg32, rounds[1..][k].callbackResult).None?
          && rep == ReplyTo(rounds[1..][k]);
        assert rounds[k + 1] == rounds[1..][k];
      }
    }
  }

  /** `Serve` on a suffix of the rounds, unfolded once. */
  lemma ServeUnfold(allow: bool, rounds: seq<Round>, i: nat)
    requires i < |rounds|
    ensures var st := StepOf(allow, rounds[i]);
      Serve(allow, rounds[i..]) ==
        if st.Leave? then (st.outcome, st.written)
        else (Serve(allow, rounds[i + 1..]).0, st.written + Serve(allow, rounds[i + 1..]).1)
  {
    assert rounds[i..][0] == rounds[i];
    assert rounds[i..][1..] == rounds[i + 1..];
  }

  /** One round of the loop, run against the context. */
  method ServeRound(c: Context, r: Round) returns (st: Step)
    modifies c
    ensures st == StepOf(old(c.allowDeviceAvailable), r)
    ensures c.status == (if st.Leave? && st.outcome.Some? then st.outcome.value else old(c.status))
    ensures c.allowDeviceAvailable == old(c.allowDeviceAvailable)
    ensures c.terminationRequested == old(c.terminationRequested)
  {
    var v := SettleTransfer(c, r.readAttempts, REQUEST_HEADER_SIZE, false);
    if v.Retrying? {
      return Leave(None, []);
    } else if v.Broken? {
      return Leave(Some(Error(v.errno)), []);
    }
    var size := ProcessRequest(c, r.request, r.callbackResult);
    if size < 0 {
      return Leave(Some(c.status), []);
    }
    if r.request.handleIndex == 0 {
      return Continue([]);
    }
    var reply := Reply(r.request.handleSeqnum, r.request.handleIndex, size);
    var w := SettleTransfer(c, r.writeAttempts, REPLY_HEADER_SIZE + size, true);
    if w.Retrying? {
      return Leave(None, [reply]);
    } else if w.Broken? {
      return Leave(Some(Error(w.errno)), [reply]);
    }
    return Continue([reply]);
  }

  /**
   * Where the service loop stands after `i` rounds: either it has left, with `outcome` and
   * `replies` being the whole loop's result, or it is still going, with `replies` the prefix
   * of the whole loop's replies that precedes those of the remaining rounds.
   */
  ghost predicate Progress(allow: bool, rounds: seq<Round>, i: nat, left: bool, outcome: Option<Status>,
                           replies: seq<Reply>, status: Status, initial: Status)
    requires i <= |rounds|
  {
    if left then
      Serve(allow, rounds) == (outcome, replies)
      && status == (if outcome.Some? then outcome.value else initial)
    else
      status == initial
      && Serve(allow, rounds) == (Serve(allow, rounds[i..]).0, replies + Serve(allow, rounds[i..]).1)
  }

  /** Serving round `i` keeps `Progress`. */
  lemma ProgressStep(allow: bool, rounds: seq<Round>, i: nat, replies: seq<Reply>, status: Status, initial: Status,
                     st: Step, status': Status)
    requires i < |rounds| && Progress(allow, rounds, i, false, None, replies, status, initial)
    requires st == StepOf(allow, rounds[i])
    requires status' == (if st.Leave? && st.outcome.Some? then st.outcome.value else status)
    ensures st.Leave? ==> Progress(allow, rounds, i + 1, true, st.outcome, replies + st.written, status', initial)
    ensures st.Continue? ==> Progress(allow, rounds, i + 1, false, None, replies + st.written, status', initial)
  {
    ServeUnfold(allow, rounds, i);
    if st.Continue? {
      ProgressContinues(allow, rounds, i, replies, st.written);
    }
  }

  lemma ProgressContinues(allow: bool, rounds: seq<Round>, i: nat, replies: seq<Reply>, written: seq<Reply>)
    requires i < |rounds|
    requires Serve(allow, rounds[i..]) == (Serve(allow, rounds[i + 1..]).0, written + Serve(allow, rounds[i + 1..]).1)
    requires Serve(allow, rounds) == (Serve(allow, rounds[i..]).0, replies + Serve(allow, rounds[i..]).1)
    ensures Serve(allow, rounds) == (Serve(allow, rounds[i + 1..]).0, (replies + written) + Serve(allow, rounds[i + 1..]).1)
  {
    var rest := Serve(allow, rounds[i + 1..]);
    assert replies + (written + rest.1) == (replies + written) + rest.1;
  }

  /**
   * `bdusrw_service_loop_`: reads a request, processes it, and writes the reply when the
   * request has a non-zero handle index, until a transfer fails or a request ends the loop; an
   * ERROR status then asks the kernel to end the session.
   */
  method ServiceLoop(c: Context, rounds: seq<Round>) returns (replies: seq<Reply>)
    modifies c
    ensures c.allowDeviceAvailable == old(c.allowDeviceAvailable)
    ensures replies == Serve(c.allowDeviceAvailable, rounds).1
    ensures c.status == match Serve(c.allowDeviceAvailable, rounds).0
      case Some(s) => s
      case None => old(c.status)
    ensures c.terminationRequested <==> old(c.terminationRequested) || c.status.Error?
  {
    ghost var allow := c.allowDeviceAvailable;
    replies := [];
    var i := 0;
    var left := false;
    ghost var outcome: Option<Status> := None;
    assert rounds[0..] == rounds;
    assert [] + Serve(allow, rounds).1 == Serve(allow, rounds).1;
    while i < |rounds| && !left
      invariant 0 <= i <= |rounds| && c.allowDeviceAvailable == allow
      invariant c.terminationRequested == old(c.terminationRequested)
      invariant Progress(allow, rounds, i, left, outcome, replies, c.status, old(c.status))
      decreases |rounds| - i
    {
      ghost var status := c.status;
      var st := ServeRound(c, rounds[i]);
      ProgressStep(allow, rounds, i, replies, status, old(c.status), st, c.status);
      replies := replies + st.written;
      if st.Leave? {
        left := true;
        outcome := st.outcome;
      }
      i := i + 1;
    }
    if !left {
      assert rounds[i..] == [];
      assert replies + [] == replies;
    }
    if c.status.Error? {
      c.terminationRequested := true;
    }
  }
}
