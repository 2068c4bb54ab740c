/**
 * The request inverter of kbdus (kbdus/src/inverter.c): a fixed pool of request slots through
 * which block-layer requests and ioctl calls are handed to the user-space driver and their
 * replies handed back.
 *
 * Every slot moves FREE -> AWAITING_GET -> BEING_GOTTEN -> AWAITING_COMPLETION ->
 * BEING_COMPLETED -> FREE, with IOCTL_COMPLETED as the last stop of an ioctl request before it
 * is freed by the thread that submitted it. The two intrusive lists are sequences of slot
 * indices, head first. Each method is one critical section of `reqs_lock`; the completions
 * that wake sleeping threads are not modelled, and a blocking wait becomes the state in which
 * it ends (see `BeginRequestGet` and `EndIoctlWait`).
 *
 * Completing a queue request (`blk_mq_complete_request`) is recorded in `completedQueueRequests`
 * as the slot and the negated errno the block layer sees.
 */
module KbdusInverter {
  import opened CTypes
  import opened Wrappers
  import opened KbdusAbi

  /** `KBDUS_REQ_STATE_*_`. */
  datatype SlotState =
    | Free
    | AwaitingGet
    | BeingGotten
    | AwaitingCompletion
    | BeingCompleted
    | IoctlCompleted

  /**
   * `struct kbdus_inverter_request`: the type, the handle, and the ioctl command of an ioctl
   * request (the queue request pointer and the ioctl argument buffer are not modelled).
   */
  datatype Request = Request(reqType: u32, handleIndex: u16, handleSeqnum: nat, ioctlCommand: u32)

  /** The three notification requests, all with the null handle (0, 0). */
  const DEVICE_AVAILABLE_REQUEST: Request := Request(REQ_DEVICE_AVAILABLE, 0, 0, 0)
  const TERMINATE_REQUEST: Request := Request(REQ_TERMINATE, 0, 0, 0)
  const FLUSH_AND_TERMINATE_REQUEST: Request := Request(REQ_FLUSH_AND_TERMINATE, 0, 0, 0)

  /** `struct kbdus_inverter_request_wrapper_`: one slot of the pool. */
  datatype Wrapper = Wrapper(request: Request, state: SlotState, ioctlNegatedErrno: int)

  /** A queue request handed back to the block layer with a negated errno. */
  datatype Completion = Completion(slot: nat, negatedErrno: int)

  /** The four bits of the inverter's flag word that change after creation. */
  datatype Flags = Flags(
    deactivated: bool,
    deactivatedNotFlushed: bool,
    terminated: bool,
    sendDeviceAvailable: bool)

  /** What the block layer's timeout handler is told. */
  datatype TimerAction = EhDone | EhResetTimer

  /** One pass of `kbdus_inverter_begin_request_get` after a wake-up. */
  datatype GetAttempt =
    | Got(request: Request)
    | Failed(errno: nat)
    /** Nothing to hand out after all: the caller sleeps again. */
    | WaitAgain

  /** Types of requests that come from the block layer's queue. */
  predicate IsQueueType(t: u32)
  {
    REQ_READ <= t <= REQ_SECURE_ERASE
  }

  /** Types of requests that occupy a slot. */
  predicate IsSlotType(t: u32)
  {
    IsQueueType(t) || t == REQ_IOCTL
  }

  /* ------------------------------------------------------------------------------------------ */
  /* handles */

  /**
   * `kbdus_inverter_handle_index_to_wrapper_`: the slot a handle index names, if any. The index
   * is decremented as a u16, so handle 0 wraps to 65535.
   */
  function SlotOfHandle(numReqs: nat, handleIndex: u16): (slot: Option<nat>)
    ensures slot.Some? ==> slot.value < numReqs && ToU16(slot.value + 1) == handleIndex
    ensures numReqs <= 0x1_0000 ==> (slot.Some? <==> 1 <= handleIndex <= numReqs || (handleIndex == 0 && numReqs == 0x1_0000))
  {
    var index := ToU16(handleIndex - 1);
    if index >= numReqs then None else Some(index)
  }

  /** The handle index a slot is given at creation names that slot back. */
  lemma HandleOfSlot(numReqs: nat, slot: nat)
    requires slot < numReqs && slot < 0x1_0000
    ensures SlotOfHandle(numReqs, ToU16(slot + 1)) == Some(slot)
  {
    if slot + 1 == 0x1_0000 {
      assert ToU16(slot + 1) == 0;
    } else {
      assert ToU16(slot + 1) == slot + 1;
    }
  }

  /* ------------------------------------------------------------------------------------------ */
  /* the two lists */

  /** A list holds no slot twice. */
  predicate Distinct(s: seq<nat>)
  {
    forall a, b :: 0 <= a < b < |s| ==> s[a] != s[b]
  }

  /** `list_del`: the list without `x`, the others in their order. */
  function Remove(s: seq<nat>, x: nat): (r: seq<nat>)
    ensures forall y :: y in r <==> y in s && y != x
    ensures Distinct(s) ==> Distinct(r)
    ensures x !in s ==> r == s
    ensures Distinct(s) && |s| > 0 && s[0] == x ==> r == s[1..]
  {
    if s == [] then []
    else
      DistinctTail(s);
      var rest := Remove(s[1..], x);
      if s[0] == x then rest
      else
        DistinctConsIf(s[0], rest);
        [s[0]] + rest
  }

  /** The tail of a duplicate-free list is duplicate-free and lacks the head. */
  lemma DistinctTail(s: seq<nat>)
    requires |s| > 0
    ensures Distinct(s) ==> s[0] !in s[1..] && Distinct(s[1..])
  {
    var tail := s[1..];
    if Distinct(s) {
      forall k | 0 <= k < |tail|
        ensures tail[k] != s[0]
      {
        assert tail[k] == s[k + 1];
      }
      forall a, b | 0 <= a < b < |tail|
        ensures tail[a] != tail[b]
      {
        assert tail[a] == s[a + 1] && tail[b] == s[b + 1];
      }
    }
  }

  /** `DistinctCons` for a caller that does not yet know its premise holds. */
  lemma DistinctConsIf(x: nat, s: seq<nat>)
    ensures Distinct(s) && x !in s ==> Distinct([x] + s)
  {
    if Distinct(s) && x !in s {
      DistinctCons(x, s);
    }
  }

  /** Putting a new element on either end keeps a list duplicate-free. */
  lemma DistinctCons(x: nat, s: seq<nat>)
    requires Distinct(s) && x !in s
    ensures Distinct([x] + s) && Distinct(s + [x])
  {
    var front := [x] + s;
    forall a, b | 0 <= a < b < |front|
      ensures front[a] != front[b]
    {
      if a > 0 {
        assert front[a] == s[a - 1] && front[b] == s[b - 1];
      } else {
        assert front[b] == s[b - 1];
      }
    }
  }

  /** `list` holds exactly the slots that are in state `st`, each once. */
  ghost predicate Lists(list: seq<nat>, slots: seq<Wrapper>, st: SlotState)
  {
    Distinct(list)
    && (forall x :: x in list ==> x < |slots| && slots[x].state == st)
    && (forall i :: 0 <= i < |slots| && slots[i].state == st ==> i in list)
  }

  /** How a list follows one slot changing into `w`. */
  lemma Relist(list: seq<nat>, slots: seq<Wrapper>, st: SlotState, i: nat, w: Wrapper)
    requires Lists(list, slots, st) && i < |slots|
    ensures slots[i].state != st && w.state != st ==> Lists(list, slots[i := w], st)
    ensures slots[i].state == st && w.state == st ==> Lists(list, slots[i := w], st)
    ensures slots[i].state == st && w.state != st ==> Lists(Remove(list, i), slots[i := w], st)
    ensures slots[i].state != st && w.state == st ==>
      Lists([i] + list, slots[i := w], st) && Lists(list + [i], slots[i := w], st)
  {
    if slots[i].state != st && w.state == st {
      DistinctCons(i, list);
    }
  }

  /* ------------------------------------------------------------------------------------------ */
  /* the pool's invariant */

  /** What holds of slot `i` at all times. */
  predicate SlotOk(i: nat, w: Wrapper)
  {
    w.request.handleIndex == ToU16(i + 1)
    && (w.state != Free ==> IsSlotType(w.request.reqType))
    && (w.state == IoctlCompleted ==> w.request.reqType == REQ_IOCTL)
  }

  /**
   * Every slot keeps the handle index it was created with, holds a real request unless it is
   * free, and the free and awaiting-get lists hold exactly the FREE and AWAITING_GET slots.
   */
  ghost predicate Wellformed(slots: seq<Wrapper>, free: seq<nat>, awaiting: seq<nat>)
  {
    (forall i :: 0 <= i < |slots| ==> SlotOk(i, slots[i]))
    && Lists(free, slots, Free)
    && Lists(awaiting, slots, AwaitingGet)
  }

  /** Whether a slot waits for the driver (AWAITING_GET or AWAITING_COMPLETION). */
  predicate Awaiting(w: Wrapper)
  {
    w.state == AwaitingGet || w.state == AwaitingCompletion
  }

  /** No slot waits for the driver: what termination leaves behind. */
  ghost predicate NoneAwaiting(slots: seq<Wrapper>)
  {
    forall j :: 0 <= j < |slots| ==> !Awaiting(slots[j])
  }

  /** Once the pool holds no AWAITING_GET slot, the awaiting-get list is empty. */
  lemma EmptyAwaitingList(slots: seq<Wrapper>, awaiting: seq<nat>)
    requires Lists(awaiting, slots, AwaitingGet) && NoneAwaiting(slots)
    ensures awaiting == []
  {
    assert Elements(awaiting) == {};
  }

  /** The slots a list holds; as many as its length when it holds none twice. */
  ghost function Elements(s: seq<nat>): (r: set<nat>)
    ensures forall x :: x in r <==> x in s
    ensures Distinct(s) ==> |r| == |s|
  {
    if s == [] then {}
    else
      DistinctTail(s);
      var rest := Elements(s[1..]);
      assert s == [s[0]] + s[1..];
      assert Distinct(s) ==> s[0] !in rest;
      {s[0]} + rest
  }

  /** The indices below `n`. */
  ghost function IndexSet(n: nat): (r: set<nat>)
    ensures forall i :: i in r <==> 0 <= i < n
    ensures |r| == n
  {
    if n == 0 then {}
    else
      var below := IndexSet(n - 1);
      assert n - 1 !in below;
      below + {n - 1}
  }

  /**
   * When every slot is FREE, the free list holds all of them: what `kbdus_inverter_destroy`
   * checks before releasing the pool.
   */
  lemma IdlePoolHasFullFreeList(slots: seq<Wrapper>, free: seq<nat>)
    requires Lists(free, slots, Free)
    requires forall j :: 0 <= j < |slots| ==> slots[j].state == Free
    ensures |free| == |slots|
  {
    assert Elements(free) == IndexSet(|slots|);
  }

  /* ------------------------------------------------------------------------------------------ */
  /* handle sequence numbers */

  /**
   * Whether a slot going from state `a` to state `b` ends one use of it: it becomes
   * IOCTL_COMPLETED, or it becomes FREE without having been IOCTL_COMPLETED.
   */
  predicate EndsUse(a: SlotState, b: SlotState)
  {
    (b == IoctlCompleted && a != IoctlCompleted) || (b == Free && a != Free && a != IoctlCompleted)
  }

  /** The handle seqnum grows by one exactly when a use ends, and is otherwise kept. */
  predicate SeqnumAdvanced(a: Wrapper, b: Wrapper)
  {
    b.request.handleSeqnum == a.request.handleSeqnum + (if EndsUse(a.state, b.state) then 1 else 0)
  }

  ghost predicate SeqnumsAdvanced(a: seq<Wrapper>, b: seq<Wrapper>)
  {
    |a| == |b| && forall j :: 0 <= j < |a| ==> SeqnumAdvanced(a[j], b[j])
  }

  /* ------------------------------------------------------------------------------------------ */
  /* slot transitions as values */

  /** A slot after `kbdus_inverter_wrapper_to_ioctl_completed_`. */
  function IoctlCompletedWith(w: Wrapper, negatedErrno: int): (r: Wrapper)
    requires w.state != IoctlCompleted && w.state != Free
    ensures r.state == IoctlCompleted && r.ioctlNegatedErrno == negatedErrno
    ensures SeqnumAdvanced(w, r) && r.request.handleSeqnum == w.request.handleSeqnum + 1
  {
    Wrapper(w.request.(handleSeqnum := w.request.handleSeqnum + 1), IoctlCompleted, negatedErrno)
  }

  /** A slot after `kbdus_inverter_wrapper_to_free_`. */
  function Freed(w: Wrapper): (r: Wrapper)
    requires w.state != Free
    ensures r.state == Free && SeqnumAdvanced(w, r)
    ensures r.request.reqType == w.request.reqType && r.request.handleIndex == w.request.handleIndex
  {
    var seqnum := if w.state == IoctlCompleted then w.request.handleSeqnum else w.request.handleSeqnum + 1;
    w.(request := w.request.(handleSeqnum := seqnum), state := Free)
  }

  /** A slot after `kbdus_inverter_wrapper_cancel_due_to_termination`. */
  function Cancelled(w: Wrapper): (r: Wrapper)
    requires w.state != Free && w.state != IoctlCompleted
    ensures w.request.reqType == REQ_IOCTL ==> r.state == IoctlCompleted && r.ioctlNegatedErrno == -(ENODEV as int)
    ensures w.request.reqType != REQ_IOCTL ==> r.state == Free
    ensures SeqnumAdvanced(w, r) && r.request.handleSeqnum == w.request.handleSeqnum + 1
  {
    if w.request.reqType == REQ_IOCTL then IoctlCompletedWith(w, -(ENODEV as int)) else Freed(w)
  }

  /** What `kbdus_inverter_terminate` makes of a slot. */
  function Terminated(w: Wrapper): (r: Wrapper)
    ensures !Awaiting(r) && SeqnumAdvanced(w, r)
    ensures !Awaiting(w) ==> r == w
  {
    if Awaiting(w) then Cancelled(w) else w
  }

  /** What `kbdus_inverter_activate` makes of a slot. */
  function Requeued(w: Wrapper): (r: Wrapper)
    ensures r.state != AwaitingCompletion && r.request == w.request
    ensures w.state != AwaitingCompletion ==> r == w
  {
    if w.state == AwaitingCompletion then w.(state := AwaitingGet) else w
  }

  /** Whether termination frees slot `w` and completes its queue request with -EIO. */
  predicate TerminationFrees(w: Wrapper)
  {
    Awaiting(w) && w.request.reqType != REQ_IOCTL
  }

  /**
   * The slots below `n` that termination frees, the highest first: each is pushed on the head
   * of the free list in turn.
   */
  function FreedByTermination(slots: seq<Wrapper>, n: nat): (r: seq<nat>)
    requires n <= |slots|
    ensures forall x :: x in r <==> 0 <= x < n && TerminationFrees(slots[x])
  {
    if n == 0 then []
    else (if TerminationFrees(slots[n - 1]) then [n - 1] else []) + FreedByTermination(slots, n - 1)
  }

  /** The queue requests that termination completes, in slot order. */
  function TerminationCompletions(slots: seq<Wrapper>, n: nat): (r: seq<Completion>)
    requires n <= |slots|
    ensures forall c :: c in r <==> c.slot < n && TerminationFrees(slots[c.slot]) && c.negatedErrno == -(EIO as int)
  {
    if n == 0 then []
    else
      var last := if TerminationFrees(slots[n - 1]) then [Completion(n - 1, -(EIO as int))] else [];
      TerminationCompletions(slots, n - 1) + last
  }

  /**
   * The slots below `n` that activation moves back to AWAITING_GET, the highest first: each is
   * pushed on the head of the awaiting-get list in turn.
   */
  function RequeuedByActivation(slots: seq<Wrapper>, n: nat): (r: seq<nat>)
    requires n <= |slots|
    ensures forall x :: x in r <==> 0 <= x < n && slots[x].state == AwaitingCompletion
  {
    if n == 0 then []
    else (if slots[n - 1].state == AwaitingCompletion then [n - 1] else []) + RequeuedByActivation(slots, n - 1)
  }

  /**
   * How far `kbdus_inverter_terminate` has got over the original `slots0`, `free0` and
   * `completed0`: the slots below `i` are terminated, the others untouched.
   */
  ghost predicate TerminationProgress(slots0: seq<Wrapper>, free0: seq<nat>, completed0: seq<Completion>, i: nat,
    slots: seq<Wrapper>, free: seq<nat>, completed: seq<Completion>)
  {
    i <= |slots0| == |slots|
    && (forall j :: 0 <= j < |slots| ==> slots[j] == if j < i then Terminated(slots0[j]) else slots0[j])
    && free == FreedByTermination(slots0, i) + free0
    && completed == completed0 + TerminationCompletions(slots0, i)
  }

  /** Cancelling slot `i` if it awaits the driver moves the termination on by one slot. */
  lemma TerminationStep(slots0: seq<Wrapper>, free0: seq<nat>, completed0: seq<Completion>, i: nat,
    slots: seq<Wrapper>, free: seq<nat>, completed: seq<Completion>,
    slots': seq<Wrapper>, free': seq<nat>, completed': seq<Completion>)
    requires TerminationProgress(slots0, free0, completed0, i, slots, free, completed) && i < |slots0|
    requires Awaiting(slots[i]) ==>
      slots' == slots[i := Cancelled(slots[i])]
      && free' == (if slots[i].request.reqType != REQ_IOCTL then [i] + free else free)
      && completed' == completed
        + (if slots[i].request.reqType != REQ_IOCTL then [Completion(i, -(EIO as int))] else [])
    requires !Awaiting(slots[i]) ==> slots' == slots && free' == free && completed' == completed
    ensures TerminationProgress(slots0, free0, completed0, i + 1, slots', free', completed')
  {
    assert slots[i] == slots0[i];
    var freed := FreedByTermination(slots0, i);
    var done := TerminationCompletions(slots0, i);
    assert [i] + (freed + free0) == ([i] + freed) + free0;
    assert (completed0 + done) + [Completion(i, -(EIO as int))] == completed0 + (done + [Completion(i, -(EIO as int))]);
    assert completed0 + done + [] == completed0 + (done + []);
  }

  /** A finished termination leaves no slot awaiting the driver and ends one use of each cancelled slot. */
  lemma TerminationDone(slots0: seq<Wrapper>, free0: seq<nat>, completed0: seq<Completion>,
    slots: seq<Wrapper>, free: seq<nat>, awaiting: seq<nat>, completed: seq<Completion>)
    requires TerminationProgress(slots0, free0, completed0, |slots0|, slots, free, completed)
    requires Lists(awaiting, slots, AwaitingGet)
    ensures NoneAwaiting(slots) && SeqnumsAdvanced(slots0, slots) && awaiting == []
    ensures forall j :: 0 <= j < |slots| ==> slots[j] == Terminated(slots0[j])
  {
    EmptyAwaitingList(slots, awaiting);
  }

  /**
   * How far `kbdus_inverter_activate` has got over the original `slots0` and `awaiting0`: the
   * slots below `i` are requeued, the others untouched.
   */
  ghost predicate ActivationProgress(slots0: seq<Wrapper>, awaiting0: seq<nat>, i: nat,
    slots: seq<Wrapper>, awaiting: seq<nat>)
  {
    i <= |slots0| == |slots|
    && (forall j :: 0 <= j < |slots| ==> slots[j] == if j < i then Requeued(slots0[j]) else slots0[j])
    && awaiting == RequeuedByActivation(slots0, i) + awaiting0
  }

  /** Requeueing slot `i` if it awaits completion moves the activation on by one slot. */
  lemma ActivationStep(slots0: seq<Wrapper>, awaiting0: seq<nat>, i: nat,
    slots: seq<Wrapper>, awaiting: seq<nat>, slots': seq<Wrapper>, awaiting': seq<nat>)
    requires ActivationProgress(slots0, awaiting0, i, slots, awaiting) && i < |slots0|
    requires slots[i].state == AwaitingCompletion ==>
      slots' == slots[i := slots[i].(state := AwaitingGet)] && awaiting' == [i] + awaiting
    requires slots[i].state != AwaitingCompletion ==> slots' == slots && awaiting' == awaiting
    ensures ActivationProgress(slots0, awaiting0, i + 1, slots', awaiting')
  {
    assert slots[i] == slots0[i];
    var requeued := RequeuedByActivation(slots0, i);
    assert [i] + (requeued + awaiting0) == ([i] + requeued) + awaiting0;
  }

  /** The pool `kbdus_inverter_create` builds satisfies the invariant. */
  lemma FreshPoolWellformed(slots: seq<Wrapper>, free: seq<nat>)
    requires |free| == |slots| && forall k :: 0 <= k < |free| ==> free[k] == k
    requires forall k :: 0 <= k < |slots| ==> slots[k] == Wrapper(Request(0, ToU16(k + 1), 0, 0), Free, 0)
    ensures Wellformed(slots, free, [])
  {
    assert Distinct(free) by {
      forall a, b | 0 <= a < b < |free|
        ensures free[a] != free[b]
      {
      }
    }
    forall i | 0 <= i < |slots|
      ensures i in free
    {
      assert free[i] == i;
    }
  }

  /* ------------------------------------------------------------------------------------------ */
  /* error sanitisation */

  /**
   * The negated errno an ioctl call returns, from the driver's reply: -ENODEV once the inverter
   * is terminated, and -EIO in place of any positive value, any value below -133 and -ENOSYS.
   */
  function SanitizedIoctlErrno(terminated: bool, negatedErrno: int): (e: int)
    ensures -(MAX_ERRNO_VALUE as int) <= e <= 0 && e != -(ENOSYS as int)
    ensures terminated ==> e == -(ENODEV as int)
    ensures !terminated && -(MAX_ERRNO_VALUE as int) <= negatedErrno <= 0 && negatedErrno != -(ENOSYS as int) ==>
      e == negatedErrno
    ensures !terminated && !(-(MAX_ERRNO_VALUE as int) <= negatedErrno <= 0 && negatedErrno != -(ENOSYS as int)) ==>
      e == -(EIO as int)
  {
    var e := if terminated then -(ENODEV as int) else negatedErrno;
    if e > 0 || e < -(MAX_ERRNO_VALUE as int) || e == -(ENOSYS as int) then -(EIO as int) else e
  }

  /** The only errors a driver may report for a queue request. */
  const QUEUE_REQUEST_ERRNOS: set<int> :=
    {0, -(EBADE as int), -(EILSEQ as int), -(ENODATA as int), -(ENOLINK as int), -(ENOSPC as int), -(EREMOTEIO as int)}

  /**
   * The negated errno a queue request is completed with, from the driver's reply: -EIO once
   * the inverter is terminated, and -EIO in place of anything outside the allowed set.
   */
  function SanitizedQueueErrno(terminated: bool, negatedErrno: int): (e: int)
    ensures e in QUEUE_REQUEST_ERRNOS || e == -(EIO as int)
    ensures terminated ==> e == -(EIO as int)
    ensures !terminated && negatedErrno in QUEUE_REQUEST_ERRNOS ==> e == negatedErrno
    ensures negatedErrno !in QUEUE_REQUEST_ERRNOS ==> e == -(EIO as int)
  {
    var e := if terminated then -(EIO as int) else negatedErrno;
    if e in QUEUE_REQUEST_ERRNOS then e else -(EIO as int)
  }

  /** Sanitising a sanitised value changes nothing. */
  lemma SanitizingTwice(terminated: bool, negatedErrno: int)
    ensures SanitizedIoctlErrno(false, SanitizedIoctlErrno(terminated, negatedErrno))
      == SanitizedIoctlErrno(terminated, negatedErrno)
    ensures SanitizedQueueErrno(false, SanitizedQueueErrno(terminated, negatedErrno))
      == SanitizedQueueErrno(terminated, negatedErrno)
  {
  }

  /* ------------------------------------------------------------------------------------------ */
  /* ioctl argument handling around the wait */

  /**
   * The error `kbdus_inverter_submit_and_await_ioctl_request` returns before submitting, from
   * the outcome of the user-pointer check, the allocation and the copy from the caller: none
   * for a command without argument.
   */
  function IoctlArgumentError(command: u32, accessOk: bool, allocOk: bool, copyInOk: bool): (err: Option<nat>)
    ensures IocDir(command) == IOC_NONE ==> err.None?
    ensures IocDir(command) != IOC_NONE ==>
      (err.None? <==> accessOk && allocOk && (IocDir(command) >= IOC_READ ==> copyInOk))
    ensures err.Some? ==> (err.value == ENOMEM <==> accessOk && !allocOk)
    ensures err.Some? ==> err.value == ENOMEM || err.value == EFAULT
  {
    var dir := IocDir(command);
    if dir == IOC_NONE then None
    else if !accessOk then Some(EFAULT)
    else if !allocOk then Some(ENOMEM)
    else if dir >= IOC_READ && !copyInOk then Some(EFAULT)
    else None
  }

  /**
   * The value `kbdus_inverter_submit_and_await_ioctl_request` returns after the wait: the
   * wait's result, unless it succeeded and copying the argument back to the caller failed.
   */
  function IoctlReturnValue(command: u32, waitResult: int, copyOutOk: bool): (ret: int)
    ensures waitResult != 0 ==> ret == waitResult
    ensures waitResult == 0 ==> (ret == 0 <==> IocDir(command) % 2 == 0 || copyOutOk)
    ensures ret == waitResult || ret == -(EFAULT as int)
  {
    if waitResult == 0 && IocDir(command) % 2 == IOC_WRITE && !copyOutOk then -(EFAULT as int) else waitResult
  }

  /* ------------------------------------------------------------------------------------------ */
  /* the inverter */

  /** `struct kbdus_inverter`. */
  class Inverter {
    var flags: Flags
    // The flag bits fixed at creation.
    const lifoRequestTransmission: bool
    const supportsRead: bool
    const supportsWrite: bool
    const supportsFlush: bool
    const numReqs: u32
    const reqsAll: array<Wrapper>
    var reqsFree: seq<nat>
    var reqsAwaitingGet: seq<nat>
    var completedQueueRequests: seq<Completion>

    ghost predicate Valid()
      reads this, reqsAll
    {
      reqsAll.Length == numReqs as int
      && Wellformed(reqsAll[..], reqsFree, reqsAwaitingGet)
      && (flags.terminated ==> NoneAwaiting(reqsAll[..]))
    }

    /** `kbdus_inverter_handle_index_to_wrapper_` on this inverter. */
    function HandleToSlot(handleIndex: u16): Option<nat>
    {
      SlotOfHandle(numReqs as nat, handleIndex)
    }

    /** `request` is the request of a slot in state `st`, reached through its handle. */
    predicate Holds(request: Request, st: SlotState)
      reads reqsAll
    {
      var slot := HandleToSlot(request.handleIndex);
      slot.Some? && slot.value < reqsAll.Length
      && reqsAll[slot.value].request == request && reqsAll[slot.value].state == st
    }

    /**
     * `kbdus_inverter_create`: every slot FREE with handle (i + 1, 0), all of them on the free
     * list in index order, and the support bits taken from the device configuration.
     */
    constructor (maxActiveReqs: u32, config: DeviceConfig)
      ensures Valid() && fresh(reqsAll)
      ensures numReqs == maxActiveReqs && flags == Flags(false, false, false, false)
      ensures lifoRequestTransmission == config.lifoRequestTransmission
      ensures supportsRead == config.supportsRead && supportsWrite == config.supportsWrite
      ensures supportsFlush == config.supportsFlush
      ensures forall i :: 0 <= i < reqsAll.Length ==>
        reqsAll[i].state == Free && reqsAll[i].request.handleIndex == ToU16(i + 1)
        && reqsAll[i].request.handleSeqnum == 0
      ensures |reqsFree| == numReqs as int && forall k :: 0 <= k < |reqsFree| ==> reqsFree[k] == k
      ensures reqsAwaitingGet == [] && completedQueueRequests == []
    {
      // The type of a free slot is never read; 0 stands for the uninitialised field.
      var slots := new Wrapper[maxActiveReqs];
      var free: seq<nat> := [];
      var i: nat := 0;
      while i < maxActiveReqs as nat
        invariant i <= maxActiveReqs as nat
        invariant |free| == i && forall k :: 0 <= k < i ==> free[k] == k
        invariant forall k :: 0 <= k < i ==> slots[k] == Wrapper(Request(0, ToU16(k + 1), 0, 0), Free, 0)
      {
        slots[i] := Wrapper(Request(0, ToU16(i + 1), 0, 0), Free, 0);
        free := free + [i];
        i := i + 1;
      }
      flags := Flags(false, false, false, false);
      lifoRequestTransmission := config.lifoRequestTransmission;
      supportsRead := config.supportsRead;
      supportsWrite := config.supportsWrite;
      supportsFlush := config.supportsFlush;
      numReqs := maxActiveReqs;
      reqsAll := slots;
      reqsFree := free;
      reqsAwaitingGet := [];
      completedQueueRequests := [];
      new;
      FreshPoolWellformed(reqsAll[..], reqsFree);
    }

    /* ---------------------------------------------------------------------------------------- */
    /* slot transitions (always called with the lock held) */

    /**
     * `kbdus_inverter_wrapper_to_awaiting_get_`: a slot coming from FREE joins the tail of the
     * awaiting-get list, one coming back joins its head.
     */
    method ToAwaitingGet(i: nat)
      requires Wellformed(reqsAll[..], reqsFree, reqsAwaitingGet) && i < reqsAll.Length
      requires reqsAll[i].state in {Free, AwaitingCompletion, BeingGotten}
      requires IsSlotType(reqsAll[i].request.reqType)
      modifies this, reqsAll
      ensures reqsAll[..] == old(reqsAll[..])[i := old(reqsAll[i]).(state := AwaitingGet)]
      ensures reqsFree == if old(reqsAll[i].state) == Free then Remove(old(reqsFree), i) else old(reqsFree)
      ensures reqsAwaitingGet ==
        if old(reqsAll[i].state) == Free then old(reqsAwaitingGet) + [i] else [i] + old(reqsAwaitingGet)
      ensures flags == old(flags) && completedQueueRequests == old(completedQueueRequests)
      ensures Wellformed(reqsAll[..], reqsFree, reqsAwaitingGet)
    {
      ghost var slots := reqsAll[..];
      var w := reqsAll[i].(state := AwaitingGet);
      Relist(reqsFree, slots, Free, i, w);
      Relist(reqsAwaitingGet, slots, AwaitingGet, i, w);
      if reqsAll[i].state == Free {
        reqsFree := Remove(reqsFree, i);
        reqsAwaitingGet := reqsAwaitingGet + [i];
      } else {
        reqsAwaitingGet := [i] + reqsAwaitingGet;
      }
      reqsAll[i] := w;
      assert reqsAll[..] == slots[i := w];
    }

    /** `kbdus_inverter_wrapper_to_being_gotten_`: the slot leaves the awaiting-get list. */
    method ToBeingGotten(i: nat)
      requires Wellformed(reqsAll[..], reqsFree, reqsAwaitingGet) && i < reqsAll.Length
      requires reqsAll[i].state == AwaitingGet
      modifies this, reqsAll
      ensures reqsAll[..] == old(reqsAll[..])[i := old(reqsAll[i]).(state := BeingGotten)]
      ensures reqsFree == old(reqsFree) && reqsAwaitingGet == Remove(old(reqsAwaitingGet), i)
      ensures flags == old(flags) && completedQueueRequests == old(completedQueueRequests)
      ensures Wellformed(reqsAll[..], reqsFree, reqsAwaitingGet)
    {
      ghost var slots := reqsAll[..];
      var w := reqsAll[i].(state := BeingGotten);
      Relist(reqsFree, slots, Free, i, w);
      Relist(reqsAwaitingGet, slots, AwaitingGet, i, w);
      reqsAwaitingGet := Remove(reqsAwaitingGet, i);
      reqsAll[i] := w;
      assert reqsAll[..] == slots[i := w];
    }

    /** `kbdus_inverter_wrapper_to_awaiting_completion_` and `..._to_being_completed_`. */
    method SetUnlistedState(i: nat, st: SlotState)
      requires Wellformed(reqsAll[..], reqsFree, reqsAwaitingGet) && i < reqsAll.Length
      requires reqsAll[i].state in {BeingGotten, AwaitingCompletion, BeingCompleted}
      requires st in {AwaitingCompletion, BeingCompleted}
      modifies reqsAll
      ensures reqsAll[..] == old(reqsAll[..])[i := old(reqsAll[i]).(state := st)]
      ensures Wellformed(reqsAll[..], reqsFree, reqsAwaitingGet)
    {
      ghost var slots := reqsAll[..];
      var w := reqsAll[i].(state := st);
      Relist(reqsFree, slots, Free, i, w);
      Relist(reqsAwaitingGet, slots, AwaitingGet, i, w);
      reqsAll[i] := w;
      assert reqsAll[..] == slots[i := w];
    }

    /**
     * `kbdus_inverter_wrapper_to_ioctl_completed_`: one use ends, the slot leaves the
     * awaiting-get list if it was there and keeps the ioctl's result.
     */
    method ToIoctlCompleted(i: nat, negatedErrno: int)
      requires Wellformed(reqsAll[..], reqsFree, reqsAwaitingGet) && i < reqsAll.Length
      requires reqsAll[i].state in {AwaitingGet, BeingGotten, AwaitingCompletion, BeingCompleted}
      requires reqsAll[i].request.reqType == REQ_IOCTL
      modifies this, reqsAll
      ensures reqsAll[..] == old(reqsAll[..])[i := IoctlCompletedWith(old(reqsAll[i]), negatedErrno)]
      ensures reqsFree == old(reqsFree) && reqsAwaitingGet == Remove(old(reqsAwaitingGet), i)
      ensures flags == old(flags) && completedQueueRequests == old(completedQueueRequests)
      ensures Wellformed(reqsAll[..], reqsFree, reqsAwaitingGet)
    {
      ghost var slots := reqsAll[..];
      var w := IoctlCompletedWith(reqsAll[i], negatedErrno);
      Relist(reqsFree, slots, Free, i, w);
      Relist(reqsAwaitingGet, slots, AwaitingGet, i, w);
      if reqsAll[i].state == AwaitingGet {
        reqsAwaitingGet := Remove(reqsAwaitingGet, i);
      }
      reqsAll[i] := w;
      assert reqsAll[..] == slots[i := w];
    }

    /**
     * `kbdus_inverter_wrapper_to_free_`: a queue request is completed with `negatedErrno`, one
     * use ends unless the slot was IOCTL_COMPLETED, and the slot goes on the head of the free
     * list.
     */
    method ToFree(i: nat, negatedErrno: int)
      requires Wellformed(reqsAll[..], reqsFree, reqsAwaitingGet) && i < reqsAll.Length
      requires reqsAll[i].state != Free
      modifies this, reqsAll
      ensures reqsAll[..] == old(reqsAll[..])[i := Freed(old(reqsAll[i]))]
      ensures reqsFree == [i] + old(reqsFree) && reqsAwaitingGet == Remove(old(reqsAwaitingGet), i)
      ensures completedQueueRequests == old(completedQueueRequests)
        + (if old(reqsAll[i].request.reqType) != REQ_IOCTL then [Completion(i, negatedErrno)] else [])
      ensures flags == old(flags)
      ensures Wellformed(reqsAll[..], reqsFree, reqsAwaitingGet)
    {
      ghost var slots := reqsAll[..];
      var w := Freed(reqsAll[i]);
      Relist(reqsFree, slots, Free, i, w);
      Relist(reqsAwaitingGet, slots, AwaitingGet, i, w);
      if reqsAll[i].request.reqType != REQ_IOCTL {
        completedQueueRequests := completedQueueRequests + [Completion(i, negatedErrno)];
      }
      if reqsAll[i].state == AwaitingGet {
        reqsAwaitingGet := Remove(reqsAwaitingGet, i);
      }
      reqsFree := [i] + reqsFree;
      reqsAll[i] := w;
      assert reqsAll[..] == slots[i := w];
    }

    /**
     * `kbdus_inverter_wrapper_cancel_due_to_termination`: an ioctl request fails with -ENODEV,
     * a queue request is completed with -EIO.
     */
    method CancelDueToTermination(i: nat)
      requires Wellformed(reqsAll[..], reqsFree, reqsAwaitingGet) && i < reqsAll.Length
      requires reqsAll[i].state in {AwaitingGet, BeingGotten, AwaitingCompletion, BeingCompleted}
      modifies this, reqsAll
      ensures reqsAll[..] == old(reqsAll[..])[i := Cancelled(old(reqsAll[i]))]
      ensures reqsFree == if old(reqsAll[i].request.reqType) != REQ_IOCTL then [i] + old(reqsFree) else old(reqsFree)
      ensures reqsAwaitingGet == Remove(old(reqsAwaitingGet), i)
      ensures completedQueueRequests == old(completedQueueRequests)
        + (if old(reqsAll[i].request.reqType) != REQ_IOCTL then [Completion(i, -(EIO as int))] else [])
      ensures flags == old(flags)
      ensures Wellformed(reqsAll[..], reqsFree, reqsAwaitingGet)
    {
      if reqsAll[i].request.reqType == REQ_IOCTL {
        ToIoctlCompleted(i, -(ENODEV as int));
      } else {
        ToFree(i, -(EIO as int));
      }
    }

    /* ---------------------------------------------------------------------------------------- */
    /* interface for request providers */

    /** `kbdus_inverter_ensure_queue_req_is_supported_` (non-debug build). */
    function QueueRequestSupported(reqType: u32): (ok: bool)
      ensures !ok <==> (reqType == REQ_READ && !supportsRead) || (reqType == REQ_WRITE && !supportsWrite)
    {
      if reqType == REQ_READ then supportsRead
      else if reqType == REQ_WRITE then supportsWrite
      else true
    }

    /**
     * `kbdus_inverter_submit_queue_request`: fails with -EIO and the null handle once
     * terminated, with -EOPNOTSUPP and the null handle for an unsupported type, and otherwise
     * puts the request in the slot at the head of the free list, which joins the tail of the
     * awaiting-get list, and returns that slot's handle.
     */
    method SubmitQueueRequest(reqType: u32) returns (negatedErrno: int, handleIndex: u16, handleSeqnum: nat)
      requires Valid() && IsQueueType(reqType) && reqsFree != []
      modifies this, reqsAll
      ensures Valid() && SeqnumsAdvanced(old(reqsAll[..]), reqsAll[..])
      ensures old(flags.terminated) ==>
        negatedErrno == -(EIO as int) && handleIndex == 0 && handleSeqnum == 0 && unchanged(this, reqsAll)
      ensures !old(flags.terminated) && !QueueRequestSupported(reqType) ==>
        negatedErrno == -(EOPNOTSUPP as int) && handleIndex == 0 && handleSeqnum == 0 && unchanged(this, reqsAll)
      ensures !old(flags.terminated) && QueueRequestSupported(reqType) ==>
        var i := old(reqsFree[0]);
        i < reqsAll.Length && negatedErrno == 0
        && reqsAll[..] == old(reqsAll[..])[i := Wrapper(old(reqsAll[i].request).(reqType := reqType), AwaitingGet,
          old(reqsAll[i].ioctlNegatedErrno))]
        && reqsFree == old(reqsFree[1..]) && reqsAwaitingGet == old(reqsAwaitingGet) + [i]
        && handleIndex == ToU16(i + 1) && handleSeqnum == old(reqsAll[i].request.handleSeqnum)
      ensures flags == old(flags) && completedQueueRequests == old(completedQueueRequests)
    {
      if flags.terminated {
        return -(EIO as int), 0, 0;
      }
      if !QueueRequestSupported(reqType) {
        return -(EOPNOTSUPP as int), 0, 0;
      }
      var i := reqsFree[0];
      assert i in reqsFree;
      reqsAll[i] := reqsAll[i].(request := reqsAll[i].request.(reqType := reqType));
      ToAwaitingGet(i);
      negatedErrno, handleIndex, handleSeqnum := 0, reqsAll[i].request.handleIndex, reqsAll[i].request.handleSeqnum;
    }

    /** `kbdus_inverter_submit_device_available_request`. */
    method SubmitDeviceAvailable()
      modifies this
      ensures flags == old(flags).(sendDeviceAvailable := true)
      ensures reqsFree == old(reqsFree) && reqsAwaitingGet == old(reqsAwaitingGet)
      ensures completedQueueRequests == old(completedQueueRequests)
    {
      flags := flags.(sendDeviceAvailable := true);
    }

    /**
     * `kbdus_inverter_handle_ioctl_submit_`: fails with ENODEV once terminated, and otherwise
     * puts the ioctl in the slot at the head of the free list, which joins the tail of the
     * awaiting-get list.
     */
    method SubmitIoctl(command: u32) returns (r: Result<nat, nat>)
      requires Valid() && reqsFree != []
      modifies this, reqsAll
      ensures Valid() && SeqnumsAdvanced(old(reqsAll[..]), reqsAll[..])
      ensures old(flags.terminated) ==> r == Err(ENODEV) && unchanged(this, reqsAll)
      ensures !old(flags.terminated) ==>
        var i := old(reqsFree[0]);
        i < reqsAll.Length && r == Ok(i)
        && reqsAll[..] == old(reqsAll[..])[i := Wrapper(old(reqsAll[i].request).(reqType := REQ_IOCTL,
          ioctlCommand := command), AwaitingGet, old(reqsAll[i].ioctlNegatedErrno))]
        && reqsFree == old(reqsFree[1..]) && reqsAwaitingGet == old(reqsAwaitingGet) + [i]
      ensures flags == old(flags) && completedQueueRequests == old(completedQueueRequests)
    {
      if flags.terminated {
        return Err(ENODEV);
      }
      var i := reqsFree[0];
      assert i in reqsFree;
      reqsAll[i] := reqsAll[i].(request := reqsAll[i].request.(reqType := REQ_IOCTL, ioctlCommand := command));
      ToAwaitingGet(i);
      r := Ok(i);
    }

    /**
     * The end of `kbdus_inverter_handle_ioctl_wait_`, once the submitter wakes to find its
     * ioctl completed or is interrupted (an interrupted submitter first waits out the BEING_*
     * states, so the slot is then AWAITING_* or IOCTL_COMPLETED). An interrupted wait completes
     * an unfinished ioctl with 0 and returns -ERESTARTSYS; a completed one returns the stored
     * result. Either way the slot is freed.
     */
    method EndIoctlWait(i: nat, interrupted: bool) returns (ret: int)
      requires Valid() && i < reqsAll.Length && reqsAll[i].request.reqType == REQ_IOCTL
      requires reqsAll[i].state in {AwaitingGet, AwaitingCompletion, IoctlCompleted}
      requires interrupted || reqsAll[i].state == IoctlCompleted
      modifies this, reqsAll
      ensures Valid() && SeqnumsAdvanced(old(reqsAll[..]), reqsAll[..])
      ensures ret == if interrupted then -(ERESTARTSYS as int) else old(reqsAll[i].ioctlNegatedErrno)
      ensures reqsAll[..] == old(reqsAll[..])[i := Freed(
        if old(reqsAll[i].state) == IoctlCompleted then old(reqsAll[i]) else IoctlCompletedWith(old(reqsAll[i]), 0))]
      ensures reqsAll[i].request.handleSeqnum == old(reqsAll[i].request.handleSeqnum)
        + (if old(reqsAll[i].state) == IoctlCompleted then 0 else 1)
      ensures reqsFree == [i] + old(reqsFree) && reqsAwaitingGet == Remove(old(reqsAwaitingGet), i)
      ensures flags == old(flags) && completedQueueRequests == old(completedQueueRequests)
    {
      if interrupted {
        ret := -(ERESTARTSYS as int);
        if reqsAll[i].state != IoctlCompleted {
          ToIoctlCompleted(i, 0);
        }
      } else {
        ret := reqsAll[i].ioctlNegatedErrno;
      }
      ToFree(i, 0);
    }

    /**
     * `kbdus_inverter_timeout_queue_request`: a timeout for a stale handle is ignored, a
     * request being gotten or completed gets its timer restarted, and an awaiting one is
     * completed with -ETIMEDOUT.
     */
    method TimeoutQueueRequest(handleIndex: u16, handleSeqnum: nat) returns (action: TimerAction)
      requires Valid()
      requires HandleToSlot(handleIndex).Some? && HandleToSlot(handleIndex).value < reqsAll.Length
      requires IsQueueType(reqsAll[HandleToSlot(handleIndex).value].request.reqType)
      requires reqsAll[HandleToSlot(handleIndex).value].request.handleSeqnum == handleSeqnum ==>
        reqsAll[HandleToSlot(handleIndex).value].state != Free
      modifies this, reqsAll
      ensures Valid() && SeqnumsAdvanced(old(reqsAll[..]), reqsAll[..])
      ensures var i := HandleToSlot(handleIndex).value;
        if old(reqsAll[i].request.handleSeqnum) != handleSeqnum then
          action == EhDone && unchanged(this, reqsAll)
        else if !Awaiting(old(reqsAll[i])) then
          action == EhResetTimer && unchanged(this, reqsAll)
        else
          action == EhDone
          && reqsAll[..] == old(reqsAll[..])[i := Freed(old(reqsAll[i]))]
          && reqsFree == [i] + old(reqsFree) && reqsAwaitingGet == Remove(old(reqsAwaitingGet), i)
          && completedQueueRequests == old(completedQueueRequests) + [Completion(i, -(ETIMEDOUT as int))]
      ensures flags == old(flags)
    {
      var i := HandleToSlot(handleIndex).value;
      if reqsAll[i].request.handleSeqnum != handleSeqnum {
        return EhDone;
      }
      match reqsAll[i].state {
        case BeingGotten =>
          action := EhResetTimer;
        case BeingCompleted =>
          action := EhResetTimer;
        case AwaitingGet =>
          ToFree(i, -(ETIMEDOUT as int));
          action := EhDone;
        case AwaitingCompletion =>
          ToFree(i, -(ETIMEDOUT as int));
          action := EhDone;
        case Free =>
          assert false;
        case IoctlCompleted =>
          assert false;
      }
    }

    /**
     * `kbdus_inverter_terminate`: the first call sets TERMINATED and cancels every AWAITING_*
     * slot in index order; slots being gotten or completed are left to their handlers. Later
     * calls change nothing.
     */
    method Terminate()
      requires Valid()
      modifies this, reqsAll
      ensures Valid() && flags.terminated && SeqnumsAdvanced(old(reqsAll[..]), reqsAll[..])
      ensures old(flags.terminated) ==> unchanged(this, reqsAll)
      ensures !old(flags.terminated) ==>
        flags == old(flags).(terminated := true)
        && (forall j :: 0 <= j < reqsAll.Length ==> reqsAll[j] == Terminated(old(reqsAll[j])))
        && reqsFree == FreedByTermination(old(reqsAll[..]), reqsAll.Length) + old(reqsFree)
        && reqsAwaitingGet == []
        && completedQueueRequests == old(completedQueueRequests)
          + TerminationCompletions(old(reqsAll[..]), reqsAll.Length)
    {
      if flags.terminated {
        return;
      }
      flags := flags.(terminated := true);
      CancelAwaitingSlots();
      TerminationDone(old(reqsAll[..]), old(reqsFree), old(completedQueueRequests),
        reqsAll[..], reqsFree, reqsAwaitingGet, completedQueueRequests);
    }

    /** The loop of `kbdus_inverter_terminate`: cancels every AWAITING_* slot in index order. */
    method CancelAwaitingSlots()
      requires Wellformed(reqsAll[..], reqsFree, reqsAwaitingGet)
      modifies this, reqsAll
      ensures Wellformed(reqsAll[..], reqsFree, reqsAwaitingGet) && flags == old(flags)
      ensures TerminationProgress(old(reqsAll[..]), old(reqsFree), old(completedQueueRequests), reqsAll.Length,
        reqsAll[..], reqsFree, completedQueueRequests)
    {
      ghost var slots := reqsAll[..];
      var i := 0;
      while i < reqsAll.Length
        invariant i <= reqsAll.Length && flags == old(flags)
        invariant Wellformed(reqsAll[..], reqsFree, reqsAwaitingGet)
        invariant TerminationProgress(slots, old(reqsFree), old(completedQueueRequests), i,
          reqsAll[..], reqsFree, completedQueueRequests)
      {
        CancelIfAwaiting(i, slots, old(reqsFree), old(completedQueueRequests));
        i := i + 1;
      }
    }

    /** One turn of the loop of `kbdus_inverter_terminate`. */
    method CancelIfAwaiting(i: nat, ghost slots0: seq<Wrapper>, ghost free0: seq<nat>, ghost completed0: seq<Completion>)
      requires Wellformed(reqsAll[..], reqsFree, reqsAwaitingGet) && i < reqsAll.Length
      requires TerminationProgress(slots0, free0, completed0, i, reqsAll[..], reqsFree, completedQueueRequests)
      modifies this, reqsAll
      ensures Wellformed(reqsAll[..], reqsFree, reqsAwaitingGet) && flags == old(flags)
      ensures TerminationProgress(slots0, free0, completed0, i + 1, reqsAll[..], reqsFree, completedQueueRequests)
    {
      ghost var before, freeBefore, completedBefore := reqsAll[..], reqsFree, completedQueueRequests;
      if Awaiting(reqsAll[i]) {
        CancelDueToTermination(i);
      }
      TerminationStep(slots0, free0, completed0, i, before, freeBefore, completedBefore,
        reqsAll[..], reqsFree, completedQueueRequests);
    }

    /**
     * `kbdus_inverter_deactivate`: the first call sets DEACTIVATED, and DEACTIVATED_NOT_FLUSHED
     * too when a flush is asked for and the device supports flushing; later calls change
     * nothing.
     */
    method Deactivate(flush: bool)
      requires Valid() && !flags.terminated
      modifies this
      ensures Valid()
      ensures flags == if old(flags.deactivated) then old(flags)
        else old(flags).(deactivated := true,
          deactivatedNotFlushed := old(flags.deactivatedNotFlushed) || (flush && supportsFlush))
      ensures reqsFree == old(reqsFree) && reqsAwaitingGet == old(reqsAwaitingGet)
      ensures completedQueueRequests == old(completedQueueRequests)
    {
      if !flags.deactivated {
        flags := flags.(deactivated := true);
        if flush && supportsFlush {
          flags := flags.(deactivatedNotFlushed := true);
        }
      }
    }

    /**
     * `kbdus_inverter_activate`: if deactivated, clears DEACTIVATED and DEACTIVATED_NOT_FLUSHED
     * and puts every AWAITING_COMPLETION slot back on the head of the awaiting-get list, in
     * index order, so that a new driver gets those requests again.
     */
    method Activate()
      requires Valid() && !flags.terminated
      requires flags.deactivated ==>
        forall j :: 0 <= j < reqsAll.Length ==> reqsAll[j].state in {Free, AwaitingGet, AwaitingCompletion, IoctlCompleted}
      modifies this, reqsAll
      ensures Valid() && SeqnumsAdvanced(old(reqsAll[..]), reqsAll[..])
      ensures !old(flags.deactivated) ==> unchanged(this, reqsAll)
      ensures old(flags.deactivated) ==>
        flags == old(flags).(deactivated := false, deactivatedNotFlushed := false)
        && (forall j :: 0 <= j < reqsAll.Length ==> reqsAll[j] == Requeued(old(reqsAll[j])))
        && reqsAwaitingGet == RequeuedByActivation(old(reqsAll[..]), reqsAll.Length) + old(reqsAwaitingGet)
        && reqsFree == old(reqsFree)
        && completedQueueRequests == old(completedQueueRequests)
    {
      if !flags.deactivated {
        return;
      }
      flags := flags.(deactivated := false, deactivatedNotFlushed := false);
      ghost var slots := reqsAll[..];
      var i := 0;
      while i < reqsAll.Length
        invariant i <= reqsAll.Length
        invariant flags == old(flags).(deactivated := false, deactivatedNotFlushed := false)
        invariant Wellformed(reqsAll[..], reqsFree, reqsAwaitingGet)
        invariant ActivationProgress(slots, old(reqsAwaitingGet), i, reqsAll[..], reqsAwaitingGet)
        invariant reqsFree == old(reqsFree) && completedQueueRequests == old(completedQueueRequests)
      {
        RequeueIfAwaitingCompletion(i, slots, old(reqsAwaitingGet));
        i := i + 1;
      }
    }

    /** One turn of the loop of `kbdus_inverter_activate`. */
    method RequeueIfAwaitingCompletion(i: nat, ghost slots0: seq<Wrapper>, ghost awaiting0: seq<nat>)
      requires Wellformed(reqsAll[..], reqsFree, reqsAwaitingGet) && i < reqsAll.Length
      requires ActivationProgress(slots0, awaiting0, i, reqsAll[..], reqsAwaitingGet)
      modifies this, reqsAll
      ensures Wellformed(reqsAll[..], reqsFree, reqsAwaitingGet)
      ensures ActivationProgress(slots0, awaiting0, i + 1, reqsAll[..], reqsAwaitingGet)
      ensures flags == old(flags) && reqsFree == old(reqsFree)
      ensures completedQueueRequests == old(completedQueueRequests)
    {
      ghost var before, awaitingBefore := reqsAll[..], reqsAwaitingGet;
      if reqsAll[i].state == AwaitingCompletion {
        assert SlotOk(i, before[i]);
        ToAwaitingGet(i);
      }
      ActivationStep(slots0, awaiting0, i, before, awaitingBefore, reqsAll[..], reqsAwaitingGet);
    }

    /* ---------------------------------------------------------------------------------------- */
    /* interface for request processors */

    /**
     * One pass of `kbdus_inverter_begin_request_get` after its wait returns. An interrupted
     * wait fails with ERESTARTSYS. Otherwise, in order of priority: a pending flush hands out
     * a flush-and-terminate request (and is no longer pending); a deactivated or terminated
     * inverter hands out a terminate request; a pending "device available" notification is
     * handed out (and is no longer pending); the slot at the head of the awaiting-get list
     * becomes BEING_GOTTEN and its request is handed out; and if there is none, the caller
     * waits again.
     */
    method BeginRequestGet(interrupted: bool) returns (r: GetAttempt)
      requires Valid()
      modifies this, reqsAll
      ensures Valid() && SeqnumsAdvanced(old(reqsAll[..]), reqsAll[..])
      ensures interrupted ==> r == Failed(ERESTARTSYS) && unchanged(this, reqsAll)
      ensures !interrupted && old(flags.deactivatedNotFlushed) ==>
        r == Got(FLUSH_AND_TERMINATE_REQUEST) && flags == old(flags).(deactivatedNotFlushed := false)
        && unchanged(reqsAll) && reqsAwaitingGet == old(reqsAwaitingGet)
      ensures !interrupted && !old(flags.deactivatedNotFlushed) && (old(flags.deactivated) || old(flags.terminated)) ==>
        r == Got(TERMINATE_REQUEST) && unchanged(this, reqsAll)
      ensures (!interrupted && !old(flags.deactivatedNotFlushed) && !old(flags.deactivated) && !old(flags.terminated)
        && old(flags.sendDeviceAvailable)) ==>
        r == Got(DEVICE_AVAILABLE_REQUEST) && flags == old(flags).(sendDeviceAvailable := false)
        && unchanged(reqsAll) && reqsAwaitingGet == old(reqsAwaitingGet)
      ensures !interrupted && old(flags) == Flags(false, false, false, false) && old(reqsAwaitingGet) == [] ==>
        r == WaitAgain && unchanged(this, reqsAll)
      ensures !interrupted && old(flags) == Flags(false, false, false, false) && old(reqsAwaitingGet) != [] ==>
        var i := old(reqsAwaitingGet[0]);
        i < reqsAll.Length && r == Got(old(reqsAll[i].request)) && flags == old(flags)
        && reqsAll[..] == old(reqsAll[..])[i := old(reqsAll[i]).(state := BeingGotten)]
        && reqsAwaitingGet == old(reqsAwaitingGet[1..])
        && !IsNotification(r.request.reqType) && r.request.handleIndex == ToU16(i + 1)
      ensures reqsFree == old(reqsFree) && completedQueueRequests == old(completedQueueRequests)
    {
      if interrupted {
        return Failed(ERESTARTSYS);
      }
      if flags.deactivatedNotFlushed {
        flags := flags.(deactivatedNotFlushed := false);
        return Got(FLUSH_AND_TERMINATE_REQUEST);
      }
      if flags.deactivated || flags.terminated {
        return Got(TERMINATE_REQUEST);
      }
      if flags.sendDeviceAvailable {
        flags := flags.(sendDeviceAvailable := false);
        return Got(DEVICE_AVAILABLE_REQUEST);
      }
      if reqsAwaitingGet == [] {
        return WaitAgain;
      }
      var i := reqsAwaitingGet[0];
      assert i in reqsAwaitingGet;
      ToBeingGotten(i);
      r := Got(reqsAll[i].request);
    }

    /**
     * `kbdus_inverter_commit_request_get`: nothing for a notification; otherwise the slot
     * awaits completion, or is cancelled if the inverter was terminated meanwhile.
     */
    method CommitRequestGet(request: Request)
      requires Valid()
      requires !IsNotification(request.reqType) ==> Holds(request, BeingGotten)
      modifies this, reqsAll
      ensures Valid() && SeqnumsAdvanced(old(reqsAll[..]), reqsAll[..])
      ensures IsNotification(request.reqType) ==> unchanged(this, reqsAll)
      ensures !IsNotification(request.reqType) && !old(flags.terminated) ==>
        var i := HandleToSlot(request.handleIndex).value;
        reqsAll[..] == old(reqsAll[..])[i := old(reqsAll[i]).(state := AwaitingCompletion)]
        && reqsFree == old(reqsFree) && completedQueueRequests == old(completedQueueRequests)
      ensures !IsNotification(request.reqType) && old(flags.terminated) ==>
        var i := HandleToSlot(request.handleIndex).value;
        reqsAll[..] == old(reqsAll[..])[i := Cancelled(old(reqsAll[i]))]
        && completedQueueRequests == old(completedQueueRequests)
          + (if request.reqType != REQ_IOCTL then [Completion(i, -(EIO as int))] else [])
      ensures flags == old(flags) && reqsAwaitingGet == old(reqsAwaitingGet)
    {
      if IsNotification(request.reqType) {
        return;
      }
      var i := HandleToSlot(request.handleIndex).value;
      if flags.terminated {
        CancelDueToTermination(i);
      } else {
        SetUnlistedState(i, AwaitingCompletion);
      }
    }

    /**
     * `kbdus_inverter_abort_request_get`: a "device available" notification is submitted
     * again, a flush-and-terminate one leaves the flush pending again, a terminate one needs
     * nothing; a slot goes back to the head of the awaiting-get list, or is cancelled if the
     * inverter was terminated meanwhile.
     */
    method AbortRequestGet(request: Request)
      requires Valid()
      requires !IsNotification(request.reqType) ==> Holds(request, BeingGotten)
      modifies this, reqsAll
      ensures Valid() && SeqnumsAdvanced(old(reqsAll[..]), reqsAll[..])
      ensures request.reqType == REQ_DEVICE_AVAILABLE ==>
        flags == old(flags).(sendDeviceAvailable := true) && unchanged(reqsAll) && reqsAwaitingGet == old(reqsAwaitingGet)
      ensures request.reqType == REQ_TERMINATE ==> unchanged(this, reqsAll)
      ensures request.reqType == REQ_FLUSH_AND_TERMINATE ==>
        flags == old(flags).(deactivatedNotFlushed := true) && unchanged(reqsAll)
        && reqsAwaitingGet == old(reqsAwaitingGet)
      ensures !IsNotification(request.reqType) && !old(flags.terminated) ==>
        var i := HandleToSlot(request.handleIndex).value;
        reqsAll[..] == old(reqsAll[..])[i := old(reqsAll[i]).(state := AwaitingGet)]
        && reqsAwaitingGet == [i] + old(reqsAwaitingGet)
        && reqsFree == old(reqsFree) && completedQueueRequests == old(completedQueueRequests)
      ensures !IsNotification(request.reqType) && old(flags.terminated) ==>
        var i := HandleToSlot(request.handleIndex).value;
        reqsAll[..] == old(reqsAll[..])[i := Cancelled(old(reqsAll[i]))]
        && reqsAwaitingGet == old(reqsAwaitingGet)
        && completedQueueRequests == old(completedQueueRequests)
          + (if request.reqType != REQ_IOCTL then [Completion(i, -(EIO as int))] else [])
      ensures !IsNotification(request.reqType) ==> flags == old(flags)
    {
      if request.reqType == REQ_DEVICE_AVAILABLE {
        SubmitDeviceAvailable();
      } else if request.reqType == REQ_TERMINATE {
      } else if request.reqType == REQ_FLUSH_AND_TERMINATE {
        flags := flags.(deactivatedNotFlushed := true);
      } else {
        var i := HandleToSlot(request.handleIndex).value;
        if flags.terminated {
          CancelDueToTermination(i);
        } else {
          ToAwaitingGet(i);
        }
      }
    }

    /**
     * `kbdus_inverter_begin_request_completion`: EINVAL for a handle index that names no slot,
     * no request (NULL) for a stale seqnum, EINVAL for a slot that is not awaiting completion,
     * and otherwise the slot's request, the slot now being completed.
     */
    method BeginRequestCompletion(handleIndex: u16, handleSeqnum: nat) returns (r: Result<Option<Request>, nat>)
      requires Valid()
      modifies reqsAll
      ensures Valid() && SeqnumsAdvanced(old(reqsAll[..]), reqsAll[..])
      ensures HandleToSlot(handleIndex).None? ==> r == Err(EINVAL) && unchanged(reqsAll)
      ensures HandleToSlot(handleIndex).Some? ==>
        var i := HandleToSlot(handleIndex).value;
        if old(reqsAll[i].request.handleSeqnum) != handleSeqnum then
          r == Ok(None) && unchanged(reqsAll)
        else if old(reqsAll[i].state) != AwaitingCompletion then
          r == Err(EINVAL) && unchanged(reqsAll)
        else
          r == Ok(Some(old(reqsAll[i].request)))
          && reqsAll[..] == old(reqsAll[..])[i := old(reqsAll[i]).(state := BeingCompleted)]
    {
      var slot := HandleToSlot(handleIndex);
      if slot.None? {
        return Err(EINVAL);
      }
      var i := slot.value;
      if reqsAll[i].request.handleSeqnum != handleSeqnum {
        return Ok(None);
      }
      if reqsAll[i].state != AwaitingCompletion {
        return Err(EINVAL);
      }
      SetUnlistedState(i, BeingCompleted);
      r := Ok(Some(reqsAll[i].request));
    }

    /**
     * `kbdus_inverter_commit_request_completion`: an ioctl becomes IOCTL_COMPLETED with its
     * sanitised result; a queue request is completed with its sanitised errno and its slot
     * freed.
     */
    method CommitRequestCompletion(request: Request, negatedErrno: int)
      requires Valid() && Holds(request, BeingCompleted)
      modifies this, reqsAll
      ensures Valid() && SeqnumsAdvanced(old(reqsAll[..]), reqsAll[..])
      ensures var i := HandleToSlot(request.handleIndex).value;
        if request.reqType == REQ_IOCTL then
          reqsAll[..] == old(reqsAll[..])[i := IoctlCompletedWith(old(reqsAll[i]),
            SanitizedIoctlErrno(old(flags.terminated), negatedErrno))]
          && reqsFree == old(reqsFree) && completedQueueRequests == old(completedQueueRequests)
        else
          reqsAll[..] == old(reqsAll[..])[i := Freed(old(reqsAll[i]))]
          && reqsFree == [i] + old(reqsFree)
          && completedQueueRequests == old(completedQueueRequests)
            + [Completion(i, SanitizedQueueErrno(old(flags.terminated), negatedErrno))]
      ensures flags == old(flags) && reqsAwaitingGet == old(reqsAwaitingGet)
    {
      var i := HandleToSlot(request.handleIndex).value;
      if request.reqType == REQ_IOCTL {
        ToIoctlCompleted(i, SanitizedIoctlErrno(flags.terminated, negatedErrno));
      } else {
        ToFree(i, SanitizedQueueErrno(flags.terminated, negatedErrno));
      }
    }

    /**
     * `kbdus_inverter_abort_request_completion`: the slot awaits completion again, or is
     * cancelled if the inverter was terminated meanwhile.
     */
    method AbortRequestCompletion(request: Request)
      requires Valid() && Holds(request, BeingCompleted)
      modifies this, reqsAll
      ensures Valid() && SeqnumsAdvanced(old(reqsAll[..]), reqsAll[..])
      ensures var i := HandleToSlot(request.handleIndex).value;
        if old(flags.terminated) then
          reqsAll[..] == old(reqsAll[..])[i := Cancelled(old(reqsAll[i]))]
          && completedQueueRequests == old(completedQueueRequests)
            + (if request.reqType != REQ_IOCTL then [Completion(i, -(EIO as int))] else [])
        else
          reqsAll[..] == old(reqsAll[..])[i := old(reqsAll[i]).(state := AwaitingCompletion)]
          && reqsFree == old(reqsFree) && completedQueueRequests == old(completedQueueRequests)
      ensures flags == old(flags) && reqsAwaitingGet == old(reqsAwaitingGet)
    {
      var i := HandleToSlot(request.handleIndex).value;
      if flags.terminated {
        CancelDueToTermination(i);
      } else {
        SetUnlistedState(i, AwaitingCompletion);
      }
    }
  }
}
