/**
 * kbdus's protocol table (kbdus/src/protocol.c): the three protocols a session may speak, the
 * lookup by name, the dispatchers that answer for a protocol that lacks a handler, and the
 * module-load initialisation that unwinds on failure.
 *
 * A protocol is described by which of its optional callbacks it has; what a present callback
 * returns is a parameter of the dispatcher.
 */
module KbdusProtocol {
  import opened CTypes
  import opened Wrappers

  /** `struct kbdus_protocol`: its name and which optional callbacks it provides. */
  datatype Protocol = Protocol(
    name: string,
    hasInit: bool,
    hasExit: bool,
    hasValidateConfig: bool,
    hasCreateInstance: bool,
    hasDestroyInstance: bool,
    hasReadIter: bool,
    hasWriteIter: bool,
    hasMmap: bool,
    hasIoctl: bool)

  /** `kbdusioctl_protocol`: only an ioctl handler. */
  const IOCTL_PROTOCOL: Protocol :=
    Protocol("ioctl", false, false, false, false, false, false, false, false, true)

  /** `kbdusmmap_protocol`: a validator, instances, an mmap handler and an ioctl handler. */
  const MMAP_PROTOCOL: Protocol :=
    Protocol("mmap", false, false, true, true, true, false, false, true, true)

  /** `kbdusrw_protocol`: only read and write handlers. */
  const RW_PROTOCOL: Protocol :=
    Protocol("rw", false, false, false, false, false, true, true, false, false)

  /** `kbdus_protocol_all_`, in table order. */
  const ALL_PROTOCOLS: seq<Protocol> := [IOCTL_PROTOCOL, MMAP_PROTOCOL, RW_PROTOCOL]

  /** What `kbdus_protocol_init` asserts of every protocol. */
  predicate WellFormed(p: Protocol)
  {
    (p.hasValidateConfig ==> p.hasCreateInstance) && p.hasCreateInstance == p.hasDestroyInstance
  }

  /** The first position at or after `from` whose protocol has the given name. */
  function LookupFrom(ps: seq<Protocol>, name: string, from: nat): (r: Option<nat>)
    requires from <= |ps|
    ensures r.Some? ==> (from <= r.value < |ps| && ps[r.value].name == name
      && forall j :: from <= j < r.value ==> ps[j].name != name)
    ensures r.None? ==> forall j :: from <= j < |ps| ==> ps[j].name != name
    decreases |ps| - from
  {
    if from == |ps| then None
    else if ps[from].name == name then Some(from)
    else LookupFrom(ps, name, from + 1)
  }

  /** `kbdus_protocol_lookup`: the first protocol of the table with that name, else NULL. */
  function Lookup(name: string): (r: Option<Protocol>)
    ensures r.Some? <==> name in {"ioctl", "mmap", "rw"}
    ensures r.Some? ==> r.value in ALL_PROTOCOLS && r.value.name == name
  {
    assert ALL_PROTOCOLS[0].name == "ioctl" && ALL_PROTOCOLS[1].name == "mmap" && ALL_PROTOCOLS[2].name == "rw";
    var i := LookupFrom(ALL_PROTOCOLS, name, 0);
    if i.Some? then Some(ALL_PROTOCOLS[i.value]) else None
  }

  /** Each protocol of the table is found under its own name, and every one is well formed. */
  lemma LookupFindsEach(i: nat)
    requires i < |ALL_PROTOCOLS|
    ensures Lookup(ALL_PROTOCOLS[i].name) == Some(ALL_PROTOCOLS[i])
    ensures WellFormed(ALL_PROTOCOLS[i])
  {
  }

  /** `kbdus_protocol_validate_config`: the protocol's verdict (`verdict`), or true without a validator. */
  function ValidateConfig(p: Protocol, verdict: bool): (ok: bool)
    ensures !p.hasValidateConfig ==> ok
    ensures p.hasValidateConfig ==> ok == verdict
  {
    if p.hasValidateConfig then verdict else true
  }

  /** The outcome of `kbdus_protocol_create_instance`. */
  datatype InstanceOutcome = NoInstance | Instance(id: nat) | InstanceError(errno: nat)

  /**
   * `kbdus_protocol_create_instance`: what the protocol's callback returns (`created`), or
   * NULL for a protocol that keeps no per-session state.
   */
  function CreateInstance(p: Protocol, created: Result<nat, nat>): (r: InstanceOutcome)
    ensures !p.hasCreateInstance ==> r == NoInstance
    ensures p.hasCreateInstance && created.Ok? ==> r == Instance(created.value)
    ensures p.hasCreateInstance && created.Err? ==> r == InstanceError(created.error)
  {
    if !p.hasCreateInstance then NoInstance
    else match created
      case Ok(id) => Instance(id)
      case Err(e) => InstanceError(e)
  }

  /** The file operations of the control device a protocol may handle. */
  datatype ControlOperation = ReadIter | WriteIter | Mmap | Ioctl

  predicate Handles(p: Protocol, op: ControlOperation)
  {
    match op
    case ReadIter => p.hasReadIter
    case WriteIter => p.hasWriteIter
    case Mmap => p.hasMmap
    case Ioctl => p.hasIoctl
  }

  /**
   * The `kbdus_protocol_handle_control_*` dispatchers: the handler's result (`delegated`) when
   * the protocol has one; otherwise -ENOTTY for an ioctl and -EINVAL for the others.
   */
  function HandleControl(p: Protocol, op: ControlOperation, delegated: int): (ret: int)
    ensures Handles(p, op) ==> ret == delegated
    ensures !Handles(p, op) && op == Ioctl ==> ret == -(ENOTTY as int)
    ensures !Handles(p, op) && op != Ioctl ==> ret == -(EINVAL as int)
  {
    if Handles(p, op) then delegated
    else if op == Ioctl then -(ENOTTY as int)
    else -(EINVAL as int)
  }

  /**
   * Which operations each protocol of the table answers itself: a session speaking "ioctl"
   * gets -EINVAL from read, write and mmap, one speaking "rw" gets -EINVAL from mmap and
   * -ENOTTY from every ioctl, and one speaking "mmap" gets -EINVAL from read and write.
   */
  lemma TableAnswers(delegated: int)
    ensures HandleControl(IOCTL_PROTOCOL, ReadIter, delegated) == -(EINVAL as int)
    ensures HandleControl(IOCTL_PROTOCOL, Mmap, delegated) == -(EINVAL as int)
    ensures HandleControl(RW_PROTOCOL, Ioctl, delegated) == -(ENOTTY as int)
    ensures HandleControl(RW_PROTOCOL, Mmap, delegated) == -(EINVAL as int)
    ensures HandleControl(MMAP_PROTOCOL, WriteIter, delegated) == -(EINVAL as int)
    ensures forall op :: Handles(MMAP_PROTOCOL, op) <==> op == Mmap || op == Ioctl
  {
  }

  /* ------------------------------------------------------------------------------------ */
  /* init / exit */

  /** A callback run during initialisation or exit: `init` or `exit` of protocol `index`. */
  datatype Call = InitOf(index: nat) | ExitOf(index: nat)

  /** The `init` calls of protocols 0..n-1, in table order. */
  function InitCalls(ps: seq<Protocol>, n: nat): (r: seq<Call>)
    requires n <= |ps|
    ensures forall k :: 0 <= k < |r| ==> r[k].InitOf? && r[k].index < n && ps[r[k].index].hasInit
  {
    if n == 0 then []
    else InitCalls(ps, n - 1) + (if ps[n - 1].hasInit then [InitOf(n - 1)] else [])
  }

  /** The `exit` calls of protocols n-1 down to 0. */
  function ExitCalls(ps: seq<Protocol>, n: nat): (r: seq<Call>)
    requires n <= |ps|
    ensures forall k :: 0 <= k < |r| ==> r[k].ExitOf? && r[k].index < n && ps[r[k].index].hasExit
  {
    if n == 0 then []
    else (if ps[n - 1].hasExit then [ExitOf(n - 1)] else []) + ExitCalls(ps, n - 1)
  }

  /** The exit calls go in strictly decreasing table order: the reverse of initialisation. */
  lemma {:induction false} ExitCallsDescend(ps: seq<Protocol>, n: nat)
    requires n <= |ps|
    ensures forall a, b :: 0 <= a < b < |ExitCalls(ps, n)| ==> ExitCalls(ps, n)[a].index > ExitCalls(ps, n)[b].index
  {
    if n > 0 {
      ExitCallsDescend(ps, n - 1);
    }
  }

  /** Whether protocol `i`'s init, if it has one, reports success (`results[i]` is what it returns). */
  predicate InitSucceeds(ps: seq<Protocol>, results: seq<int>, i: nat)
    requires |results| == |ps| && i < |ps|
  {
    !ps[i].hasInit || results[i] == 0
  }

  /**
   * `kbdus_protocol_init`: runs each protocol's init in table order. When protocol i's init
   * fails, the exits of protocols i-1 down to 0 run and its error is returned; otherwise 0.
   */
  method Init(ps: seq<Protocol>, results: seq<int>) returns (ret: int, calls: seq<Call>)
    requires |results| == |ps|
    ensures (forall i :: 0 <= i < |ps| ==> InitSucceeds(ps, results, i)) ==>
      ret == 0 && calls == InitCalls(ps, |ps|)
    ensures forall f :: (0 <= f < |ps| && !InitSucceeds(ps, results, f)
      && (forall i :: 0 <= i < f ==> InitSucceeds(ps, results, i))) ==>
        ret == results[f] && ret != 0 && calls == InitCalls(ps, f + 1) + ExitCalls(ps, f)
  {
    calls := [];
    var i: nat := 0;
    while i < |ps|
      invariant i <= |ps|
      invariant forall j :: 0 <= j < i ==> InitSucceeds(ps, results, j)
      invariant calls == InitCalls(ps, i)
    {
      if ps[i].hasInit {
        calls := calls + [InitOf(i)];
        ret := results[i];
        if ret != 0 {
          var exits := ExitFirst(ps, i);
          calls := calls + exits;
          assert !InitSucceeds(ps, results, i);
          return;
        }
      }
      i := i + 1;
    }
    ret := 0;
  }

  /** The exit calls of protocols i-1 down to j. */
  function ExitsBetween(ps: seq<Protocol>, j: nat, i: nat): seq<Call>
    requires j <= i <= |ps|
    decreases i - j
  {
    if j == i then [] else (if ps[i - 1].hasExit then [ExitOf(i - 1)] else []) + ExitsBetween(ps, j, i - 1)
  }

  lemma {:induction false} ExitsBetweenStep(ps: seq<Protocol>, j: nat, i: nat)
    requires j < i <= |ps|
    ensures ExitsBetween(ps, j, i) == ExitsBetween(ps, j + 1, i) + (if ps[j].hasExit then [ExitOf(j)] else [])
    decreases i - j
  {
    if j + 1 < i {
      ExitsBetweenStep(ps, j, i - 1);
    }
  }

  lemma {:induction false} ExitsBetweenAll(ps: seq<Protocol>, i: nat)
    requires i <= |ps|
    ensures ExitsBetween(ps, 0, i) == ExitCalls(ps, i)
  {
    if i > 0 {
      ExitsBetweenAll(ps, i - 1);
    }
  }

  /** The countdown loop shared by init's unwinding and exit: the exits of protocols n-1 down to 0. */
  method ExitFirst(ps: seq<Protocol>, n: nat) returns (calls: seq<Call>)
    requires n <= |ps|
    ensures calls == ExitCalls(ps, n)
  {
    calls := [];
    var i: nat := n;
    while i > 0
      invariant i <= n
      invariant calls == ExitsBetween(ps, i, n)
    {
      if ps[i - 1].hasExit {
        calls := calls + [ExitOf(i - 1)];
      }
      ExitsBetweenStep(ps, i - 1, n);
      i := i - 1;
    }
    ExitsBetweenAll(ps, n);
  }

  /** `kbdus_protocol_exit`: the exits of every protocol, last to first. */
  method Exit(ps: seq<Protocol>) returns (calls: seq<Call>)
    ensures calls == ExitCalls(ps, |ps|)
    ensures forall a, b :: 0 <= a < b < |calls| ==> calls[a].index > calls[b].index
  {
    calls := ExitFirst(ps, |ps|);
    ExitCallsDescend(ps, |ps|);
  }

  /** Without init and exit callbacks among the first n protocols, neither list has a call. */
  lemma {:induction false} NoHooksNoCalls(ps: seq<Protocol>, n: nat)
    requires n <= |ps| && forall i :: 0 <= i < n ==> !ps[i].hasInit && !ps[i].hasExit
    ensures InitCalls(ps, n) == [] && ExitCalls(ps, n) == []
  {
    if n > 0 {
      NoHooksNoCalls(ps, n - 1);
    }
  }

  /** None of the table's protocols has init or exit callbacks, so loading them cannot fail. */
  lemma TableInitIsTrivial(results: seq<int>)
    requires |results| == |ALL_PROTOCOLS|
    ensures forall i :: 0 <= i < |ALL_PROTOCOLS| ==> InitSucceeds(ALL_PROTOCOLS, results, i)
    ensures InitCalls(ALL_PROTOCOLS, |ALL_PROTOCOLS|) == [] && ExitCalls(ALL_PROTOCOLS, |ALL_PROTOCOLS|) == []
  {
    NoHooksNoCalls(ALL_PROTOCOLS, |ALL_PROTOCOLS|);
  }
}
