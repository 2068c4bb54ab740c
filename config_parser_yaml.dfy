/**
 * DEDISbench's fault-plan reader (dedisbench/benchcore/faults/configParserYaml.c).
 *
 * The YAML file is read as a stream of tokens. Keys outside the `faults` sequence are pushed on a
 * key stack (at most ten deep) and act as defaults: each entry of the sequence starts a fault
 * configuration, reset, assigned round-robin to the next process, and seeded from the stacked
 * keys; the entry's own key/value pairs then set its attributes. At the end of the entry a valid
 * configuration is filed with its process, under faults by time or faults by operation count.
 * At the end of the stream each list is sorted by when the fault fires.
 */
module ConfigParserYaml {
  import opened CTypes
  import opened Wrappers
  import opened FbdDefines
  import opened Decimal
  import opened DedisFaultDefs

  // ---------------------------------------------------------------------------------------------
  // Words of the configuration file

  const NONE_STR: string := "none"
  const MODE_STR: string := "mode"
  const MODE_HASH_STR: string := "mode_hash"
  const MODE_OFFSET_STR: string := "mode_offset"
  const MODE_DEDUP_STR: string := "mode_dedup"
  const MODE_DISK_STR: string := "mode_disk"
  const WRITE_STR: string := "write"
  const READ_STR: string := "read"
  const WRITE_READ_STR: string := "write_read"
  const MEDIUM_ERROR_STR: string := "medium_error"
  const SLOW_DISK_STR: string := "slow_disk"
  const BIT_FLIP_STR: string := "bit_flip"
  const TYPE_STR: string := "type"
  const OPERATION_STR: string := "operation"
  const WHEN_OPERATION_STR: string := "when_operation"
  const WHEN_TIME_STR: string := "when_time"
  const TARGET_STR: string := "target"
  const DELAY_STR: string := "delay"
  const FAULTS_CONF_STR: string := "faults"
  const AVOID_REPEATABLE_FAULTS_STR: string := "avoid_repeatable_faults"
  const LENGTH_FAULTS_STR: string := "length_faults"
  const LAST_BLOCK_STR: string := "last_block"
  const TOP_BLOCK_STR: string := "top_block"
  const NEXT_BLOCK_STR: string := "next_block"
  const UNIQUE_BLOCK_STR: string := "unique_block"
  const PERSISTENCE_STR: string := "persistent"
  const TRANSIENT_STR: string := "transient"
  const YES_STR: string := "yes"
  const NO_STR: string := "no"

  // ---------------------------------------------------------------------------------------------
  // One fault configuration

  /**
   * `reset_fault_conf`: hash mode, every numeric field -1 (`when` as an unsigned 64-bit value),
   * no extra. `persistent` is not touched, so it carries over from the previous configuration.
   */
  function Reset(fc: FaultConf): (r: FaultConf)
    ensures r.mode == FBD_MODE_HASH && r.when == U64_MAX && r.extraType == FAULT_CONF_EXTRA_NONE && r.extra == None
    ensures r.operation == r.faultDist == r.faultType == r.procId == r.measure == -1
    ensures r.persistent == fc.persistent
  {
    FaultConf(FBD_MODE_HASH, -1, ToU64(-1), -1, -1, fc.persistent, -1, -1, FAULT_CONF_EXTRA_NONE, None)
  }

  /** A configuration the planner can use; `when` is unsigned, so it needs no test. */
  predicate ValidConf(fc: FaultConf)
  {
    fc.operation >= 0 && fc.faultDist >= 0 && fc.faultType >= 0 && fc.measure >= 0 &&
    (fc.extraType == FAULT_CONF_EXTRA_TIME ==> fc.extra.Some?)
  }

  /**
   * `validate_fault_conf`: a time extra without a delay gets the default delay of 1; the
   * configuration is valid when operation, target, fault type and measure are all set (>= 0).
   */
  function Validate(fc: FaultConf): (r: (FaultConf, bool))
    ensures r.0 == fc.(extra := r.0.extra)
    ensures fc.extra.Some? ==> r.0.extra == fc.extra
    ensures fc.extraType == FAULT_CONF_EXTRA_TIME ==> r.0.extra.Some?
    ensures r.1 <==> fc.operation >= 0 && fc.faultDist >= 0 && fc.faultType >= 0 && fc.measure >= 0
    ensures r.1 ==> ValidConf(r.0)
  {
    var filled := if fc.extraType == FAULT_CONF_EXTRA_TIME && fc.extra == None
      then fc.(extra := Some(FAULT_CONF_EXTRA_TIME_DEFAULT))
      else fc;
    (filled, fc.operation >= 0 && fc.faultDist >= 0 && fc.faultType >= 0 && fc.measure >= 0)
  }

  /** A freshly reset configuration is never valid: something must set its fields. */
  lemma ResetIsInvalid(fc: FaultConf)
    ensures !Validate(Reset(fc)).1
  {
  }

  /**
   * `add_fault_attribute`: the value of a key inside a fault entry sets one field. Unknown keys
   * and unknown values change nothing.
   */
  function WithAttribute(fc: FaultConf, key: string, value: string): (r: FaultConf)
    ensures r.procId == fc.procId
    ensures r.measure != fc.measure || r.when != fc.when ==> key == WHEN_OPERATION_STR || key == WHEN_TIME_STR
    ensures key == WHEN_OPERATION_STR ==> r.measure == OPS_F && r.when == ToU64(Atoi(value))
    ensures key == WHEN_TIME_STR ==> r.measure == TIME_F && r.when == ToU64(Atoi(value))
    ensures key == DELAY_STR ==> r.extra == Some(ToU32(Atoi(value)))
    ensures r.persistent != fc.persistent ==> key == PERSISTENCE_STR || key == TRANSIENT_STR
    ensures key == PERSISTENCE_STR && value == YES_STR ==> r.persistent
    ensures key == TRANSIENT_STR && value == YES_STR ==> !r.persistent
  {
    if key == TYPE_STR then
      if value == MEDIUM_ERROR_STR then fc.(faultType := FBD_FAULT_MEDIUM)
      else if value == BIT_FLIP_STR then fc.(faultType := FBD_FAULT_BIT_FLIP)
      else if value == SLOW_DISK_STR then fc.(faultType := FBD_FAULT_SLOW_DISK, extraType := FAULT_CONF_EXTRA_TIME)
      else fc
    else if key == OPERATION_STR then
      if value == WRITE_STR then fc.(operation := FBD_OP_WRITE)
      else if value == READ_STR then fc.(operation := FBD_OP_READ)
      else if value == WRITE_READ_STR then fc.(operation := FBD_OP_WRITE_READ)
      else if value == NONE_STR then fc.(operation := FBD_OP_NONE)
      else fc
    else if key == TARGET_STR then
      if value == LAST_BLOCK_STR then fc.(faultDist := DIST_GEN)
      else if value == TOP_BLOCK_STR then fc.(faultDist := TOP_DUP)
      else if value == NEXT_BLOCK_STR then fc.(faultDist := NEXT_GEN)
      else if value == UNIQUE_BLOCK_STR then fc.(faultDist := UNIQUE)
      else fc
    else if key == WHEN_OPERATION_STR then fc.(when := ToU64(Atoi(value)), measure := OPS_F)
    else if key == WHEN_TIME_STR then fc.(when := ToU64(Atoi(value)), measure := TIME_F)
    else if key == DELAY_STR then fc.(extra := Some(ToU32(Atoi(value))))
    else if key == PERSISTENCE_STR then
      if value == YES_STR then fc.(persistent := true)
      else if value == NO_STR then fc.(persistent := false)
      else fc
    else if key == TRANSIENT_STR then
      if value == YES_STR then fc.(persistent := false)
      else if value == NO_STR then fc.(persistent := true)
      else fc
    else if key == MODE_STR then
      if value == MODE_HASH_STR then fc.(mode := FBD_MODE_HASH)
      else if value == MODE_OFFSET_STR then fc.(mode := FBD_MODE_BLOCK)
      else if value == MODE_DEDUP_STR then fc.(mode := FBD_MODE_DEDUP)
      else if value == MODE_DISK_STR then fc.(mode := FBD_MODE_DEVICE)
      else fc
    else fc
  }

  /** `persistent: v` and `transient: v` set opposite values for v = yes or no. */
  lemma PersistentTransientOpposite(fc: FaultConf, value: string)
    requires value == YES_STR || value == NO_STR
    ensures WithAttribute(fc, PERSISTENCE_STR, value).persistent == !WithAttribute(fc, TRANSIENT_STR, value).persistent
  {
  }

  /** The default one key on the stack gives a new fault entry (the chain in `handle_block_entry`). */
  function StackDefault(fc: FaultConf, key: string): (r: FaultConf)
    ensures r.when == fc.when && r.measure == fc.measure && r.procId == fc.procId && r.extra == fc.extra
  {
    if key == WRITE_STR then fc.(operation := FBD_OP_WRITE)
    else if key == READ_STR then fc.(operation := FBD_OP_READ)
    else if key == WRITE_READ_STR then fc.(operation := FBD_OP_WRITE_READ)
    else if key == MEDIUM_ERROR_STR then fc.(faultType := FBD_FAULT_MEDIUM)
    else if key == BIT_FLIP_STR then fc.(faultType := FBD_FAULT_BIT_FLIP)
    else if key == SLOW_DISK_STR then fc.(faultType := FBD_FAULT_SLOW_DISK, extraType := FAULT_CONF_EXTRA_TIME_DEFAULT)
    else if key == LAST_BLOCK_STR then fc.(faultDist := DIST_GEN)
    else if key == TOP_BLOCK_STR then fc.(faultDist := TOP_DUP)
    else if key == NEXT_BLOCK_STR then fc.(faultDist := NEXT_GEN)
    else if key == UNIQUE_BLOCK_STR then fc.(faultDist := UNIQUE)
    else if key == PERSISTENCE_STR then fc.(persistent := true)
    else if key == TRANSIENT_STR then fc.(persistent := false)
    else if key == MODE_HASH_STR then fc.(mode := FBD_MODE_HASH)
    else if key == MODE_OFFSET_STR then fc.(mode := FBD_MODE_BLOCK)
    else if key == MODE_DEDUP_STR then fc.(mode := FBD_MODE_DEDUP)
    else if key == MODE_DISK_STR then fc.(mode := FBD_MODE_DEVICE)
    else fc
  }

  /** The defaults of the whole stack, bottom to top, so deeper keys win. */
  function ApplyStack(fc: FaultConf, keys: seq<string>): FaultConf
  {
    if keys == [] then fc else StackDefault(ApplyStack(fc, keys[..|keys| - 1]), keys[|keys| - 1])
  }

  /**
   * The stack never sets when a fault fires, what `when` counts, or the delay: a fault entry is
   * only valid once its own `when_time` or `when_operation` attribute is given.
   */
  lemma {:induction false} ApplyStackKeepsTiming(fc: FaultConf, keys: seq<string>)
    ensures ApplyStack(fc, keys).when == fc.when && ApplyStack(fc, keys).measure == fc.measure
    ensures ApplyStack(fc, keys).procId == fc.procId && ApplyStack(fc, keys).extra == fc.extra
  {
    if keys != [] {
      ApplyStackKeepsTiming(fc, keys[..|keys| - 1]);
    }
  }

  /** A reset entry seeded only from the stack is never valid. */
  lemma StackOnlyIsInvalid(fc: FaultConf, procId: int, keys: seq<string>)
    ensures !Validate(ApplyStack(Reset(fc).(procId := procId), keys)).1
  {
    ApplyStackKeepsTiming(Reset(fc).(procId := procId), keys);
  }

  // ---------------------------------------------------------------------------------------------
  // Processes and ordering

  /** `next_procid`: the process after `current`, wrapping at nprocs; 0 when there are none. */
  function NextProcidOf(current: int, nprocs: int): (r: int)
    requires current >= 0
    ensures nprocs > 0 ==> 0 <= r < nprocs
    ensures nprocs <= 0 ==> r == 0
    ensures 0 < current + 1 < nprocs ==> r == current + 1
    ensures current + 1 == nprocs ==> r == 0
  {
    if nprocs > 0 then (current + 1) % nprocs else 0
  }

  /** The process the k-th fault entry goes to, counting from a fresh start at process 0. */
  function ProcidAfter(k: nat, nprocs: int): int
  {
    if k == 0 then 0 else NextProcidOf(ProcidAfter(k - 1, nprocs), nprocs)
  }

  /** In the first round of entries, the k-th goes to process k (so the first entry to process 1). */
  lemma {:induction false} RoundRobinFirstRound(k: nat, nprocs: int)
    requires k < nprocs
    ensures ProcidAfter(k, nprocs) == k
  {
    if k > 0 {
      RoundRobinFirstRound(k - 1, nprocs);
    }
  }

  /** Entries are dealt round-robin: every nprocs entries the processes repeat. */
  lemma {:induction false} RoundRobinPeriodic(k: nat, nprocs: int)
    requires nprocs > 0
    ensures ProcidAfter(k + nprocs, nprocs) == ProcidAfter(k, nprocs)
  {
    if k == 0 {
      RoundRobinFirstRound(nprocs - 1, nprocs);
    } else {
      RoundRobinPeriodic(k - 1, nprocs);
    }
  }

  /**
   * `compare_fault_block_when` as written: `(gint) when1 - when2` casts only when1, subtracts in
   * 64-bit unsigned arithmetic and returns the low 32 bits as a signed value.
   */
  function CompareWhenAsWritten(w1: u64, w2: u64): i32
  {
    ToI32(ToU64(ToI32(w1) - w2))
  }

  /** The comparison the sort needs: the sign of when1 - when2. */
  function CompareWhen(w1: u64, w2: u64): (r: int)
    ensures r < 0 <==> w1 < w2
    ensures r == 0 <==> w1 == w2
  {
    if w1 < w2 then -1 else if w1 > w2 then 1 else 0
  }

  /** Two values 2^31 apart: the as-written comparison puts the larger first. */
  lemma CompareWhenMisorders()
    ensures CompareWhenAsWritten(0x8000_0000, 0) < 0
    ensures CompareWhen(0x8000_0000, 0) > 0
  {
  }

  /** A fault that fires no later than any of a list in order heads a list in order. */
  lemma ConsSorted(h: FaultConf, t: seq<FaultConf>)
    requires SortedByWhen(t) && forall j | 0 <= j < |t| :: h.when <= t[j].when
    ensures SortedByWhen([h] + t)
  {
    var r := [h] + t;
    forall i, j | 0 <= i < j < |r| ensures r[i].when <= r[j].when {
      if i > 0 {
        assert r[i] == t[i - 1] && r[j] == t[j - 1];
      }
    }
  }

  /** A list kept in order by inserting x after every element that does not compare greater. */
  function InsertByWhen(x: FaultConf, s: seq<FaultConf>): (r: seq<FaultConf>)
    requires SortedByWhen(s)
    ensures SortedByWhen(r) && multiset(r) == multiset(s) + multiset{x}
    ensures |r| == |s| + 1
  {
    if s == [] then [x]
    else if CompareWhen(s[0].when, x.when) <= 0 then
      var rest := InsertByWhen(x, s[1..]);
      assert s == [s[0]] + s[1..];
      assert forall j | 0 <= j < |rest| :: s[0].when <= rest[j].when by {
        forall j | 0 <= j < |rest| ensures s[0].when <= rest[j].when {
          assert rest[j] in multiset(rest);
          if rest[j] != x {
            assert rest[j] in multiset(s[1..]);
          }
        }
      }
      ConsSorted(s[0], rest);
      [s[0]] + rest
    else
      [x] + s
  }

  /** `g_array_sort` with the sign comparison: the same faults, in firing order. */
  function SortByWhen(s: seq<FaultConf>): (r: seq<FaultConf>)
    ensures SortedByWhen(r) && multiset(r) == multiset(s)
  {
    if s == [] then []
    else
      assert s == s[..|s| - 1] + [s[|s| - 1]];
      InsertByWhen(s[|s| - 1], SortByWhen(s[..|s| - 1]))
  }

  // ---------------------------------------------------------------------------------------------
  // Filing configurations

  /** A process's lists hold only valid faults of the right measure, with both cursors at 0. */
  predicate Filed(l: SortedFaultConfs)
  {
    l.itime == 0 && l.ioperation == 0 &&
    (forall c | c in l.byTime :: ValidConf(c) && c.measure == TIME_F) &&
    (forall c | c in l.byOperation :: ValidConf(c) && c.measure == OPS_F)
  }

  /** Where `handle_block_end` files a configuration: by operation count, by time, or nowhere. */
  function FileConf(l: SortedFaultConfs, fc: FaultConf): (r: SortedFaultConfs)
    ensures Filed(l) && ValidConf(fc) ==> Filed(r)
    ensures fc.measure == OPS_F ==> r.byOperation == l.byOperation + [fc] && r.byTime == l.byTime
    ensures fc.measure == TIME_F ==> r.byTime == l.byTime + [fc] && r.byOperation == l.byOperation
    ensures fc.measure != OPS_F && fc.measure != TIME_F ==> r == l
  {
    if fc.measure == OPS_F then l.(byOperation := l.byOperation + [fc])
    else if fc.measure == TIME_F then l.(byTime := l.byTime + [fc])
    else l
  }

  /** Both lists of a process sorted by `when`, as `end_fault_conf` leaves them. */
  function SortLists(l: SortedFaultConfs): (r: SortedFaultConfs)
    ensures SortedByWhen(r.byTime) && multiset(r.byTime) == multiset(l.byTime)
    ensures SortedByWhen(r.byOperation) && multiset(r.byOperation) == multiset(l.byOperation)
    ensures Filed(l) ==> Filed(r)
  {
    var r := l.(byTime := SortByWhen(l.byTime), byOperation := SortByWhen(l.byOperation));
    assert forall c | c in r.byTime :: c in l.byTime by {
      forall c | c in r.byTime ensures c in l.byTime {
        assert c in multiset(r.byTime);
      }
    }
    assert forall c | c in r.byOperation :: c in l.byOperation by {
      forall c | c in r.byOperation ensures c in l.byOperation {
        assert c in multiset(r.byOperation);
      }
    }
    r
  }

  /** What `end_fault_conf` hands to the fault runtime. */
  datatype Plan = Plan(faults: seq<SortedFaultConfs>, nprocs: int, nuniqueInjected: int, avoidRepeatFaults: bool)

  /** A plan for nprocs processes whose lists are filed and in firing order. */
  predicate PlanReady(p: Plan, nprocs: int)
  {
    p.nprocs == nprocs && |p.faults| == nprocs && p.nuniqueInjected == 0 &&
    forall j | 0 <= j < |p.faults| ::
      Filed(p.faults[j]) && SortedByWhen(p.faults[j].byTime) && SortedByWhen(p.faults[j].byOperation)
  }

  // ---------------------------------------------------------------------------------------------
  // The reader's state

  class Metadata {
    var inFaultsScalar: bool
    var inFaultsSequence: bool
    var inFaultDefBlock: bool
    var currentProcid: int
    var lastKey: Option<string>
    var faultConf: seq<SortedFaultConfs>
    var currentFault: FaultConf
    var isKey: bool
    var keyStack: seq<string>
    var avoidRepeatableFaults: bool
    /** The process count the lists were made for (`conf->nprocs`). */
    ghost var procs: int

    ghost predicate Valid()
      reads this
    {
      procs >= 1 && |faultConf| == procs && 0 <= currentProcid < procs &&
      |keyStack| <= MAX_KEY_STACK_SIZE &&
      forall j | 0 <= j < |faultConf| :: Filed(faultConf[j])
    }

    /** The metadata as allocated and set up by the stream-start token. */
    constructor (nprocs: int)
      requires nprocs >= 1
      ensures Valid() && procs == nprocs
      ensures faultConf == seq(nprocs, _ => NO_FAULTS) && keyStack == [] && currentProcid == 0
    {
      new;
      Init(nprocs);
    }

    /** The flags and the stack of `init_fault_conf_metadata`, without the per-process lists. */
    method ClearState()
      modifies this
      ensures !inFaultsScalar && !inFaultsSequence && !inFaultDefBlock && !isKey && !avoidRepeatableFaults
      ensures lastKey == None && keyStack == [] && currentProcid == 0
      ensures currentFault == Reset(old(currentFault)) && faultConf == [] && procs == old(procs)
    {
      inFaultsScalar := false;
      inFaultsSequence := false;
      inFaultDefBlock := false;
      lastKey := None;
      currentFault := Reset(currentFault);
      isKey := false;
      keyStack := [];
      currentProcid := 0;
      faultConf := [];
      avoidRepeatableFaults := false;
    }

    /** `init_fault_conf_metadata` with one pair of empty lists per process. */
    method Init(nprocs: int)
      requires nprocs >= 1
      modifies this
      ensures Valid() && procs == nprocs
      ensures faultConf == seq(nprocs, _ => NO_FAULTS) && keyStack == [] && currentProcid == 0
      ensures !inFaultsScalar && !inFaultsSequence && !inFaultDefBlock && !isKey && !avoidRepeatableFaults
      ensures lastKey == None && currentFault == Reset(old(currentFault))
    {
      ClearState();
      procs := nprocs;
      var lists := [];
      var i := 0;
      while i < nprocs
        invariant 0 <= i <= nprocs && lists == seq(i, _ => NO_FAULTS)
      {
        lists := lists + [NO_FAULTS];
        i := i + 1;
      }
      faultConf := lists;
    }

    /**
     * `init_fault_conf_metadata` as written: the array is created again on every pass of the
     * loop, so one process's lists survive whatever the process count.
     */
    method InitAsWritten(nprocs: int)
      modifies this
      ensures |faultConf| == if nprocs >= 1 then 1 else 0
    {
      ClearState();
      var lists := [];
      var i := 0;
      while i < nprocs
        invariant i == 0 || i <= nprocs
        invariant |lists| == if i >= 1 then 1 else 0
      {
        lists := [];
        lists := lists + [NO_FAULTS];
        i := i + 1;
      }
      faultConf := lists;
    }

    /** `set_is_key` and `set_is_value`: the next scalar is a key, or a value. */
    method SetIsKey(key: bool)
      modifies this
      ensures isKey == key
      ensures inFaultsScalar == old(inFaultsScalar) && inFaultsSequence == old(inFaultsSequence)
      ensures inFaultDefBlock == old(inFaultDefBlock) && currentProcid == old(currentProcid)
      ensures lastKey == old(lastKey) && faultConf == old(faultConf) && currentFault == old(currentFault)
      ensures keyStack == old(keyStack) && avoidRepeatableFaults == old(avoidRepeatableFaults)
      ensures procs == old(procs)
    {
      isKey := key;
    }

    /** `next_procid`: move to the next process and return it. */
    method NextProcid(nprocs: int) returns (procid: int)
      requires currentProcid >= 0
      modifies this`currentProcid
      ensures procid == currentProcid == NextProcidOf(old(currentProcid), nprocs)
    {
      procid := if nprocs > 0 then (currentProcid + 1) % nprocs else 0;
      currentProcid := procid;
    }

    /**
     * `handle_scalar_token`. A key is remembered. Outside the fault sequence, `faults` opens the
     * faults scalar, `length_faults` is skipped, and any other key is pushed on the stack, or
     * ends the program (exited) when the stack is full; the value of `avoid_repeatable_faults` is
     * read. Inside the sequence a value sets an attribute of the current fault.
     */
    method HandleScalarToken(token: string) returns (exited: bool)
      requires Valid()
      modifies this
      ensures Valid() && procs == old(procs)
      ensures lastKey == if old(isKey) then Some(token) else old(lastKey)
      ensures var pushing := old(isKey) && !old(inFaultsSequence) &&
          token != FAULTS_CONF_STR && token != LENGTH_FAULTS_STR;
        (exited <==> pushing && |old(keyStack)| >= MAX_KEY_STACK_SIZE) &&
        keyStack == if pushing && !exited then old(keyStack) + [token] else old(keyStack)
      ensures inFaultsScalar == (old(inFaultsScalar) ||
        (old(isKey) && !old(inFaultsSequence) && token == FAULTS_CONF_STR))
      ensures avoidRepeatableFaults ==
        if !old(isKey) && !old(inFaultsSequence) && old(lastKey) == Some(AVOID_REPEATABLE_FAULTS_STR)
           && (token == YES_STR || token == NO_STR)
        then token == YES_STR else old(avoidRepeatableFaults)
      ensures currentFault ==
        if !old(isKey) && old(inFaultsSequence) && old(lastKey).Some?
        then WithAttribute(old(currentFault), old(lastKey).value, token) else old(currentFault)
      ensures inFaultsSequence == old(inFaultsSequence) && inFaultDefBlock == old(inFaultDefBlock)
      ensures isKey == old(isKey) && faultConf == old(faultConf) && currentProcid == old(currentProcid)
    {
      exited := false;
      if isKey {
        lastKey := Some(token);
      }
      if !inFaultsSequence {
        if isKey {
          if token == FAULTS_CONF_STR {
            inFaultsScalar := true;
            return;
          }
          if token == LENGTH_FAULTS_STR {
            return;
          }
          if |keyStack| < MAX_KEY_STACK_SIZE {
            keyStack := keyStack + [token];
          } else {
            exited := true;
          }
        } else if lastKey == Some(AVOID_REPEATABLE_FAULTS_STR) {
          if token == YES_STR {
            avoidRepeatableFaults := true;
          } else if token == NO_STR {
            avoidRepeatableFaults := false;
          }
        }
      } else if !isKey && lastKey.Some? {
        currentFault := WithAttribute(currentFault, lastKey.value, token);
      }
    }

    /**
     * `handle_block_end`. Ending a fault entry validates its configuration and files it with the
     * current process. Otherwise the key stack is popped, leaving the fault sequence when it
     * empties, or with an empty stack the faults scalar is left.
     */
    method HandleBlockEnd()
      requires Valid()
      modifies this
      ensures Valid() && procs == old(procs)
      ensures old(inFaultDefBlock) ==>
        (var (fc, ok) := Validate(old(currentFault));
         currentFault == fc && !inFaultDefBlock && keyStack == old(keyStack) &&
         faultConf == (if ok then old(faultConf)[currentProcid := FileConf(old(faultConf)[currentProcid], fc)]
                       else old(faultConf)) &&
         inFaultsSequence == old(inFaultsSequence) && inFaultsScalar == old(inFaultsScalar))
      ensures !old(inFaultDefBlock) && |old(keyStack)| > 0 ==>
        (keyStack == old(keyStack)[..|old(keyStack)| - 1] &&
         inFaultsSequence == (old(inFaultsSequence) && |keyStack| > 0) &&
         inFaultsScalar == old(inFaultsScalar) && faultConf == old(faultConf))
      ensures !old(inFaultDefBlock) && |old(keyStack)| == 0 ==>
        (!inFaultsScalar && keyStack == [] && inFaultsSequence == old(inFaultsSequence) &&
         faultConf == old(faultConf))
      ensures !old(inFaultDefBlock) ==> currentFault == old(currentFault) && inFaultDefBlock == old(inFaultDefBlock)
      ensures currentProcid == old(currentProcid) && lastKey == old(lastKey) && isKey == old(isKey)
      ensures avoidRepeatableFaults == old(avoidRepeatableFaults)
    {
      if inFaultDefBlock {
        var (fc, ok) := Validate(currentFault);
        currentFault := fc;
        if ok {
          faultConf := faultConf[currentProcid := FileConf(faultConf[currentProcid], fc)];
        }
        inFaultDefBlock := false;
      } else if |keyStack| > 0 {
        keyStack := keyStack[..|keyStack| - 1];
        if |keyStack| == 0 {
          inFaultsSequence := false;
        }
      } else {
        inFaultsScalar := false;
      }
    }

    /** `handle_block_sequence`: a sequence under the `faults` key is the fault sequence. */
    method HandleBlockSequence()
      modifies this`inFaultsSequence
      ensures inFaultsSequence == (old(inFaultsSequence) || inFaultsScalar)
    {
      if inFaultsScalar {
        inFaultsSequence := true;
      }
    }

    /**
     * `handle_block_entry`: an entry of the fault sequence starts a configuration, reset, given
     * the next process, and seeded with the defaults of the stacked keys.
     */
    method HandleBlockEntry(nprocs: int)
      requires Valid() && nprocs == procs
      modifies this
      ensures Valid() && procs == old(procs)
      ensures inFaultDefBlock == old(inFaultsSequence)
      ensures inFaultDefBlock ==>
        currentProcid == NextProcidOf(old(currentProcid), nprocs) &&
        currentFault == ApplyStack(Reset(old(currentFault)).(procId := currentProcid), keyStack)
      ensures !inFaultDefBlock ==> currentProcid == old(currentProcid) && currentFault == old(currentFault)
      ensures keyStack == old(keyStack) && faultConf == old(faultConf) && lastKey == old(lastKey)
      ensures inFaultsScalar == old(inFaultsScalar) && inFaultsSequence == old(inFaultsSequence)
      ensures isKey == old(isKey) && avoidRepeatableFaults == old(avoidRepeatableFaults)
    {
      inFaultDefBlock := inFaultsSequence;
      if inFaultDefBlock {
        var procid := NextProcid(nprocs);
        var fc := Reset(currentFault).(procId := procid);
        ghost var seeded := fc;
        var i := 0;
        while i < |keyStack|
          invariant 0 <= i <= |keyStack|
          invariant fc == ApplyStack(seeded, keyStack[..i])
        {
          assert keyStack[..i + 1][..i] == keyStack[..i];
          fc := StackDefault(fc, keyStack[i]);
          i := i + 1;
        }
        assert keyStack[..i] == keyStack;
        currentFault := fc;
      }
    }

    /**
     * `end_fault_conf`: sort every process's lists by `when` in place and hand them, with the
     * process count and the avoid-repeat flag, to the fault runtime.
     */
    method EndFaultConf(nprocs: int) returns (plan: Plan)
      requires Valid() && nprocs == procs
      modifies this`faultConf
      ensures Valid()
      ensures faultConf == seq(|old(faultConf)|, j requires 0 <= j < |old(faultConf)| => SortLists(old(faultConf)[j]))
      ensures plan == Plan(faultConf, nprocs, 0, avoidRepeatableFaults)
      ensures PlanReady(plan, nprocs)
    {
      var i := 0;
      while i < nprocs
        invariant 0 <= i <= nprocs && |faultConf| == |old(faultConf)|
        invariant forall j | 0 <= j < i :: faultConf[j] == SortLists(old(faultConf)[j])
        invariant forall j | i <= j < |faultConf| :: faultConf[j] == old(faultConf)[j]
      {
        faultConf := faultConf[i := SortLists(faultConf[i])];
        i := i + 1;
      }
      plan := Plan(faultConf, nprocs, 0, avoidRepeatableFaults);
    }
  }

  /** The first fault entry goes to process 1, past the end of the single list the as-written init leaves. */
  lemma InitAsWrittenFilesOutOfRange(nprocs: int)
    requires nprocs >= 2
    ensures NextProcidOf(0, nprocs) == 1
  {
  }

  // ---------------------------------------------------------------------------------------------
  // The token loop

  /** The libyaml tokens the reader reacts to; the rest are Other. */
  datatype Token =
    | StreamStart | StreamEnd | KeyToken | ValueToken
    | BlockSequenceStart | BlockEntry | BlockEnd | BlockMappingStart
    | Scalar(value: string) | Other

  /** How reading ends: with a plan at the stream end, by exiting on a too-deep stack, or out of tokens. */
  datatype Outcome = Finished(plan: Plan) | Exited | Unterminated

  /**
   * `parse_faults_configuration_yaml` over a token sequence: each token is handed to its
   * handler until the stream end, where the plan is built.
   */
  method ParseFaultsConfiguration(tokens: seq<Token>, nprocs: int) returns (r: Outcome)
    requires nprocs >= 1
    ensures r.Finished? ==> PlanReady(r.plan, nprocs) && StreamEnd in tokens
    ensures r.Exited? ==> exists i | 0 <= i < |tokens| :: tokens[i].Scalar?
  {
    var data := new Metadata(nprocs);
    var i := 0;
    while i < |tokens|
      invariant 0 <= i <= |tokens|
      invariant fresh(data) && data.Valid() && data.procs == nprocs
    {
      match tokens[i] {
      case StreamStart => data.Init(nprocs);
      case StreamEnd =>
        var plan := data.EndFaultConf(nprocs);
        return Finished(plan);
      case KeyToken => data.SetIsKey(true);
      case ValueToken => data.SetIsKey(false);
      case BlockSequenceStart => data.HandleBlockSequence();
      case BlockEntry => data.HandleBlockEntry(nprocs);
      case BlockEnd => data.HandleBlockEnd();
      case BlockMappingStart =>
      case Scalar(v) =>
        var exited := data.HandleScalarToken(v);
        if exited {
          return Exited;
        }
      case Other =>
      }
      i := i + 1;
    }
    return Unterminated;
  }
}
