/**
 * DEDISbench's fault runtime (dedisbench-private/benchcore/faults/fault.c): which configured fault
 * fires next for a process, which block's content it targets, what the injection request to the
 * fault server carries and how the answer is counted, and the command-line fault list
 * `type:target:when,...`.
 */
module DedisFault {
  import opened CTypes
  import opened Wrappers
  import opened FbdDefines
  import opened Decimal
  import opened DedisFaultDefs
  import opened DedupDegree
  import ConfigParserYaml

  // ---------------------------------------------------------------------------------------------
  // The next fault of a process

  /** Both cursors inside their lists, and each list no longer than a GArray can be. */
  predicate CursorsIn(l: SortedFaultConfs)
  {
    l.itime <= |l.byTime| < 0x1_0000_0000 && l.ioperation <= |l.byOperation| < 0x1_0000_0000
  }

  /** Faults by operation count are only taken once every fault by time has been. */
  predicate TimeFirst(l: SortedFaultConfs)
  {
    l.ioperation > 0 ==> l.itime == |l.byTime|
  }

  /** The faults already handed out: the lists' prefixes before the cursors. */
  function Delivered(l: SortedFaultConfs): seq<FaultConf>
    requires CursorsIn(l)
  {
    l.byTime[..l.itime] + l.byOperation[..l.ioperation]
  }

  /**
   * `next_fault_conf` on one process's lists. While faults by time remain, the next one is
   * returned once the elapsed time reaches its `when`; after them, the next fault by operation
   * count once the operation count reaches its `when`. A returned fault advances its cursor.
   */
  function NextConf(l: SortedFaultConfs, nOps: u64, timeElapsed: u64): (r: (Option<FaultConf>, SortedFaultConfs))
    requires CursorsIn(l)
    ensures CursorsIn(r.1) && r.1.byTime == l.byTime && r.1.byOperation == l.byOperation
    ensures r.0.None? ==> r.1 == l
    ensures l.itime < |l.byTime| ==>
      r.1.ioperation == l.ioperation &&
      (r.0.Some? <==> l.byTime[l.itime].when <= timeElapsed) &&
      (r.0.Some? ==> r.0.value == l.byTime[l.itime] && r.1.itime == l.itime + 1)
    ensures l.itime == |l.byTime| ==>
      r.1.itime == l.itime &&
      (r.0.Some? <==> l.ioperation < |l.byOperation| && l.byOperation[l.ioperation].when <= nOps) &&
      (r.0.Some? ==> r.0.value == l.byOperation[l.ioperation] && r.1.ioperation == l.ioperation + 1)
  {
    if l.itime < |l.byTime| then
      var fc := l.byTime[l.itime];
      if fc.when <= timeElapsed then (Some(fc), l.(itime := l.itime + 1)) else (None, l)
    else if l.ioperation < |l.byOperation| then
      var fc := l.byOperation[l.ioperation];
      if fc.when <= nOps then (Some(fc), l.(ioperation := l.ioperation + 1)) else (None, l)
    else
      (None, l)
  }

  /**
   * Each call hands out at most the fault right after those already handed out: the cursors
   * never move back, so no fault is returned twice.
   */
  lemma NextConfDelivers(l: SortedFaultConfs, nOps: u64, timeElapsed: u64)
    requires CursorsIn(l) && TimeFirst(l)
    ensures var r := NextConf(l, nOps, timeElapsed);
      TimeFirst(r.1) && r.1.itime >= l.itime && r.1.ioperation >= l.ioperation &&
      Delivered(r.1) == Delivered(l) + (if r.0.Some? then [r.0.value] else [])
  {
    var r := NextConf(l, nOps, timeElapsed);
    if r.0.Some? {
      if l.itime < |l.byTime| {
        assert l.byTime[..l.itime + 1] == l.byTime[..l.itime] + [l.byTime[l.itime]];
        assert l.byOperation[..l.ioperation] == [];
      } else {
        assert l.byOperation[..l.ioperation + 1] == l.byOperation[..l.ioperation] + [l.byOperation[l.ioperation]];
      }
    }
  }

  /** One call of `next_fault_conf` for a process: its operation count and elapsed time. */
  datatype Tick = Tick(nOps: u64, timeElapsed: u64)

  /** The faults a run of calls returns, in order, and the lists afterwards. */
  function Run(l: SortedFaultConfs, ticks: seq<Tick>): (r: (seq<FaultConf>, SortedFaultConfs))
    requires CursorsIn(l)
    ensures CursorsIn(r.1) && r.1.byTime == l.byTime && r.1.byOperation == l.byOperation
  {
    if ticks == [] then ([], l)
    else
      var (out, l1) := Run(l, ticks[..|ticks| - 1]);
      var t := ticks[|ticks| - 1];
      var (fc, l2) := NextConf(l1, t.nOps, t.timeElapsed);
      (out + (if fc.Some? then [fc.value] else []), l2)
  }

  /** A run hands out exactly what its cursors pass over. */
  lemma {:induction false} RunDelivers(l: SortedFaultConfs, ticks: seq<Tick>)
    requires CursorsIn(l) && TimeFirst(l)
    ensures TimeFirst(Run(l, ticks).1)
    ensures Delivered(Run(l, ticks).1) == Delivered(l) + Run(l, ticks).0
  {
    if ticks != [] {
      RunDelivers(l, ticks[..|ticks| - 1]);
      var (out, l1) := Run(l, ticks[..|ticks| - 1]);
      var t := ticks[|ticks| - 1];
      NextConfDelivers(l1, t.nOps, t.timeElapsed);
    }
  }

  /**
   * From fresh cursors, the faults a run returns are a prefix of the time faults followed by the
   * operation faults: each configured fault fires at most once, time faults first.
   */
  lemma RunFromStartIsPrefix(l: SortedFaultConfs, ticks: seq<Tick>)
    requires l.itime == 0 && l.ioperation == 0 && CursorsIn(l)
    ensures var out := Run(l, ticks).0;
      |out| <= |l.byTime| + |l.byOperation| && out == (l.byTime + l.byOperation)[..|out|]
  {
    RunDelivers(l, ticks);
    var (out, l1) := Run(l, ticks);
    assert Delivered(l) == [];
    assert out == Delivered(l1);
    var all := l.byTime + l.byOperation;
    if l1.ioperation > 0 {
      assert l1.byTime[..l1.itime] == l.byTime;
      assert all[..|out|] == l.byTime + l.byOperation[..l1.ioperation];
    } else {
      assert l1.byOperation[..l1.ioperation] == [];
      assert out == l.byTime[..l1.itime];
      assert all[..|out|] == l.byTime[..l1.itime];
    }
  }

  // ---------------------------------------------------------------------------------------------
  // The runtime

  /** `struct fault_runtime` (with the `faults_info` that holds it folded in). */
  class FaultRuntime {
    var faults: seq<SortedFaultConfs>
    /** The block before the latest one each process wrote, None while there is none. */
    var lastBlock: seq<Option<BlockInfo>>
    /** The latest block each process wrote, None while there is none. */
    var nextBlock: seq<Option<BlockInfo>>
    var nprocs: int
    var nuniqueInjected: int
    var avoidRepeatFaults: bool

    ghost predicate Valid()
      reads this
    {
      nprocs == |faults| == |lastBlock| == |nextBlock| && nuniqueInjected >= 0 &&
      forall j | 0 <= j < |faults| :: CursorsIn(faults[j]) && TimeFirst(faults[j])
    }

    /** The runtime `end_fault_conf` builds from the parsed plan. */
    constructor (plan: ConfigParserYaml.Plan)
      requires ConfigParserYaml.PlanReady(plan, plan.nprocs)
      requires forall j | 0 <= j < |plan.faults| ::
        |plan.faults[j].byTime| < 0x1_0000_0000 && |plan.faults[j].byOperation| < 0x1_0000_0000
      ensures Valid() && faults == plan.faults && nprocs == plan.nprocs
      ensures nuniqueInjected == 0 && avoidRepeatFaults == plan.avoidRepeatFaults
      ensures lastBlock == nextBlock == seq(plan.nprocs, _ => None)
    {
      faults := plan.faults;
      lastBlock := seq(plan.nprocs, _ => None);
      nextBlock := seq(plan.nprocs, _ => None);
      nprocs := plan.nprocs;
      nuniqueInjected := 0;
      avoidRepeatFaults := plan.avoidRepeatFaults;
    }
  }

  /** `next_fault_conf`: nothing without a runtime; otherwise the next due fault of the process. */
  method NextFaultConf(rt: FaultRuntime?, procid: int, nOps: u64, timeElapsed: u64) returns (fc: Option<FaultConf>)
    requires rt != null ==> rt.Valid() && 0 <= procid < rt.nprocs
    modifies rt
    ensures rt == null ==> fc == None
    ensures rt != null ==>
      rt.lastBlock == old(rt.lastBlock) && rt.nextBlock == old(rt.nextBlock) && rt.nprocs == old(rt.nprocs) &&
      rt.nuniqueInjected == old(rt.nuniqueInjected) && rt.avoidRepeatFaults == old(rt.avoidRepeatFaults) &&
      rt.Valid() && (fc, rt.faults[procid]) == NextConf(old(rt.faults[procid]), nOps, timeElapsed) &&
      rt.faults == old(rt.faults)[procid := rt.faults[procid]]
  {
    if rt == null {
      return None;
    }
    var sorted := rt.faults[procid];
    fc := None;
    if sorted.itime < |sorted.byTime| {
      var due := sorted.byTime[sorted.itime];
      if due.when <= timeElapsed {
        fc := Some(due);
        rt.faults := rt.faults[procid := sorted.(itime := sorted.itime + 1)];
      }
    } else if sorted.ioperation < |sorted.byOperation| {
      var due := sorted.byOperation[sorted.ioperation];
      if due.when <= nOps {
        fc := Some(due);
        rt.faults := rt.faults[procid := sorted.(ioperation := sorted.ioperation + 1)];
      }
    }
  }

  /** `finfo_get_next_block`: the latest block of the process, None without a runtime. */
  function GetNextBlock(rt: FaultRuntime?, procid: int): (r: Option<BlockInfo>)
    requires rt != null ==> 0 <= procid < |rt.nextBlock|
    reads rt
    ensures rt == null ==> r == None
  {
    if rt == null then None else rt.nextBlock[procid]
  }

  /** `finfo_get_last_block`: the block before the latest one, None without a runtime. */
  function GetLastBlock(rt: FaultRuntime?, procid: int): (r: Option<BlockInfo>)
    requires rt != null ==> 0 <= procid < |rt.lastBlock|
    reads rt
    ensures rt == null ==> r == None
  {
    if rt == null then None else rt.lastBlock[procid]
  }

  /** `finfo_set_block_info`: the latest block becomes the last one and `bi` the latest. */
  method SetBlockInfo(rt: FaultRuntime?, bi: BlockInfo, procid: int)
    requires rt != null ==> rt.Valid() && 0 <= procid < rt.nprocs
    modifies rt
    ensures rt != null ==>
      rt.faults == old(rt.faults) && rt.nprocs == old(rt.nprocs) &&
      rt.nuniqueInjected == old(rt.nuniqueInjected) && rt.avoidRepeatFaults == old(rt.avoidRepeatFaults) &&
      rt.Valid() &&
      GetLastBlock(rt, procid) == old(GetNextBlock(rt, procid)) && GetNextBlock(rt, procid) == Some(bi) &&
      rt.lastBlock == old(rt.lastBlock)[procid := rt.lastBlock[procid]] &&
      rt.nextBlock == old(rt.nextBlock)[procid := Some(bi)]
  {
    if rt != null {
      rt.lastBlock := rt.lastBlock[procid := rt.nextBlock[procid]];
      rt.nextBlock := rt.nextBlock[procid := Some(bi)];
    }
  }

  // ---------------------------------------------------------------------------------------------
  // The block a fault targets

  /** A block of the dedup-degree array, as the block information its slot holds. */
  function InfoOf(e: Option<Element>): (r: Option<BlockInfo>)
    ensures r.Some? <==> e.Some? && e.value.Block?
    ensures r.Some? ==> e.value == Block(r.value)
  {
    match e
    case Some(Block(bi)) => Some(bi)
    case _ => None
  }

  /** A fault was already injected for the element's content. */
  predicate AlreadyInjected(e: Element, injected: set<u64>)
  {
    Key(e) in injected
  }

  /**
   * The first rank, from the most duplicated down, whose content has no fault yet, or the
   * array's length when every content has one.
   */
  function FirstFresh(arr: seq<CounterElement>, injected: set<u64>): (i: nat)
    ensures i <= |arr|
    ensures forall j | 0 <= j < i :: AlreadyInjected(arr[j].element, injected)
    ensures i < |arr| ==> !AlreadyInjected(arr[i].element, injected)
  {
    if arr == [] || !AlreadyInjected(arr[0].element, injected) then 0
    else 1 + FirstFresh(arr[1..], injected)
  }

  /**
   * The TOP_DUP choice of `next_failure`: the most duplicated block, or with avoid-repeat the
   * first one down the ranking whose content has no fault yet, stopping at the least duplicated.
   */
  method TopDuplicate(arr: seq<CounterElement>, injected: set<u64>, avoid: bool) returns (bl: Option<Element>, index: u32)
    requires |arr| < 0x1_0000_0000
    ensures !avoid ==> index == 0
    ensures avoid ==> index == FirstFresh(arr, injected)
    ensures bl == NthMore(arr, index)
  {
    index := 0;
    bl := NthMore(arr, index);
    if avoid {
      var found := bl.Some? && AlreadyInjected(bl.value, injected);
      while found && |arr| > index
        invariant index <= |arr| && bl == NthMore(arr, index)
        invariant forall j | 0 <= j < index :: AlreadyInjected(arr[j].element, injected)
        invariant found <==> index < |arr| && AlreadyInjected(arr[index].element, injected)
        decreases |arr| - index
      {
        index := index + 1;
        bl := NthMore(arr, index);
        found := index < |arr| && bl.Some? && AlreadyInjected(bl.value, injected);
      }
    }
  }

  /** With avoid-repeat, a block whose content already has a fault is chosen only when all have one. */
  lemma TopDuplicateAvoidsRepeats(arr: seq<CounterElement>, injected: set<u64>)
    requires 0 < |arr| < 0x1_0000_0000
    ensures var i := FirstFresh(arr, injected);
      AlreadyInjected(NthMore(arr, i).value, injected) ==>
        forall j | 0 <= j < |arr| :: AlreadyInjected(arr[j].element, injected)
  {
  }

  /**
   * The UNIQUE choice of `next_failure` as written: the `nunique`-th unique block while
   * `len >= nunique`, else the first; with `nunique == len` this reads one past the end.
   */
  function UniqueIndexAsWritten(len: nat, nunique: nat): nat
  {
    if len >= nunique then nunique else 0
  }

  /** The UNIQUE choice with the bound made strict: the next unused unique block, else the first. */
  function UniqueIndex(len: nat, nunique: nat): (i: nat)
    ensures len > 0 ==> i < len
    ensures nunique < len ==> i == nunique
  {
    if len > nunique then nunique else 0
  }

  /** After every unique block has had a fault, the as-written choice reads past the end. */
  lemma UniqueIndexReadsPastEnd(unique: seq<BlockInfo>)
    requires 0 < |unique| < 0x1_0000_0000
    ensures NthUnique(unique, UniqueIndexAsWritten(|unique|, |unique|)) == None
    ensures NthUnique(unique, UniqueIndex(|unique|, |unique|)) == Some(unique[0])
  {
  }

  /** The first `len` UNIQUE faults take the unique blocks in order, each once. */
  lemma UniqueBlocksTakenInOrder(unique: seq<BlockInfo>, k: nat)
    requires k < |unique| < 0x1_0000_0000
    ensures NthUnique(unique, UniqueIndex(|unique|, k)) == Some(unique[k])
  {
  }

  /**
   * `next_failure`: the block whose content the fault targets. DIST_GEN takes the process's last
   * block, NEXT_GEN its latest, TOP_DUP and BOT_DUP the most and least duplicated block, UNIQUE
   * the next unique block (counting UNIQUE faults); any other target ends the program (exited).
   */
  method NextFailure(faultDist: int, dd: DedupTracker, rt: FaultRuntime, injected: set<u64>, procid: int)
    returns (bl: Option<BlockInfo>, exited: bool)
    requires rt.Valid() && 0 <= procid < rt.nprocs
    requires |dd.dedupWrites.arr| < 0x1_0000_0000 && |dd.uniqueWrites| < 0x1_0000_0000
    modifies rt`nuniqueInjected
    ensures rt.Valid()
    ensures exited <==> faultDist !in {DIST_GEN, NEXT_GEN, TOP_DUP, BOT_DUP, UNIQUE}
    ensures faultDist == DIST_GEN ==> bl == rt.lastBlock[procid]
    ensures faultDist == NEXT_GEN ==> bl == rt.nextBlock[procid]
    ensures faultDist == TOP_DUP ==>
      bl == InfoOf(NthMore(dd.dedupWrites.arr,
        if rt.avoidRepeatFaults then FirstFresh(dd.dedupWrites.arr, injected) else 0))
    ensures faultDist == BOT_DUP ==> bl == InfoOf(NthLess(dd.dedupWrites.arr, 0))
    ensures faultDist == UNIQUE ==>
      bl == NthUnique(dd.uniqueWrites, UniqueIndex(|dd.uniqueWrites|, old(rt.nuniqueInjected))) &&
      rt.nuniqueInjected == old(rt.nuniqueInjected) + 1
    ensures faultDist != UNIQUE ==> rt.nuniqueInjected == old(rt.nuniqueInjected)
  {
    bl, exited := None, false;
    if faultDist == DIST_GEN {
      bl := rt.lastBlock[procid];
    } else if faultDist == NEXT_GEN {
      bl := rt.nextBlock[procid];
    } else if faultDist == TOP_DUP {
      var e, _ := TopDuplicate(dd.dedupWrites.arr, injected, rt.avoidRepeatFaults);
      bl := InfoOf(e);
    } else if faultDist == BOT_DUP {
      bl := InfoOf(NthLess(dd.dedupWrites.arr, 0));
    } else if faultDist == UNIQUE {
      var index := UniqueIndex(|dd.uniqueWrites|, rt.nuniqueInjected);
      bl := NthUnique(dd.uniqueWrites, index);
      rt.nuniqueInjected := rt.nuniqueInjected + 1;
    } else {
      exited := true;
    }
  }

  // ---------------------------------------------------------------------------------------------
  // Injecting a fault

  /** What the injection request identifies the faulty block by. */
  datatype FaultTarget =
    | ByContent(block: Option<BlockInfo>)
    | ByOffset(offset: u64)
    | ByDedupContent(block: Option<BlockInfo>)

  /** The request `inject_fault` sends to the fault server. */
  datatype FspRequest = FspRequest(
    target: FaultTarget,
    blockSize: u32,
    operation: int,
    faultType: int,
    persistent: bool,
    hashType: Option<int>,
    extra: Option<u32>)

  /**
   * The request for a fault: by content hash, by offset or by dedup content, with the fault's
   * operation, type and persistence, XXH3-128 hashing for content, and the delay as extra for a
   * slow-disk fault. Device mode and unknown modes send nothing.
   */
  function RequestFor(fault: FaultConf, bl: Option<BlockInfo>, blockSize: u32, offset: u64): (r: Option<FspRequest>)
    ensures r.Some? <==> fault.mode in {FBD_MODE_HASH, FBD_MODE_BLOCK, FBD_MODE_DEDUP}
    ensures r.Some? ==>
      r.value.operation == fault.operation && r.value.faultType == fault.faultType &&
      r.value.persistent == fault.persistent && r.value.blockSize == blockSize
    ensures r.Some? ==> (r.value.hashType.Some? <==> fault.mode != FBD_MODE_BLOCK)
    ensures r.Some? && r.value.hashType.Some? ==> r.value.hashType.value == FBD_HASH_XXH3_128
    ensures r.Some? && r.value.extra.Some? ==> fault.faultType == FBD_FAULT_SLOW_DISK && r.value.extra == fault.extra
    ensures r.Some? && fault.faultType == FBD_FAULT_SLOW_DISK ==> r.value.extra == fault.extra
    ensures r.Some? && fault.mode == FBD_MODE_BLOCK ==> r.value.target == ByOffset(offset)
    ensures fault.mode == FBD_MODE_HASH ==> r.value.target == ByContent(bl)
    ensures fault.mode == FBD_MODE_DEDUP ==> r.value.target == ByDedupContent(bl)
  {
    var extra := if fault.faultType == FBD_FAULT_SLOW_DISK then fault.extra else None;
    if fault.mode == FBD_MODE_HASH then
      Some(FspRequest(ByContent(bl), blockSize, fault.operation, fault.faultType, fault.persistent, Some(FBD_HASH_XXH3_128), extra))
    else if fault.mode == FBD_MODE_BLOCK then
      Some(FspRequest(ByOffset(offset), blockSize, fault.operation, fault.faultType, fault.persistent, None, extra))
    else if fault.mode == FBD_MODE_DEDUP then
      Some(FspRequest(ByDedupContent(bl), blockSize, fault.operation, fault.faultType, fault.persistent, Some(FBD_HASH_XXH3_128), extra))
    else
      None
  }

  /** `struct faults_statistics`. */
  class FaultStatistics {
    var totFaultsInjected: u32
    var totFaultsDup: u32
    var totFailures: u32
    /** The content ids that received a fault. */
    var injectedFaults: set<u64>

    /** `init_fault_statistics`, on zeroed counters. */
    constructor ()
      ensures totFaultsInjected == totFaultsDup == totFailures == 0 && injectedFaults == {}
    {
      totFaultsInjected, totFaultsDup, totFailures := 0, 0, 0;
      injectedFaults := {};
    }

    /**
     * The bookkeeping of `inject_fault`: a positive answer other than a duplicate records the
     * content id and counts an injected fault; a duplicate counts an ignored one; errors count
     * nothing. The 32-bit counters wrap.
     */
    method Record(res: int, bl: Option<BlockInfo>)
      modifies this
      ensures res > 0 && res != FBD_STS_DUP_FAULT ==>
        totFaultsInjected == ToU32(old(totFaultsInjected) + 1) && totFaultsDup == old(totFaultsDup) &&
        injectedFaults == old(injectedFaults) + (if bl.Some? then {bl.value.contId} else {})
      ensures res == FBD_STS_DUP_FAULT ==>
        totFaultsDup == ToU32(old(totFaultsDup) + 1) && totFaultsInjected == old(totFaultsInjected) &&
        injectedFaults == old(injectedFaults)
      ensures res <= 0 ==>
        totFaultsInjected == old(totFaultsInjected) && totFaultsDup == old(totFaultsDup) &&
        injectedFaults == old(injectedFaults)
      ensures totFailures == old(totFailures)
    {
      if res > 0 && res != FBD_STS_DUP_FAULT {
        if bl.Some? {
          injectedFaults := injectedFaults + {bl.value.contId};
        }
        totFaultsInjected := ToU32(totFaultsInjected + 1);
      }
      if res > 0 && res == FBD_STS_DUP_FAULT {
        totFaultsDup := ToU32(totFaultsDup + 1);
      }
    }
  }

  /**
   * `inject_fault`: pick the target block `bl` as `NextFailure` does, send the request
   * `RequestFor` builds (the server's answer is the parameter `answer`), and count the result as
   * `Record` does; device and unknown modes answer FBD_STS_ERROR without a request.
   */
  method InjectFault(fault: FaultConf, dd: DedupTracker, blockSize: u32, rt: FaultRuntime,
                     stats: FaultStatistics, procid: int, offset: u64, answer: int)
    returns (bl: Option<BlockInfo>, request: Option<FspRequest>, exited: bool)
    requires rt.Valid() && 0 <= procid < rt.nprocs
    requires |dd.dedupWrites.arr| < 0x1_0000_0000 && |dd.uniqueWrites| < 0x1_0000_0000
    modifies rt`nuniqueInjected, stats
    ensures rt.Valid()
    ensures exited <==> fault.faultDist !in {DIST_GEN, NEXT_GEN, TOP_DUP, BOT_DUP, UNIQUE}
    // the block, as NextFailure picks it
    ensures fault.faultDist == DIST_GEN ==> bl == rt.lastBlock[procid]
    ensures fault.faultDist == NEXT_GEN ==> bl == rt.nextBlock[procid]
    ensures fault.faultDist == TOP_DUP ==>
      bl == InfoOf(NthMore(dd.dedupWrites.arr,
        if rt.avoidRepeatFaults then FirstFresh(dd.dedupWrites.arr, old(stats.injectedFaults)) else 0))
    ensures fault.faultDist == BOT_DUP ==> bl == InfoOf(NthLess(dd.dedupWrites.arr, 0))
    ensures fault.faultDist == UNIQUE ==>
      bl == NthUnique(dd.uniqueWrites, UniqueIndex(|dd.uniqueWrites|, old(rt.nuniqueInjected))) &&
      rt.nuniqueInjected == old(rt.nuniqueInjected) + 1
    ensures fault.faultDist != UNIQUE ==> rt.nuniqueInjected == old(rt.nuniqueInjected)
    // the request
    ensures exited ==> request == None
    ensures !exited ==> request == RequestFor(fault, bl, blockSize, offset)
    // the bookkeeping
    ensures request.Some? && answer > 0 && answer != FBD_STS_DUP_FAULT ==>
      stats.totFaultsInjected == ToU32(old(stats.totFaultsInjected) + 1) &&
      stats.totFaultsDup == old(stats.totFaultsDup) &&
      stats.injectedFaults == old(stats.injectedFaults) + (if bl.Some? then {bl.value.contId} else {})
    ensures request.Some? && answer == FBD_STS_DUP_FAULT ==>
      stats.totFaultsDup == ToU32(old(stats.totFaultsDup) + 1) &&
      stats.totFaultsInjected == old(stats.totFaultsInjected) && stats.injectedFaults == old(stats.injectedFaults)
    ensures request.None? || answer <= 0 ==>
      stats.totFaultsInjected == old(stats.totFaultsInjected) && stats.totFaultsDup == old(stats.totFaultsDup) &&
      stats.injectedFaults == old(stats.injectedFaults)
    ensures stats.totFailures == old(stats.totFailures)
  {
    bl, exited := NextFailure(fault.faultDist, dd, rt, stats.injectedFaults, procid);
    request := None;
    if exited {
      return;
    }
    request := RequestFor(fault, bl, blockSize, offset);
    var res := if request.Some? then answer else FBD_STS_ERROR;
    stats.Record(res, bl);
  }

  // ---------------------------------------------------------------------------------------------
  // The command-line fault list `type:target:when,type:target:when,...`

  /** The string cut at every separator, empty pieces included. */
  function Pieces(s: string, sep: char): (r: seq<string>)
    ensures |r| >= 1
    ensures forall p | p in r :: sep !in p
  {
    if s == [] then [[]]
    else
      var f := Pieces(s[..|s| - 1], sep);
      var c := s[|s| - 1];
      if c == sep then f + [[]] else f[..|f| - 1] + [f[|f| - 1] + [c]]
  }

  /** A string holds one more piece than separators. */
  lemma {:induction false} PiecesCount(s: string, sep: char)
    ensures |Pieces(s, sep)| == multiset(s)[sep] + 1
  {
    if s != [] {
      PiecesCount(s[..|s| - 1], sep);
      assert s == s[..|s| - 1] + [s[|s| - 1]];
      assert multiset(s) == multiset(s[..|s| - 1]) + multiset{s[|s| - 1]};
    }
  }

  /** The non-empty pieces, in order. */
  function NonEmpty(ps: seq<string>): (r: seq<string>)
    ensures |r| <= |ps|
    ensures forall p | p in r :: p != [] && p in ps
  {
    if ps == [] then []
    else if ps[0] == [] then NonEmpty(ps[1..])
    else [ps[0]] + NonEmpty(ps[1..])
  }

  /** `strtok` over ',': the non-empty pieces between commas. */
  function Tokens(s: string): (r: seq<string>)
    ensures |r| <= multiset(s)[','] + 1
    ensures forall t | t in r :: t != [] && ',' !in t
  {
    PiecesCount(s, ',');
    NonEmpty(Pieces(s, ','))
  }

  /** `fault_split`'s count: the number of commas plus one. */
  method CountFaults(a: string) returns (n: int)
    ensures n == multiset(a)[','] + 1 == |Pieces(a, ',')|
  {
    n := 0;
    var i := 0;
    while i < |a|
      invariant 0 <= i <= |a| && n == multiset(a[..i])[',']
    {
      assert a[..i + 1] == a[..i] + [a[i]];
      if a[i] == ',' {
        n := n + 1;
      }
      i := i + 1;
    }
    assert a[..i] == a;
    n := n + 1;
    PiecesCount(a, ',');
  }

  /**
   * The state of the character loop of `fault_split`: how many ':' were seen, the write position,
   * and the characters written into the type, target and when buffers.
   */
  datatype FieldState = FieldState(sep: nat, iter: nat, faultType: string, dist: string, when: string)

  const FIELDS_START := FieldState(0, 0, [], [], [])

  /** Writing c at position iter of a buffer (writes only ever go one past its end). */
  function Put(buf: string, iter: nat, c: char): (r: string)
    ensures |r| == if iter < |buf| then |buf| else |buf| + 1
  {
    if iter < |buf| then buf[iter := c] else buf + [c]
  }

  /**
   * One character of the loop. ':' moves to the next field; any other character goes into the
   * current field's buffer. As written, the target case has no `break`, so a target character
   * also goes into the when buffer.
   */
  function Step(st: FieldState, c: char, asWritten: bool): FieldState
  {
    if c == ':' then st.(sep := st.sep + 1, iter := 0)
    else if st.sep == 0 then st.(faultType := Put(st.faultType, st.iter, c), iter := st.iter + 1)
    else if st.sep == 1 then
      st.(dist := Put(st.dist, st.iter, c),
          when := if asWritten then Put(st.when, st.iter, c) else st.when,
          iter := st.iter + 1)
    else st.(when := Put(st.when, st.iter, c), iter := st.iter + 1)
  }

  function Steps(st: FieldState, s: string, asWritten: bool): FieldState
  {
    if s == [] then st else Step(Steps(st, s[..|s| - 1], asWritten), s[|s| - 1], asWritten)
  }

  lemma {:induction false} StepsAppend(st: FieldState, x: string, y: string, asWritten: bool)
    ensures Steps(st, x + y, asWritten) == Steps(Steps(st, x, asWritten), y, asWritten)
  {
    if y != [] {
      var init, c := y[..|y| - 1], y[|y| - 1];
      assert (x + y)[..|x + y| - 1] == x + init;
      assert (x + y)[|x + y| - 1] == c;
      StepsAppend(st, x, init, asWritten);
      calc {
        Steps(st, x + y, asWritten);
        Step(Steps(st, x + init, asWritten), c, asWritten);
        Step(Steps(Steps(st, x, asWritten), init, asWritten), c, asWritten);
        Steps(Steps(st, x, asWritten), y, asWritten);
      }
    } else {
      assert x + y == x;
    }
  }

  /** The buffer the corrected loop writes in field number sep. */
  function Field(st: FieldState): string
  {
    if st.sep == 0 then st.faultType else if st.sep == 1 then st.dist else st.when
  }

  /** A field without ':' read into an empty buffer fills exactly that buffer. */
  lemma {:induction false} StepsField(st: FieldState, s: string)
    requires ':' !in s && st.iter == 0 && Field(st) == []
    ensures var r := Steps(st, s, false);
      r.sep == st.sep && r.iter == |s| && Field(r) == s &&
      (st.sep != 0 ==> r.faultType == st.faultType) &&
      (st.sep != 1 ==> r.dist == st.dist) &&
      (st.sep < 2 ==> r.when == st.when)
  {
    if s != [] {
      StepsField(st, s[..|s| - 1]);
      assert s[|s| - 1] in s;
      assert s == s[..|s| - 1] + [s[|s| - 1]];
    }
  }

  /** The type, target and when strings of one fault, with the `break` in place. */
  function FieldsOf(token: string): (string, string, string)
  {
    var st := Steps(FIELDS_START, token, false);
    (st.faultType, st.dist, st.when)
  }

  /** The same, as written. */
  function FieldsAsWritten(token: string): (string, string, string)
  {
    var st := Steps(FIELDS_START, token, true);
    (st.faultType, st.dist, st.when)
  }

  /** `type:target:when` splits into its three parts. */
  lemma FieldsOfThree(t: string, d: string, w: string)
    requires ':' !in t && ':' !in d && ':' !in w
    ensures FieldsOf(t + [':'] + d + [':'] + w) == (t, d, w)
  {
    var s0 := Steps(FIELDS_START, t, false);
    StepsField(FIELDS_START, t);
    var s1 := Step(s0, ':', false);
    assert Steps(s0, [':'], false) == s1;
    var s2 := Steps(s1, d, false);
    StepsField(s1, d);
    var s3 := Step(s2, ':', false);
    assert Steps(s2, [':'], false) == s3;
    StepsField(s3, w);
    StepsAppend(FIELDS_START, t, [':'], false);
    StepsAppend(FIELDS_START, t + [':'], d, false);
    StepsAppend(FIELDS_START, t + [':'] + d, [':'], false);
    StepsAppend(FIELDS_START, t + [':'] + d + [':'], w, false);
  }

  /** As written, a target longer than the when value leaks its tail into when: `1:25:3` fires at 35. */
  lemma TargetLeaksIntoWhen()
    ensures FieldsAsWritten("1:25:3") == ("1", "25", "35")
    ensures FieldsOf("1:25:3") == ("1", "25", "3")
  {
    FieldsOfThree("1", "25", "3");
    assert "1" + [':'] + "25" + [':'] + "3" == "1:25:3";
    LeakPrefix();
    StepsSnoc("1:25:", '3', true);
    assert "1:25:" + ['3'] == "1:25:3";
    assert "25"[0 := '3'] == "35";
  }

  /** As written, after `1:25:` the when buffer already holds the target's `25`. */
  lemma LeakPrefix()
    ensures Steps(FIELDS_START, "1:25:", true) == FieldState(2, 0, "1", "25", "25")
  {
    LeakTarget();
    StepsSnoc("1:25", ':', true);
    assert "1:25" + [':'] == "1:25:";
  }

  /** As written, the target `25` goes into both the target and the when buffers. */
  lemma LeakTarget()
    ensures Steps(FIELDS_START, "1:25", true) == FieldState(1, 2, "1", "25", "25")
  {
    LeakTargetStart();
    StepsSnoc("1:2", '5', true);
    assert "1:2" + ['5'] == "1:25";
    assert "2" + ['5'] == "25";
  }

  /** The target's first digit lands in both buffers. */
  lemma LeakTargetStart()
    ensures Steps(FIELDS_START, "1:2", true) == FieldState(1, 1, "1", "2", "2")
  {
    LeakType();
    StepsSnoc("1:", '2', true);
    assert "1:" + ['2'] == "1:2";
  }

  /** The type `1` and its separator. */
  lemma LeakType()
    ensures Steps(FIELDS_START, "1:", true) == FieldState(1, 0, "1", "", "")
  {
    StepsSnoc("", '1', true);
    assert [] + ['1'] == "1";
    StepsSnoc("1", ':', true);
    assert "1" + [':'] == "1:";
  }

  /** Reading one more character is one more step. */
  lemma StepsSnoc(s: string, c: char, asWritten: bool)
    ensures Steps(FIELDS_START, s + [c], asWritten) == Step(Steps(FIELDS_START, s, asWritten), c, asWritten)
  {
    assert (s + [c])[..|s|] == s;
  }

  /**
   * The character loop of `fault_split` for one fault, with the `break` after the target case:
   * the type, target and when strings.
   */
  method SplitFields(token: string) returns (faultType: string, dist: string, when: string)
    ensures (faultType, dist, when) == FieldsOf(token)
  {
    var sep, iter := 0, 0;
    faultType, dist, when := [], [], [];
    var i := 0;
    while i < |token|
      invariant 0 <= i <= |token|
      invariant FieldState(sep, iter, faultType, dist, when) == Steps(FIELDS_START, token[..i], false)
    {
      assert token[..i + 1][..i] == token[..i];
      var c := token[i];
      if c == ':' {
        sep := sep + 1;
        iter := 0;
      } else {
        if sep == 0 {
          faultType := Put(faultType, iter, c);
        } else if sep == 1 {
          dist := Put(dist, iter, c);
        } else {
          when := Put(when, iter, c);
        }
        iter := iter + 1;
      }
      i := i + 1;
    }
    assert token[..i] == token;
  }

  /** The three numbers of one fault of the list. */
  datatype SplitFault = SplitFault(faultType: int, faultDist: int, when: u64)

  /** Why `fault_split` rejects a fault. */
  datatype SplitError = WhenZero | ContentDistributionOnRead

  /**
   * One fault of the list: a when of 0 is refused, and so is the content-generation target on a
   * read-only run (`readTest`, the configuration's I/O type being READ).
   */
  function ParseFault(token: string, readTest: bool): Result<SplitFault, SplitError>
  {
    var fields := FieldsOf(token);
    FaultOfFields(fields.0, fields.1, fields.2, readTest)
  }

  /** The checks and conversions of one fault's type, target and when strings. */
  function FaultOfFields(t: string, d: string, w: string, readTest: bool): Result<SplitFault, SplitError>
  {
    if Atoi(w) == 0 then Err(WhenZero)
    else if Atoi(d) == DIST_GEN && readTest then Err(ContentDistributionOnRead)
    else Ok(SplitFault(Atoi(t), Atoi(d), ToU64(Atoi(w))))
  }

  /** A fault written out in decimal as `type:target:when` reads back as itself. */
  lemma ParseFaultFormatted(t: nat, d: nat, w: nat, readTest: bool)
    requires 0 < w < 0x1_0000_0000_0000_0000
    requires !(d == DIST_GEN && readTest)
    ensures ParseFault(Format(t) + [':'] + Format(d) + [':'] + Format(w), readTest) == Ok(SplitFault(t, d, w))
  {
    var ft, fd, fw := Format(t), Format(d), Format(w);
    DigitsHaveNoColon(ft);
    DigitsHaveNoColon(fd);
    DigitsHaveNoColon(fw);
    var token := ft + [':'] + fd + [':'] + fw;
    FieldsOfThree(ft, fd, fw);
    assert FieldsOf(token) == (ft, fd, fw);
    AtoiFormat(t);
    AtoiFormat(d);
    AtoiFormat(w);
    assert Atoi(fw) == w != 0;
    assert !(Atoi(fd) == DIST_GEN && readTest);
    ParseFaultOfFields(token, ft, fd, fw, readTest);
    FitsUnchanged(w);
  }

  lemma ParseFaultOfFields(token: string, t: string, d: string, w: string, readTest: bool)
    requires FieldsOf(token) == (t, d, w)
    ensures ParseFault(token, readTest) == FaultOfFields(t, d, w, readTest)
  {
  }

  lemma DigitsHaveNoColon(s: string)
    requires AllDigits(s)
    ensures ':' !in s
  {
    forall k | 0 <= k < |s| ensures s[k] != ':' {
      assert IsDigit(s[k]);
    }
  }

  /** The body of `fault_split`'s token loop: one fault's fields, checked and converted. */
  method SplitOne(token: string, readTest: bool) returns (r: Result<SplitFault, SplitError>)
    ensures r == ParseFault(token, readTest)
  {
    var t, d, w := SplitFields(token);
    ParseFaultOfFields(token, t, d, w, readTest);
    if Atoi(w) == 0 {
      return Err(WhenZero);
    }
    if Atoi(d) == DIST_GEN && readTest {
      return Err(ContentDistributionOnRead);
    }
    r := Ok(SplitFault(Atoi(t), Atoi(d), ToU64(Atoi(w))));
  }

  /** How one fault of the list is read. */
  type FaultParser = string -> Result<SplitFault, SplitError>

  /** All faults of a list read with parse, or the error of the first one refused. */
  function ParseWith(tokens: seq<string>, parse: FaultParser): Result<seq<SplitFault>, SplitError>
  {
    if tokens == [] then Ok([])
    else
      var first := parse(tokens[0]);
      if first.Err? then Err(first.error)
      else Prefixed([first.value], ParseWith(tokens[1..], parse))
  }

  /** All faults of the list, or the error of the first one refused. */
  function ParseAll(tokens: seq<string>, readTest: bool): Result<seq<SplitFault>, SplitError>
  {
    ParseWith(tokens, t => ParseFault(t, readTest))
  }

  /** A result with faults put in front of its list, errors unchanged. */
  function Prefixed(p: seq<SplitFault>, r: Result<seq<SplitFault>, SplitError>): Result<seq<SplitFault>, SplitError>
  {
    if r.Ok? then Ok(p + r.value) else r
  }

  lemma {:induction false} ParseWithAccepts(tokens: seq<string>, parse: FaultParser)
    requires ParseWith(tokens, parse).Ok?
    ensures |ParseWith(tokens, parse).value| == |tokens|
    ensures forall i | 0 <= i < |tokens| :: parse(tokens[i]) == Ok(ParseWith(tokens, parse).value[i])
  {
    if tokens != [] {
      ParseWithAccepts(tokens[1..], parse);
      var all := ParseWith(tokens, parse).value;
      forall i | 0 <= i < |tokens| ensures parse(tokens[i]) == Ok(all[i]) {
        if i > 0 {
          assert tokens[i] == tokens[1..][i - 1];
        }
      }
    }
  }

  lemma {:induction false} ParseWithRefuses(tokens: seq<string>, parse: FaultParser)
    ensures ParseWith(tokens, parse).Err? <==> exists i | 0 <= i < |tokens| :: parse(tokens[i]).Err?
  {
    if tokens != [] {
      ParseWithRefuses(tokens[1..], parse);
      if parse(tokens[0]).Ok? {
        if ParseWith(tokens[1..], parse).Err? {
          var k :| 0 <= k < |tokens[1..]| && parse(tokens[1..][k]).Err?;
          assert tokens[1..][k] == tokens[k + 1];
        }
        forall i | 0 <= i < |tokens| && parse(tokens[i]).Err?
          ensures exists k | 0 <= k < |tokens[1..]| :: parse(tokens[1..][k]).Err?
        {
          assert tokens[1..][i - 1] == tokens[i];
        }
      }
    }
  }

  /** The whole list is accepted exactly when every fault is, and then each in its place. */
  lemma ParseAllAccepts(tokens: seq<string>, readTest: bool)
    requires ParseAll(tokens, readTest).Ok?
    ensures |ParseAll(tokens, readTest).value| == |tokens|
    ensures forall i | 0 <= i < |tokens| :: ParseFault(tokens[i], readTest) == Ok(ParseAll(tokens, readTest).value[i])
  {
    ParseWithAccepts(tokens, t => ParseFault(t, readTest));
  }

  /** The list is refused exactly when one of its faults is. */
  lemma ParseAllRefuses(tokens: seq<string>, readTest: bool)
    ensures ParseAll(tokens, readTest).Err? <==> exists i | 0 <= i < |tokens| :: ParseFault(tokens[i], readTest).Err?
  {
    var parse: FaultParser := t => ParseFault(t, readTest);
    ParseWithRefuses(tokens, parse);
    assert forall i | 0 <= i < |tokens| :: parse(tokens[i]) == ParseFault(tokens[i], readTest);
  }

  /** ParseAll on a suffix of the list reads its first fault, then the rest. */
  lemma ParseAllFrom(tokens: seq<string>, i: nat, readTest: bool)
    requires i < |tokens|
    ensures var first := ParseFault(tokens[i], readTest);
      ParseAll(tokens[i..], readTest) ==
        if first.Err? then Err(first.error) else Prefixed([first.value], ParseAll(tokens[i + 1..], readTest))
  {
    assert tokens[i..][0] == tokens[i] && tokens[i..][1..] == tokens[i + 1..];
  }

  lemma PrefixedTwice(p: seq<SplitFault>, x: SplitFault, r: Result<seq<SplitFault>, SplitError>)
    ensures Prefixed(p, Prefixed([x], r)) == Prefixed(p + [x], r)
  {
    if r.Ok? {
      assert p + ([x] + r.value) == (p + [x]) + r.value;
    }
  }

  lemma PrefixedNothing(r: Result<seq<SplitFault>, SplitError>)
    ensures Prefixed([], r) == r
  {
    if r.Ok? {
      assert [] + r.value == r.value;
    }
  }

  /** The token loop of `fault_split`: stop at the first refused fault (failed). */
  method SplitAll(tokens: seq<string>, readTest: bool) returns (failed: bool, fconf: seq<SplitFault>)
    ensures failed <==> ParseAll(tokens, readTest).Err?
    ensures !failed ==> ParseAll(tokens, readTest) == Ok(fconf)
  {
    fconf := [];
    var i := 0;
    PrefixedNothing(ParseAll(tokens, readTest));
    assert tokens[i..] == tokens;
    while i < |tokens|
      invariant 0 <= i <= |tokens|
      invariant ParseAll(tokens, readTest) == Prefixed(fconf, ParseAll(tokens[i..], readTest))
    {
      var r := SplitOne(tokens[i], readTest);
      ParseAllFrom(tokens, i, readTest);
      if r.Err? {
        return true, fconf;
      }
      PrefixedTwice(fconf, r.value, ParseAll(tokens[i + 1..], readTest));
      fconf := fconf + [r.value];
      i := i + 1;
    }
    assert fconf + [] == fconf;
    failed := false;
  }

  /**
   * `fault_split`: the count of faults (commas plus one) and the parsed faults, one per
   * non-empty piece; -1 as soon as one is refused.
   */
  method FaultSplit(a: string, readTest: bool) returns (n: int, fconf: seq<SplitFault>)
    ensures n == -1 <==> ParseAll(Tokens(a), readTest).Err?
    ensures n != -1 ==> n == multiset(a)[','] + 1 && ParseAll(Tokens(a), readTest) == Ok(fconf)
  {
    var count := CountFaults(a);
    var failed;
    failed, fconf := SplitAll(Tokens(a), readTest);
    n := if failed then -1 else count;
  }
}
