/**
 * DEDISbench's fault definitions (dedisbench-private/benchcore/faults/fault.h and
 * dedisbench/benchcore/faults/configParserYaml.h): how a fault picks its target block, when it
 * fires (after a time or after a number of operations), and the per-process lists of fault
 * configurations with their cursors.
 */
module DedisFaultDefs {
  import opened CTypes
  import opened Wrappers

  // How a fault picks the block whose content it targets.
  const DIST_GEN: int := 0
  const TOP_DUP: int := 1
  const BOT_DUP: int := 2
  const UNIQUE: int := 3
  const NEXT_GEN: int := 4

  // What `when` counts.
  const TIME_F: int := 1
  const OPS_F: int := 2

  // What the `extra` of a configuration holds.
  const FAULT_CONF_EXTRA_NONE: int := 0
  const FAULT_CONF_EXTRA_TIME: int := 1
  const FAULT_CONF_EXTRA_TIME_DEFAULT: int := 1

  const MAX_KEY_STACK_SIZE: nat := 10

  /**
   * `struct fault_conf`. The `extra` pointer is None (NULL) or the delay it points to; `when` is
   * unsigned, so the -1 a reset stores reads as 2^64-1.
   */
  datatype FaultConf = FaultConf(
    mode: int,
    measure: int,
    when: u64,
    faultDist: int,
    faultType: int,
    persistent: bool,
    procId: int,
    operation: int,
    extraType: int,
    extra: Option<u32>)

  /** `struct sorted_fault_confs`: one process's faults by time and by operation count, with cursors. */
  datatype SortedFaultConfs = SortedFaultConfs(
    byTime: seq<FaultConf>,
    byOperation: seq<FaultConf>,
    itime: u32,
    ioperation: u32)

  const NO_FAULTS: SortedFaultConfs := SortedFaultConfs([], [], 0, 0)

  /** A list is in firing order: `when` never decreases along it. */
  predicate SortedByWhen(s: seq<FaultConf>)
  {
    forall i, j | 0 <= i < j < |s| :: s[i].when <= s[j].when
  }
}
