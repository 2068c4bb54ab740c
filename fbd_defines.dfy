/**
 * fbdd's shared codes (fbdd/fbd_defines.h) and the tables that name them (fbdd/fbd_defines.c):
 * the operations a fault applies to, the fault kinds, the ways a fault selects blocks (its
 * mode), the status codes of the fault-injection protocol and the hash functions.
 */
module FbdDefines {

  // Operations, as a bit mask: WRITE_READ is WRITE | READ.
  const FBD_OP_NONE: int := 0
  const FBD_OP_WRITE: int := 1
  const FBD_OP_READ: int := 2
  const FBD_OP_WRITE_READ: int := 3

  // Modes.
  const FBD_MODE_BLOCK: int := 0
  const FBD_MODE_HASH: int := 1
  const FBD_MODE_DEDUP: int := 2
  /** Turned into a block fault covering the whole device when the request is handled. */
  const FBD_MODE_DEVICE: int := 3
  /** Removes every fault defined so far. */
  const FBD_MODE_RESET_ALL: int := 4

  // Fault kinds.
  const FBD_FAULT_NONE: int := 0
  const FBD_FAULT_BIT_FLIP: int := 1
  const FBD_FAULT_SLOW_DISK: int := 2
  const FBD_FAULT_MEDIUM: int := 3

  // Status codes.
  const FBD_STS_CONN_CLOSED: int := 0
  const FBD_STS_CACHE_NOT_FOUND: int := 0
  const FBD_STS_OK: int := 1
  const FBD_STS_ERROR: int := -1
  const FBD_STS_NOT_FOUND: int := -2
  const FBD_STS_SEND_FAILED: int := -3
  const FBD_STS_WRONG_INPUT: int := -4
  const FBD_STS_DUP_FAULT: int := 2
  const FBD_STS_MEDIUM_ERROR: int := -5
  const FBD_STS_WRONG_MODE: int := -6
  const FBD_STS_INVALID_MODE: int := -7
  const FBD_STS_RECV_FAILED: int := -8
  const FBD_STS_INVALID_HASH_TYPE: int := -9

  /** The number of faults one range can hold. */
  const MAX_FAULTS: nat := 3

  // Hash functions.
  const FBD_HASH_MD5: int := 0
  const FBD_HASH_XXH3_128: int := 1
  const FBD_HASH_MURMUR_x86_128: int := 2

  const NOT_FOUND: string := "not_found"

  /** C's `a & b` on the two-bit operation masks. */
  function OpAnd(a: int, b: int): (r: int)
    requires 0 <= a <= 3 && 0 <= b <= 3
    ensures 0 <= r <= 3
    ensures r % 2 == (if a % 2 == 1 && b % 2 == 1 then 1 else 0)
    ensures r / 2 == (if a / 2 == 1 && b / 2 == 1 then 1 else 0)
  {
    (if a % 2 == 1 && b % 2 == 1 then 1 else 0) + (if a / 2 == 1 && b / 2 == 1 then 2 else 0)
  }

  /** A fault for WRITE_READ matches both a read and a write; NONE matches nothing. */
  lemma OperationMasks()
    ensures OpAnd(FBD_OP_WRITE_READ, FBD_OP_READ) != 0 && OpAnd(FBD_OP_WRITE_READ, FBD_OP_WRITE) != 0
    ensures OpAnd(FBD_OP_READ, FBD_OP_WRITE) == 0 && OpAnd(FBD_OP_WRITE, FBD_OP_READ) == 0
    ensures forall op :: 0 <= op <= 3 ==> OpAnd(FBD_OP_NONE, op) == 0
  {
  }

  /** `fbd_operation_to_string`. */
  function OperationToString(op: int): (s: string)
    ensures s == NOT_FOUND <==> !(0 <= op <= 3)
  {
    if op == FBD_OP_NONE then "none"
    else if op == FBD_OP_READ then "read"
    else if op == FBD_OP_WRITE then "write"
    else if op == FBD_OP_WRITE_READ then "write/read"
    else NOT_FOUND
  }

  /** `fbd_fault_to_string`; the bit flip's name is spelt "bit_blip". */
  function FaultToString(f: int): (s: string)
    ensures s == NOT_FOUND <==> !(0 <= f <= 3)
  {
    if f == FBD_FAULT_NONE then "none"
    else if f == FBD_FAULT_BIT_FLIP then "bit_blip"
    else if f == FBD_FAULT_MEDIUM then "medium_error"
    else if f == FBD_FAULT_SLOW_DISK then "slow_disk"
    else NOT_FOUND
  }

  /** `fbd_mode_to_string`. */
  function ModeToString(mode: int): (s: string)
    ensures s == NOT_FOUND <==> !(0 <= mode <= 4)
  {
    if mode == FBD_MODE_BLOCK then "block"
    else if mode == FBD_MODE_HASH then "hash"
    else if mode == FBD_MODE_DEDUP then "dedup"
    else if mode == FBD_MODE_DEVICE then "device"
    else if mode == FBD_MODE_RESET_ALL then "remove_faults"
    else NOT_FOUND
  }

  /** Every status code the protocol defines. */
  predicate IsStatus(res: int)
  {
    -9 <= res <= 2
  }

  const RESPONSE_NOT_FOUND: string := "Response code not found"

  /** `fbd_response_to_string`; 0 is both "connection closed" and "cache not found". */
  function ResponseToString(res: int): (s: string)
    ensures s == RESPONSE_NOT_FOUND <==> !IsStatus(res)
    ensures res == FBD_STS_CACHE_NOT_FOUND ==> s == "Connection closed"
  {
    if res == FBD_STS_CONN_CLOSED then "Connection closed"
    else if res == FBD_STS_OK then "OK"
    else if res == FBD_STS_DUP_FAULT then "Duplicated fault"
    else if res == FBD_STS_ERROR then "Error ocurred"
    else if res == FBD_STS_INVALID_MODE then "Unacceptale mode"
    else if res == FBD_STS_NOT_FOUND then "Fault not found"
    else if res == FBD_STS_MEDIUM_ERROR then "Medium error"
    else if res == FBD_STS_WRONG_MODE then "Not recognizable mode"
    else if res == FBD_STS_SEND_FAILED then "Error in sending request"
    else if res == FBD_STS_WRONG_INPUT then "Invalid inputs"
    else if res == FBD_STS_RECV_FAILED then "Error in receiving request"
    else if res == FBD_STS_INVALID_HASH_TYPE then "Invalid hash type"
    else RESPONSE_NOT_FOUND
  }

  /** Distinct operations, fault kinds and modes get distinct names: each table can be read back. */
  lemma NamesAreDistinct(a: int, b: int)
    requires a != b
    ensures 0 <= a <= 3 && 0 <= b <= 3 ==> OperationToString(a) != OperationToString(b)
    ensures 0 <= a <= 3 && 0 <= b <= 3 ==> FaultToString(a) != FaultToString(b)
    ensures 0 <= a <= 4 && 0 <= b <= 4 ==> ModeToString(a) != ModeToString(b)
  {
    assert "none"[0] != "read"[0] && "none"[0] != "write"[0] && "read"[0] != "write"[0];
    assert |"write"| != |"write/read"|;
    assert "none"[0] != "bit_blip"[0] && "none"[0] != "medium_error"[0] && "none"[0] != "slow_disk"[0];
    assert "bit_blip"[0] != "medium_error"[0] && "bit_blip"[0] != "slow_disk"[0];
    assert "medium_error"[0] != "slow_disk"[0];
    assert "block"[0] != "hash"[0] && "block"[0] != "dedup"[0] && "block"[0] != "device"[0];
    assert "block"[0] != "remove_faults"[0] && "hash"[0] != "dedup"[0] && "hash"[0] != "device"[0];
    assert "hash"[0] != "remove_faults"[0] && "dedup"[2] != "device"[2] && "dedup"[0] != "remove_faults"[0];
    assert "device"[0] != "remove_faults"[0];
  }

  /**
   * Reads a status code back from its message: the length and the first character of the
   * message are enough to tell the twelve messages apart.
   */
  function ResponseFromString(s: string): (res: int)
  {
    if |s| == 0 then FBD_STS_ERROR - 100
    else match (|s|, s[0])
      case (17, 'C') => FBD_STS_CONN_CLOSED
      case (2, 'O') => FBD_STS_OK
      case (16, 'D') => FBD_STS_DUP_FAULT
      case (13, 'E') => FBD_STS_ERROR
      case (16, 'U') => FBD_STS_INVALID_MODE
      case (15, 'F') => FBD_STS_NOT_FOUND
      case (12, 'M') => FBD_STS_MEDIUM_ERROR
      case (21, 'N') => FBD_STS_WRONG_MODE
      case (24, 'E') => FBD_STS_SEND_FAILED
      case (14, 'I') => FBD_STS_WRONG_INPUT
      case (26, 'E') => FBD_STS_RECV_FAILED
      case (17, 'I') => FBD_STS_INVALID_HASH_TYPE
      case _ => FBD_STS_ERROR - 100
  }

  /** Every status code's message reads back as that code, so distinct codes get distinct messages. */
  lemma ResponsesRoundTrip(res: int)
    requires IsStatus(res)
    ensures ResponseFromString(ResponseToString(res)) == res
    ensures forall other :: IsStatus(other) && other != res ==> ResponseToString(other) != ResponseToString(res)
  {
    forall other | IsStatus(other) && other != res
      ensures ResponseToString(other) != ResponseToString(res)
    {
      ResponseReadsBack(other);
      ResponseReadsBack(res);
    }
    ResponseReadsBack(res);
  }

  lemma ResponseReadsBack(res: int)
    requires IsStatus(res)
    ensures ResponseFromString(ResponseToString(res)) == res
  {
  }
}
