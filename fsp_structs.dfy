/**
 * The requests of fbdd's fault-injection socket protocol (fbdd/fsocket/fsp_structs.h and
 * fbdd/fsocket/fsp_structs.c). A request names an operation mask, a fault kind, a mode and
 * whether the fault is persistent; the mode selects which member of a union carries the key (a
 * block interval, or a hash type and a digest); a 64-byte argument field carries extra data, such
 * as the delay of a slow-disk fault.
 */
module FspStructs {
  import opened CTypes
  import opened FbdDefines
  import opened FbdStructs

  /** The size of a request's `args` field. */
  const ARGS_CAPACITY: nat := 64

  /** A digest field that `bzero` cleared. */
  const ZERO_HASH: HashBytes := seq(17, _ => 0)

  /**
   * A request as the server reads it: the fixed fields, both readings of the mode union (the
   * block interval, and the hash type with the digest bytes) and the whole argument field.
   */
  datatype RequestView = RequestView(
    operation: u8, fault: u8, mode: u8, persistent: bool,
    blockSize: u32, blockOffset: u64, hashType: u8, hash: HashBytes,
    argsSize: u32, args: seq<u8>)

  // ---------------------------------------------------------------------------------------------
  // Byte order of the argument field

  /** The `n` bytes of `x` in memory order on a little-endian machine. */
  function LeBytes(x: nat, n: nat): (bs: seq<u8>)
    ensures |bs| == n
  {
    if n == 0 then [] else [x % 0x100] + LeBytes(x / 0x100, n - 1)
  }

  /** The unsigned number whose little-endian bytes are `bs`. */
  function LeValue(bs: seq<u8>): nat
  {
    if bs == [] then 0 else bs[0] + 0x100 * LeValue(bs[1..])
  }

  /** `n` bytes hold every value below 256^n. */
  function Pow256(n: nat): (p: nat)
    ensures p >= 1
  {
    if n == 0 then 1 else 0x100 * Pow256(n - 1)
  }

  /** Reading back `n` bytes written little-endian gives the value again, when it fits. */
  lemma {:induction false} LeRoundTrip(x: nat, n: nat)
    requires x < Pow256(n)
    ensures LeValue(LeBytes(x, n)) == x
  {
    if n > 0 {
      LeRoundTrip(x / 0x100, n - 1);
      assert LeBytes(x, n)[1..] == LeBytes(x / 0x100, n - 1);
    }
  }

  /** A value read from `|bs|` bytes fits in them. */
  lemma {:induction false} LeValueBound(bs: seq<u8>)
    ensures LeValue(bs) < Pow256(|bs|)
  {
    if bs != [] {
      LeValueBound(bs[1..]);
    }
  }

  /** A `uint64_t` spans eight bytes. */
  lemma Pow256Eight()
    ensures Pow256(8) == 0x1_0000_0000_0000_0000
  {
  }

  /** How a client sends a slow-disk delay: the eight bytes of the `uint64_t`, so `args_size` 8. */
  function DelayArgs(ms: u64): (bs: seq<u8>)
    ensures |bs| == 8
  {
    LeBytes(ms, 8)
  }

  /**
   * What the server takes as a slow-disk fault's delay: the first `uint64_t` of the argument
   * field, whatever `args_size` says.
   */
  function SlowDiskDelay(args: seq<u8>): (ms: u64)
    requires |args| == ARGS_CAPACITY
  {
    LeValueBound(args[..8]);
    Pow256Eight();
    LeValue(args[..8])
  }

  /** A delay sent as its eight bytes is read back unchanged. */
  lemma DelayRoundTrip(ms: u64, rest: seq<u8>)
    requires |rest| == ARGS_CAPACITY - 8
    ensures SlowDiskDelay(DelayArgs(ms) + rest) == ms
  {
    Pow256Eight();
    assert (DelayArgs(ms) + rest)[..8] == DelayArgs(ms);
    LeRoundTrip(ms, 8);
  }

  // ---------------------------------------------------------------------------------------------
  // Building a request

  /** `struct fsp_request`, built on the client side by the `fsp_new_request_*` functions. */
  class Request {
    var operation: u8
    var fault: u8
    var mode: u8
    var persistent: bool
    var blockSize: u32
    var blockOffset: u64
    var hashType: u8
    var hash: HashBytes
    var argsSize: u32
    const args: array<u8>

    function View(): (v: RequestView)
      reads this, args
      ensures v.args == args[..] && v.mode == mode && v.argsSize == argsSize
    {
      RequestView(operation, fault, mode, persistent, blockSize, blockOffset, hashType, hash, argsSize, args[..])
    }

    /**
     * `fsp_new_request`: the operation, the fault kind and persistence are set and the mode
     * union is zeroed. The mode and the argument bytes are not initialised by the source; here
     * they start as zero.
     */
    constructor (operation: u8, fault: u8, persistent: bool)
      ensures this.operation == operation && this.fault == fault && this.persistent == persistent
      ensures blockSize == 0 && blockOffset == 0 && hashType == 0 && hash == ZERO_HASH
      ensures args.Length == ARGS_CAPACITY && fresh(args)
    {
      this.operation := operation;
      this.fault := fault;
      this.persistent := persistent;
      mode := 0;
      blockSize := 0;
      blockOffset := 0;
      hashType := 0;
      hash := ZERO_HASH;
      argsSize := 0;
      args := new u8[ARGS_CAPACITY](_ => 0);
    }

    /**
     * `fsp_set_request_args`: records the size, writes a NUL just after the copied bytes when
     * there is room, and copies `argsSize` bytes of `data`. The source does not check the size
     * against the 64-byte field; a caller must keep to it.
     */
    method SetArgs(data: seq<u8>, argsSize: u32)
      requires args.Length == ARGS_CAPACITY && argsSize <= ARGS_CAPACITY && argsSize <= |data|
      modifies this`argsSize, args
      ensures this.argsSize == argsSize
      ensures args[..argsSize] == data[..argsSize]
      ensures argsSize < ARGS_CAPACITY ==> args[argsSize] == 0
      ensures forall k :: argsSize < k < ARGS_CAPACITY ==> args[k] == old(args[k])
    {
      this.argsSize := argsSize;
      if argsSize < ARGS_CAPACITY {
        args[argsSize] := 0;
      }
      forall k | 0 <= k < argsSize {
        args[k] := data[k];
      }
    }

    /** `fsp_new_request_block_ptr`: block mode, with the interval's size and offset. */
    method SetBlock(size: u32, offset: u64)
      modifies this`mode, this`blockSize, this`blockOffset
      ensures mode == FBD_MODE_BLOCK && blockSize == size && blockOffset == offset
    {
      mode := FBD_MODE_BLOCK;
      blockSize := size;
      blockOffset := offset;
    }

    /**
     * `fsp_new_request_hash_ptr`: records the hash type and, for MD5 and XXH3-128, the 16-byte
     * `digest` of the request's content under that function (computed by OpenSSL or xxHash,
     * which are not part of this model). MD5 also writes the NUL after the digest; XXH3 leaves
     * byte 16 as it was; another hash type stores no digest.
     */
    method SetHash(hashType: u8, digest: seq<u8>)
      requires |digest| == 16
      modifies this`hashType, this`hash
      ensures this.hashType == hashType
      ensures KnownHashType(hashType) ==> hash[..16] == digest
      ensures hashType == FBD_HASH_MD5 ==> hash[16] == 0
      ensures hashType != FBD_HASH_MD5 ==> hash[16] == old(hash[16])
      ensures !KnownHashType(hashType) ==> hash == old(hash)
    {
      this.hashType := hashType;
      if hashType == FBD_HASH_MD5 {
        hash := digest + [0];
      } else if hashType == FBD_HASH_XXH3_128 {
        hash := digest + [hash[16]];
      }
    }
  }

  /** `fsp_new_request_block`: a fault on the block interval of `size` bytes at `offset`. */
  method NewBlockRequest(operation: u8, fault: u8, size: u32, offset: u64, persistent: bool,
                         data: seq<u8>, argsSize: u32) returns (r: Request)
    requires argsSize <= ARGS_CAPACITY && argsSize <= |data|
    ensures fresh(r) && fresh(r.args)
    ensures var v := r.View();
      && |v.args| == ARGS_CAPACITY
      && v.operation == operation && v.fault == fault && v.persistent == persistent
      && v.mode == FBD_MODE_BLOCK && v.blockSize == size && v.blockOffset == offset
      && v.argsSize == argsSize && v.args[..argsSize] == data[..argsSize]
      && (argsSize < ARGS_CAPACITY ==> v.args[argsSize] == 0)
  {
    r := new Request(operation, fault, persistent);
    r.SetBlock(size, offset);
    r.SetArgs(data, argsSize);
  }

  /**
   * `fsp_new_request_hash` (mode HASH) and `fsp_new_request_dedup` (mode DEDUP): both store the
   * hash the same way.
   */
  method NewHashRequest(operation: u8, fault: u8, dedup: bool, digest: seq<u8>, persistent: bool,
                        hashType: u8, data: seq<u8>, argsSize: u32) returns (r: Request)
    requires |digest| == 16 && argsSize <= ARGS_CAPACITY && argsSize <= |data|
    ensures fresh(r) && fresh(r.args)
    ensures var v := r.View();
      && |v.args| == ARGS_CAPACITY
      && v.operation == operation && v.fault == fault && v.persistent == persistent
      && v.mode == (if dedup then FBD_MODE_DEDUP else FBD_MODE_HASH) && v.hashType == hashType
      && v.hash == (if KnownHashType(hashType) then digest + [0] else ZERO_HASH)
      && v.argsSize == argsSize && v.args[..argsSize] == data[..argsSize]
      && (argsSize < ARGS_CAPACITY ==> v.args[argsSize] == 0)
  {
    r := new Request(operation, fault, persistent);
    r.mode := if dedup then FBD_MODE_DEDUP else FBD_MODE_HASH;
    r.SetHash(hashType, digest);
    r.SetArgs(data, argsSize);
    assert KnownHashType(hashType) ==> r.hash == r.hash[..16] + [r.hash[16]];
  }

  /** `fsp_new_request_device`: a fault on the whole device; the union stays zeroed. */
  method NewDeviceRequest(operation: u8, fault: u8, persistent: bool, data: seq<u8>, argsSize: u32)
    returns (r: Request)
    requires argsSize <= ARGS_CAPACITY && argsSize <= |data|
    ensures fresh(r) && fresh(r.args)
    ensures var v := r.View();
      && |v.args| == ARGS_CAPACITY
      && v.operation == operation && v.fault == fault && v.persistent == persistent
      && v.mode == FBD_MODE_DEVICE && v.blockSize == 0 && v.blockOffset == 0 && v.hash == ZERO_HASH
      && v.argsSize == argsSize && v.args[..argsSize] == data[..argsSize]
      && (argsSize < ARGS_CAPACITY ==> v.args[argsSize] == 0)
  {
    r := new Request(operation, fault, persistent);
    r.mode := FBD_MODE_DEVICE;
    r.SetArgs(data, argsSize);
  }

  /**
   * A slow-disk request built with the delay's eight bytes as its arguments carries that delay
   * to the server.
   */
  method NewSlowDiskBlockRequest(operation: u8, size: u32, offset: u64, persistent: bool, ms: u64)
    returns (r: Request)
    ensures fresh(r)
    ensures var v := r.View();
      && v.fault == FBD_FAULT_SLOW_DISK && v.mode == FBD_MODE_BLOCK
      && |v.args| == ARGS_CAPACITY && SlowDiskDelay(v.args) == ms
  {
    r := NewBlockRequest(operation, FBD_FAULT_SLOW_DISK, size, offset, persistent, DelayArgs(ms), 8);
    var v := r.View();
    assert v.args == DelayArgs(ms) + v.args[8..];
    DelayRoundTrip(ms, v.args[8..]);
  }
}
