/**
 * The server side of fbdd's fault-injection socket (fbdd/fsocket/fsp_server.c): each request
 * received from a client is turned into a call of one of the registry's adders, or clears the
 * registry, and the status that call returns is sent back as the response.
 */
module FspServer {
  import opened CTypes
  import opened Wrappers
  import opened FbdDefines
  import opened FbdStructs
  import opened FspStructs

  /**
   * `fsp_hash_to_fbd_hash`: an MD5 digest is copied with its NUL, an XXH3-128 digest as its two
   * halves; the destination's 17th byte then keeps whatever it held (`stale`, an uninitialised
   * stack byte in the source). Any other hash type is refused.
   */
  function HashToFbdHash(hashType: u8, hash: HashBytes, stale: u8): (r: Result<HashBytes, int>)
    ensures r.Ok? <==> KnownHashType(hashType)
    ensures r.Err? ==> r.error == FBD_STS_INVALID_HASH_TYPE
    ensures r.Ok? ==> HashesMatch(r.value, hash)
    ensures r.Ok? && hashType == FBD_HASH_MD5 ==> r.value == hash
  {
    if hashType == FBD_HASH_MD5 then Ok(hash)
    else if hashType == FBD_HASH_XXH3_128 then
      var h: HashBytes := hash[..16] + [stale];
      assert h[..16] == hash[..16];
      Ok(h)
    else Err(FBD_STS_INVALID_HASH_TYPE)
  }

  /** The fault kinds a request may ask for. */
  predicate KnownFault(kind: u8)
  {
    kind == FBD_FAULT_BIT_FLIP || kind == FBD_FAULT_SLOW_DISK || kind == FBD_FAULT_MEDIUM
  }

  /**
   * The `switch` on the fault kind shared by the per-mode handlers: a known kind goes to its
   * adder (a slow disk with the delay taken from the arguments), any other is not found.
   */
  function AddedByKind(rs: seq<Range>, target: Target, req: RequestView): Addition
    requires |req.args| == ARGS_CAPACITY
  {
    if KnownFault(req.fault) then
      var delay := if req.fault == FBD_FAULT_SLOW_DISK then SlowDiskDelay(req.args) else 0;
      Added(rs, target, NewFault(req.operation, req.fault, req.persistent, delay))
    else Addition(FBD_STS_NOT_FOUND, rs)
  }

  /**
   * The block fault a device-mode request becomes: it starts at offset 0 and its size is the
   * device's size, passed through the adders' `uint32_t` size parameter.
   */
  function DeviceTarget(deviceSize: u64): (t: Target)
    ensures t.BlockTarget? && t.offset == 0
    ensures deviceSize < 0x1_0000_0000 ==> t.size == deviceSize
  {
    BlockTarget(ToU32(deviceSize), 0)
  }

  /** Whether the user enabled the given mode (RESET_ALL needs no setting). */
  predicate ModeEnabled(settings: UserSettings, mode: u8)
  {
    (mode == FBD_MODE_BLOCK && settings.blockMode) || (mode == FBD_MODE_HASH && settings.hashMode)
    || (mode == FBD_MODE_DEDUP && settings.dedupMode) || (mode == FBD_MODE_DEVICE && settings.deviceMode)
  }

  /** `handle_request` on a registry `rs`: the status to send and the registry afterwards. */
  function Handled(settings: UserSettings, deviceSize: u64, rs: seq<Range>, req: RequestView, stale: u8): Addition
    requires |req.args| == ARGS_CAPACITY
  {
    if req.mode == FBD_MODE_RESET_ALL then Addition(FBD_STS_OK, [])
    else if !ModeEnabled(settings, req.mode) then Addition(FBD_STS_INVALID_MODE, rs)
    else if req.mode == FBD_MODE_BLOCK then AddedByKind(rs, BlockTarget(req.blockSize, req.blockOffset), req)
    else if req.mode == FBD_MODE_DEVICE then AddedByKind(rs, DeviceTarget(deviceSize), req)
    else
      match HashToFbdHash(req.hashType, req.hash, stale)
      case Err(e) => Addition(e, rs)
      case Ok(h) => AddedByKind(rs, if req.mode == FBD_MODE_HASH then HashTarget(h) else DedupTarget(h), req)
  }

  // ---------------------------------------------------------------------------------------------
  // The handlers

  /** `handle_block_requests`. */
  method HandleBlockRequests(dev: FbdDevice, req: RequestView) returns (res: int)
    requires dev.Valid() && |req.args| == ARGS_CAPACITY
    modifies dev`ranges
    ensures dev.Valid()
    ensures Addition(res, dev.ranges) == AddedByKind(old(dev.ranges), BlockTarget(req.blockSize, req.blockOffset), req)
  {
    res := HandleKind(dev, BlockTarget(req.blockSize, req.blockOffset), req);
  }

  /**
   * `handle_hash_requests` (a `dedup` of false) and `handle_dedup_requests`: the digest is
   * converted first, and a refused hash type is the response.
   */
  method HandleHashRequests(dev: FbdDevice, req: RequestView, dedup: bool, stale: u8) returns (res: int)
    requires dev.Valid() && |req.args| == ARGS_CAPACITY
    modifies dev`ranges
    ensures dev.Valid()
    ensures Addition(res, dev.ranges) ==
      match HashToFbdHash(req.hashType, req.hash, stale)
      case Err(e) => Addition(e, old(dev.ranges))
      case Ok(h) => AddedByKind(old(dev.ranges), if dedup then DedupTarget(h) else HashTarget(h), req)
  {
    var converted := HashToFbdHash(req.hashType, req.hash, stale);
    if converted.Err? {
      return converted.error;
    }
    var h := converted.value;
    res := HandleKind(dev, if dedup then DedupTarget(h) else HashTarget(h), req);
  }

  /** `handle_device_requests`: a block fault from offset 0 over the device's size. */
  method HandleDeviceRequests(dev: FbdDevice, req: RequestView) returns (res: int)
    requires dev.Valid() && |req.args| == ARGS_CAPACITY
    modifies dev`ranges
    ensures dev.Valid()
    ensures Addition(res, dev.ranges) == AddedByKind(old(dev.ranges), DeviceTarget(dev.size), req)
  {
    res := HandleKind(dev, BlockTarget(ToU32(dev.size), 0), req);
  }

  /** The `switch (req->fault)` each handler ends with. */
  method HandleKind(dev: FbdDevice, target: Target, req: RequestView) returns (res: int)
    requires dev.Valid() && |req.args| == ARGS_CAPACITY
    modifies dev`ranges
    ensures dev.Valid()
    ensures Addition(res, dev.ranges) == AddedByKind(old(dev.ranges), target, req)
  {
    if req.fault == FBD_FAULT_BIT_FLIP {
      res := dev.AddBitFlipFault(target, req.operation, req.persistent);
    } else if req.fault == FBD_FAULT_SLOW_DISK {
      var ms := SlowDiskDelay(req.args);
      res := dev.AddSlowDiskFault(target, req.operation, req.persistent, ms);
    } else if req.fault == FBD_FAULT_MEDIUM {
      res := dev.AddMediumErrorFault(target, req.operation, req.persistent);
    } else {
      res := FBD_STS_NOT_FOUND;
    }
  }

  /** `handle_request`: dispatches on the mode, refusing a mode the user did not enable. */
  method HandleRequest(dev: FbdDevice, req: RequestView, stale: u8) returns (res: int)
    requires dev.Valid() && |req.args| == ARGS_CAPACITY
    modifies dev`ranges
    ensures dev.Valid()
    ensures Addition(res, dev.ranges) == Handled(dev.settings, dev.size, old(dev.ranges), req, stale)
    ensures old(dev.HashingDefined()) ==> dev.HashingDefined()
  {
    ghost var rs := dev.ranges;
    if BlockOnly(rs) && !(req.mode == FBD_MODE_HASH && dev.settings.hashMode)
      && !(req.mode == FBD_MODE_DEDUP && dev.settings.dedupMode) {
      HandledKeepsBlockOnly(dev.settings, dev.size, rs, req, stale);
    }
    if req.mode == FBD_MODE_BLOCK {
      if dev.settings.blockMode {
        res := HandleBlockRequests(dev, req);
      } else {
        res := FBD_STS_INVALID_MODE;
      }
    } else if req.mode == FBD_MODE_HASH {
      if dev.settings.hashMode {
        res := HandleHashRequests(dev, req, false, stale);
      } else {
        res := FBD_STS_INVALID_MODE;
      }
    } else if req.mode == FBD_MODE_DEDUP {
      if dev.settings.dedupMode {
        res := HandleHashRequests(dev, req, true, stale);
      } else {
        res := FBD_STS_INVALID_MODE;
      }
    } else if req.mode == FBD_MODE_DEVICE {
      if dev.settings.deviceMode {
        res := HandleDeviceRequests(dev, req);
      } else {
        res := FBD_STS_INVALID_MODE;
      }
    } else if req.mode == FBD_MODE_RESET_ALL {
      res := dev.RemoveAllFaults();
    } else {
      res := FBD_STS_INVALID_MODE;
    }
    assert !BlockOnly(rs) ==> exists k :: 0 <= k < |rs| && !rs[k].target.BlockTarget?;
  }

  /** Every request of a connection has the argument buffer the protocol fixes. */
  predicate WellSized(received: seq<RequestView>)
  {
    forall k :: 0 <= k < |received| ==> |received[k].args| == ARGS_CAPACITY
  }

  /**
   * A connection's requests handled in order from the registry `rs`: the response to each, and
   * the registry left behind.
   */
  function Served(settings: UserSettings, deviceSize: u64, rs: seq<Range>, received: seq<RequestView>, stale: u8)
    : (r: (seq<int>, seq<Range>))
    requires WellSized(received)
    ensures |r.0| == |received|
    decreases |received|
  {
    if received == [] then ([], rs)
    else
      var a := Handled(settings, deviceSize, rs, received[0], stale);
      var rest := Served(settings, deviceSize, a.ranges, received[1..], stale);
      ([a.status] + rest.0, rest.1)
  }

  /**
   * The inner loop of `fsp_startServer` on one connection: every request received before the
   * client closes it is handled in turn and answered with one response.
   */
  method ServeConnection(dev: FbdDevice, received: seq<RequestView>, stale: u8) returns (responses: seq<int>)
    requires dev.Valid() && WellSized(received)
    modifies dev`ranges
    ensures dev.Valid()
    ensures (responses, dev.ranges) == Served(dev.settings, dev.size, old(dev.ranges), received, stale)
    ensures forall k :: 0 <= k < |responses| ==> IsStatus(responses[k]) && -0x80 <= responses[k] < 0x80
  {
    responses := [];
    var n := 0;
    assert received[n..] == received;
    assert responses + Served(dev.settings, dev.size, dev.ranges, received, stale).0
      == Served(dev.settings, dev.size, dev.ranges, received, stale).0;
    while n < |received|
      invariant 0 <= n <= |received| && |responses| == n && dev.Valid()
      invariant var rest := Served(dev.settings, dev.size, dev.ranges, received[n..], stale);
        Served(dev.settings, dev.size, old(dev.ranges), received, stale) == (responses + rest.0, rest.1)
      invariant forall k :: 0 <= k < n ==> IsStatus(responses[k]) && -0x80 <= responses[k] < 0x80
    {
      ghost var rs := dev.ranges;
      assert received[n..][1..] == received[n + 1..] && received[n..][0] == received[n];
      var response := HandleRequest(dev, received[n], stale);
      HandledMeaning(dev.settings, dev.size, rs, received[n], stale);
      ghost var rest := Served(dev.settings, dev.size, dev.ranges, received[n + 1..], stale);
      assert Served(dev.settings, dev.size, rs, received[n..], stale) == ([response] + rest.0, rest.1);
      assert responses + ([response] + rest.0) == (responses + [response]) + rest.0;
      responses := responses + [response];
      n := n + 1;
    }
    assert received[n..] == [] && responses + [] == responses;
  }

  /**
   * The `k`-th response of a connection is the answer `handle_request` gives to the `k`-th
   * request on the registry the earlier requests left.
   */
  lemma {:induction false} ServedAt(settings: UserSettings, deviceSize: u64, rs: seq<Range>,
                                    received: seq<RequestView>, stale: u8, k: nat)
    requires WellSized(received) && k < |received|
    ensures Served(settings, deviceSize, rs, received, stale).0[k]
      == Handled(settings, deviceSize, Served(settings, deviceSize, rs, received[..k], stale).1, received[k], stale).status
    decreases k
  {
    var a := Handled(settings, deviceSize, rs, received[0], stale);
    if k > 0 {
      ServedAt(settings, deviceSize, a.ranges, received[1..], stale, k - 1);
      assert received[1..][..k - 1] == received[..k][1..];
      assert received[1..][k - 1] == received[k];
    }
  }

  /** Serving two runs of requests one after the other is serving them together. */
  lemma {:induction false} ServedConcat(settings: UserSettings, deviceSize: u64, rs: seq<Range>,
                                        p: seq<RequestView>, q: seq<RequestView>, stale: u8)
    requires WellSized(p) && WellSized(q)
    ensures WellSized(p + q)
    ensures var first := Served(settings, deviceSize, rs, p, stale);
      var second := Served(settings, deviceSize, first.1, q, stale);
      Served(settings, deviceSize, rs, p + q, stale) == (first.0 + second.0, second.1)
    decreases |p|
  {
    assert WellSized(p + q) by {
      forall k | 0 <= k < |p + q| ensures |(p + q)[k].args| == ARGS_CAPACITY {
        if k >= |p| { assert (p + q)[k] == q[k - |p|]; }
      }
    }
    if p == [] {
      var second := Served(settings, deviceSize, rs, q, stale);
      assert p + q == q && [] + second.0 == second.0;
    } else {
      var a := Handled(settings, deviceSize, rs, p[0], stale);
      ServedConcat(settings, deviceSize, a.ranges, p[1..], q, stale);
      assert (p + q)[1..] == p[1..] + q && (p + q)[0] == p[0];
      var first := Served(settings, deviceSize, a.ranges, p[1..], stale);
      var second := Served(settings, deviceSize, first.1, q, stale);
      assert [a.status] + (first.0 + second.0) == ([a.status] + first.0) + second.0;
    }
  }

  // ---------------------------------------------------------------------------------------------
  // Properties

  /** Every range of the registry is keyed by a block interval. */
  lemma AddedKeepsBlockOnly(rs: seq<Range>, target: Target, f: Fault)
    requires BlockOnly(rs) && target.BlockTarget?
    ensures BlockOnly(Added(rs, target, f).ranges)
  {
    var out := Added(rs, target, f).ranges;
    match FindRange(rs, target)
    case None =>
      assert forall k :: 1 <= k < |out| ==> out[k] == rs[k - 1];
    case Some(i) =>
  }

  /**
   * Only a hash or dedup request adds a range keyed by a hash, and only when its mode is
   * enabled: a registry of block ranges stays so under every other request.
   */
  lemma HandledKeepsBlockOnly(settings: UserSettings, deviceSize: u64, rs: seq<Range>, req: RequestView, stale: u8)
    requires |req.args| == ARGS_CAPACITY
    requires BlockOnly(rs)
    requires !(req.mode == FBD_MODE_HASH && settings.hashMode) && !(req.mode == FBD_MODE_DEDUP && settings.dedupMode)
    ensures BlockOnly(Handled(settings, deviceSize, rs, req, stale).ranges)
  {
    if KnownFault(req.fault) {
      var delay := if req.fault == FBD_FAULT_SLOW_DISK then SlowDiskDelay(req.args) else 0;
      var f := NewFault(req.operation, req.fault, req.persistent, delay);
      AddedKeepsBlockOnly(rs, BlockTarget(req.blockSize, req.blockOffset), f);
      AddedKeepsBlockOnly(rs, DeviceTarget(deviceSize), f);
    }
  }

  /** The statuses an adder returns. */
  lemma AddedStatus(rs: seq<Range>, target: Target, f: Fault)
    ensures var a := Added(rs, target, f);
      (a.status == FBD_STS_OK || a.status == FBD_STS_DUP_FAULT || a.status == FBD_STS_ERROR)
      && (a.status != FBD_STS_OK ==> a.ranges == rs)
  {
  }

  /**
   * What `handle_request` answers: RESET_ALL always empties the registry; an unknown or disabled
   * mode is refused; an enabled hash or dedup mode with an unknown hash type is refused; an
   * unknown fault kind is not found; anything but success leaves the registry as it was; and
   * every answer is a status code with a message that fits the one-byte response.
   */
  lemma HandledMeaning(settings: UserSettings, deviceSize: u64, rs: seq<Range>, req: RequestView, stale: u8)
    requires |req.args| == ARGS_CAPACITY
    ensures var a := Handled(settings, deviceSize, rs, req, stale);
      var hashing := req.mode == FBD_MODE_HASH || req.mode == FBD_MODE_DEDUP;
      && (req.mode == FBD_MODE_RESET_ALL ==> a == Addition(FBD_STS_OK, []))
      && (a.status == FBD_STS_INVALID_MODE <==> req.mode != FBD_MODE_RESET_ALL && !ModeEnabled(settings, req.mode))
      && (a.status == FBD_STS_INVALID_HASH_TYPE <==>
            hashing && ModeEnabled(settings, req.mode) && !KnownHashType(req.hashType))
      && (a.status == FBD_STS_NOT_FOUND <==>
            ModeEnabled(settings, req.mode) && (!hashing || KnownHashType(req.hashType)) && !KnownFault(req.fault))
      && (a.status != FBD_STS_OK ==> a.ranges == rs)
      && IsStatus(a.status) && -0x80 <= a.status < 0x80
  {
    if req.mode != FBD_MODE_RESET_ALL && ModeEnabled(settings, req.mode) && KnownFault(req.fault) {
      var delay := if req.fault == FBD_FAULT_SLOW_DISK then SlowDiskDelay(req.args) else 0;
      var f := NewFault(req.operation, req.fault, req.persistent, delay);
      AddedStatus(rs, BlockTarget(req.blockSize, req.blockOffset), f);
      AddedStatus(rs, DeviceTarget(deviceSize), f);
      match HashToFbdHash(req.hashType, req.hash, stale)
      case Err(_) =>
      case Ok(h) =>
        AddedStatus(rs, HashTarget(h), f);
        AddedStatus(rs, DedupTarget(h), f);
    }
  }

  /**
   * A request with an enabled mode, a known hash type (when it hashes) and a known fault kind
   * is exactly the adder's call with the fault the request describes.
   */
  lemma HandledAdds(settings: UserSettings, deviceSize: u64, rs: seq<Range>, req: RequestView, stale: u8)
    requires |req.args| == ARGS_CAPACITY && ModeEnabled(settings, req.mode) && KnownFault(req.fault)
    requires req.mode == FBD_MODE_HASH || req.mode == FBD_MODE_DEDUP ==> KnownHashType(req.hashType)
    ensures var f := NewFault(req.operation, req.fault, req.persistent,
                              if req.fault == FBD_FAULT_SLOW_DISK then SlowDiskDelay(req.args) else 0);
      var h := HashToFbdHash(req.hashType, req.hash, stale);
      var target :=
        if req.mode == FBD_MODE_BLOCK then BlockTarget(req.blockSize, req.blockOffset)
        else if req.mode == FBD_MODE_DEVICE then DeviceTarget(deviceSize)
        else if req.mode == FBD_MODE_HASH then HashTarget(h.value)
        else DedupTarget(h.value);
      var a := Handled(settings, deviceSize, rs, req, stale);
      && a == Added(rs, target, f)
      && (f.operation != 0 && a.status == FBD_STS_OK ==> FindRange(a.ranges, target).Some?)
  {
    var f := NewFault(req.operation, req.fault, req.persistent,
                      if req.fault == FBD_FAULT_SLOW_DISK then SlowDiskDelay(req.args) else 0);
    if f.operation != 0 {
      var h := HashToFbdHash(req.hashType, req.hash, stale);
      var target :=
        if req.mode == FBD_MODE_BLOCK then BlockTarget(req.blockSize, req.blockOffset)
        else if req.mode == FBD_MODE_DEVICE then DeviceTarget(deviceSize)
        else if req.mode == FBD_MODE_HASH then HashTarget(h.value)
        else DedupTarget(h.value);
      AddedMeaning(rs, target, f);
    }
  }

  /**
   * A device fault on a device smaller than 4 GiB covers the whole device: every request that
   * starts inside it hits the fault.
   */
  lemma DeviceFaultCoversDevice(deviceSize: u64, size: u32, offset: u64, hash: HashBytes)
    requires 0 < deviceSize < 0x1_0000_0000 && offset < deviceSize
    requires 0 < size && offset + size <= 0x1_0000_0000_0000_0000
    ensures Hits(DeviceTarget(deviceSize), size, offset, hash)
  {
    var t := DeviceTarget(deviceSize);
    assert ToU64(t.offset + t.size - 1) == deviceSize - 1;
    assert ToU64(offset + size - 1) == offset + size - 1;
    assert InBoth(offset, 0, deviceSize - 1, offset, offset + size - 1);
  }

  /**
   * On a device of 4 GiB plus 4 KiB the size wraps to 4 KiB, so a device fault covers only the
   * first block: a request for the second block misses it.
   */
  lemma DeviceFaultTruncated()
    ensures DeviceTarget(0x1_0000_1000) == BlockTarget(0x1000, 0)
    ensures !Hits(DeviceTarget(0x1_0000_1000), 0x1000, 0x1000, ZERO_HASH)
  {
    assert ToU32(0x1_0000_1000) == 0x1000;
    assert ToU64(0x1000 + 0x1000 - 1) == 0x1FFF;
  }
}
