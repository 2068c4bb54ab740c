/**
 * fbdd's fault registry (fbdd/fbd_structs.c): the device keeps a list of fault ranges, each keyed
 * by a block interval, by the hash of a block's content or by a deduplicated content hash, and each
 * holding up to MAX_FAULTS fault records. Adding a fault finds the range for its key (or prepends a
 * new one) and refuses a duplicate; a read or write request is checked against the first range it
 * hits, whose matching faults fire: a bit flip in the data, a delay, or a medium error. A fault that
 * is not persistent fires once and is then removed, and a range left empty is unlinked.
 */
module FbdStructs {
  import opened CTypes
  import opened Wrappers
  import opened FbdDefines
  import Bits
  import FaultLibrary

  // ---------------------------------------------------------------------------------------------
  // Hashes

  /**
   * The 17 bytes of `union fbd_hash`: an MD5 digest followed by a NUL, or an XXH3-128 digest
   * whose low and high halves fill bytes 0..15.
   */
  type HashBytes = b: seq<u8> | |b| == 17 witness [0, 0, 0, 0, 0, 0, 0, 0, 0, 0, 0, 0, 0, 0, 0, 0, 0]

  /** The hash types whose digests the device can compute; any other makes it abort. */
  predicate KnownHashType(t: u8)
  {
    t == FBD_HASH_MD5 || t == FBD_HASH_XXH3_128
  }

  /** The bytes `strcmp` compares: those before the first NUL. */
  function CString(b: seq<u8>): (r: seq<u8>)
    ensures |r| <= |b| && r == b[..|r|] && 0 !in r
    ensures |r| < |b| ==> b[|r|] == 0
  {
    if b == [] || b[0] == 0 then []
    else
      var rest := CString(b[1..]);
      assert [b[0]] + rest == b[..1 + |rest|];
      [b[0]] + rest
  }

  /** A byte string with no NUL before index n and a NUL at n reads as its first n bytes. */
  lemma CStringUntilNul(b: seq<u8>, n: nat)
    requires n < |b| && b[n] == 0 && 0 !in b[..n]
    ensures CString(b) == b[..n]
  {
  }

  /**
   * `fbd_hash_compare` as written: MD5 digests are compared with `strcmp`, which stops at the
   * first NUL byte of the raw digest; XXH3 digests by their two 64-bit halves.
   */
  predicate HashesMatchAsWritten(hashType: u8, h1: HashBytes, h2: HashBytes)
    requires KnownHashType(hashType)
  {
    if hashType == FBD_HASH_MD5 then CString(h1) == CString(h2) else h1[..16] == h2[..16]
  }

  /** The comparison the registry uses: the two 16-byte digests are equal. */
  predicate HashesMatch(h1: HashBytes, h2: HashBytes)
  {
    h1[..16] == h2[..16]
  }

  /** For XXH3 the comparison as written is digest equality. */
  lemma Xxh3CompareIsDigestEquality(h1: HashBytes, h2: HashBytes)
    ensures HashesMatchAsWritten(FBD_HASH_XXH3_128, h1, h2) <==> HashesMatch(h1, h2)
  {
  }

  /** For MD5 it is digest equality only when neither digest holds a NUL byte. */
  lemma Md5CompareWithoutNul(h1: HashBytes, h2: HashBytes)
    requires 0 !in h1[..16] && 0 !in h2[..16] && h1[16] == 0 && h2[16] == 0
    ensures HashesMatchAsWritten(FBD_HASH_MD5, h1, h2) <==> HashesMatch(h1, h2)
  {
    CStringUntilNul(h1, 16);
    CStringUntilNul(h2, 16);
  }

  /** Two different MD5 digests that both start with a NUL byte compare equal as written. */
  lemma Md5CompareStopsAtNul()
    ensures var h1: HashBytes := [0, 1, 0, 0, 0, 0, 0, 0, 0, 0, 0, 0, 0, 0, 0, 0, 0];
            var h2: HashBytes := [0, 2, 0, 0, 0, 0, 0, 0, 0, 0, 0, 0, 0, 0, 0, 0, 0];
            HashesMatchAsWritten(FBD_HASH_MD5, h1, h2) && !HashesMatch(h1, h2)
  {
    var h1: HashBytes := [0, 1, 0, 0, 0, 0, 0, 0, 0, 0, 0, 0, 0, 0, 0, 0, 0];
    var h2: HashBytes := [0, 2, 0, 0, 0, 0, 0, 0, 0, 0, 0, 0, 0, 0, 0, 0, 0];
    assert h1[..16][1] != h2[..16][1];
  }

  // ---------------------------------------------------------------------------------------------
  // Block intervals

  /** p lies in both closed intervals [f1, f2] and [m1, m2]. */
  predicate InBoth(p: int, f1: int, f2: int, m1: int, m2: int)
  {
    f1 <= p <= f2 && m1 <= p <= m2
  }

  /**
   * `intersept_memory`: whether the closed intervals [f1, f2] and [m1, m2] overlap, and their
   * common part [max(f1, m1), min(f2, m2)].
   */
  function InterseptMemory(f1: u64, f2: u64, m1: u64, m2: u64): (r: (bool, u64, u64))
    ensures r.0 ==> InBoth(r.1, f1, f2, m1, m2) && InBoth(r.2, f1, f2, m1, m2)
    ensures r.0 ==> forall p :: InBoth(p, f1, f2, m1, m2) <==> r.1 <= p <= r.2
    ensures !r.0 ==> forall p :: !InBoth(p, f1, f2, m1, m2)
  {
    var x1 := if f1 >= m1 then f1 else m1;
    var x2 := if f2 <= m2 then f2 else m2;
    (x1 <= x2, x1, x2)
  }

  /** `check_size_offSet`: every size and offset is accepted. */
  function CheckSizeOffset(size: u32, offset: u64): (sts: int)
    ensures sts == FBD_STS_OK
  {
    FBD_STS_OK
  }

  // ---------------------------------------------------------------------------------------------
  // Faults and ranges

  /** A fault record; `delay` is the slow-disk argument in milliseconds. */
  datatype Fault = Fault(operation: u8, kind: u8, persistent: bool, active: bool, delay: u64)

  /** What a range is keyed by: the `mode` and the record its `ptr` points to. */
  datatype Target = BlockTarget(size: u32, offset: u64) | HashTarget(hash: HashBytes) | DedupTarget(hash: HashBytes)

  datatype Range = Range(target: Target, faults: seq<Fault>)

  function Mode(t: Target): (mode: int)
    ensures mode == FBD_MODE_BLOCK <==> t.BlockTarget?
    ensures mode == FBD_MODE_HASH <==> t.HashTarget?
    ensures mode == FBD_MODE_DEDUP <==> t.DedupTarget?
  {
    match t
    case BlockTarget(_, _) => FBD_MODE_BLOCK
    case HashTarget(_) => FBD_MODE_HASH
    case DedupTarget(_) => FBD_MODE_DEDUP
  }

  /** The test of `get_range_block`, `get_range_hash` and `get_range_dedup`: same mode, same key. */
  predicate SameKey(query: Target, stored: Target)
  {
    match (query, stored)
    case (BlockTarget(s1, o1), BlockTarget(s2, o2)) => s1 == s2 && o1 == o2
    case (HashTarget(h1), HashTarget(h2)) => HashesMatch(h1, h2)
    case (DedupTarget(h1), DedupTarget(h2)) => HashesMatch(h1, h2)
    case _ => false
  }

  /** The test of `get_fault`: the same fault type, and an operation mask sharing a bit with `op`. */
  predicate Matches(f: Fault, kind: u8, op: u8)
  {
    f.kind == kind && Bits.BitAnd(f.operation, op) != 0
  }

  /**
   * `fbd_new_fault`: an active fault. The slow-disk argument is kept whole (see
   * ArgsAllocationAsWritten for the allocation the source makes for it).
   */
  function NewFault(op: u8, kind: u8, persistent: bool, delay: u64): (f: Fault)
    ensures f.active && f.delay == delay
    ensures op != 0 ==> Matches(f, kind, op)
  {
    Bits.BitAndSelf(op);
    Fault(op, kind, persistent, true, delay)
  }

  /** The bytes `fbd_new_fault` allocates for the arguments and the bytes it copies into them. */
  function ArgsAllocationAsWritten(argsSize: u8): (r: (nat, nat))
    ensures r.1 == argsSize
  {
    // malloc(sizeof(args_size)) sizes the buffer by the type of args_size, a uint8_t.
    (1, argsSize)
  }

  /** The slow-disk adders pass the 8-byte delay, which overruns the 1-byte allocation. */
  lemma SlowDiskArgsOverrun()
    ensures ArgsAllocationAsWritten(8).1 > ArgsAllocationAsWritten(8).0
  {
  }

  /** The allocation the copy needs, as the model keeps it: exactly `args_size` bytes. */
  function ArgsAllocation(argsSize: u8): (r: (nat, nat))
    ensures r.1 == argsSize && r.1 <= r.0
  {
    (argsSize, argsSize)
  }

  /** `get_fault`: the index of the first fault that matches. */
  function FindFault(faults: seq<Fault>, kind: u8, op: u8): (r: Option<nat>)
    ensures r.Some? ==> r.value < |faults| && Matches(faults[r.value], kind, op)
    ensures r.Some? ==> forall k :: 0 <= k < r.value ==> !Matches(faults[k], kind, op)
    ensures r.None? ==> forall k :: 0 <= k < |faults| ==> !Matches(faults[k], kind, op)
  {
    FindFaultFrom(faults, kind, op, 0)
  }

  function FindFaultFrom(faults: seq<Fault>, kind: u8, op: u8, start: nat): (r: Option<nat>)
    requires start <= |faults|
    requires forall k :: 0 <= k < start ==> !Matches(faults[k], kind, op)
    ensures r.Some? ==> start <= r.value < |faults| && Matches(faults[r.value], kind, op)
    ensures r.Some? ==> forall k :: 0 <= k < r.value ==> !Matches(faults[k], kind, op)
    ensures r.None? ==> forall k :: 0 <= k < |faults| ==> !Matches(faults[k], kind, op)
    decreases |faults| - start
  {
    if start == |faults| then None
    else if Matches(faults[start], kind, op) then Some(start)
    else FindFaultFrom(faults, kind, op, start + 1)
  }

  /** `get_fault`, walking the fault array. */
  method GetFault(faults: seq<Fault>, kind: u8, op: u8) returns (r: Option<nat>)
    ensures r == FindFault(faults, kind, op)
  {
    var i := 0;
    while i < |faults|
      invariant 0 <= i <= |faults|
      invariant forall k :: 0 <= k < i ==> !Matches(faults[k], kind, op)
    {
      if faults[i].kind == kind && Bits.BitAnd(faults[i].operation, op) != 0 {
        return Some(i);
      }
      i := i + 1;
    }
    return None;
  }

  /** `get_fault_from_mode`: `get_fault` on a range of the given mode, nothing on any other. */
  function FindFaultInMode(r: Range, kind: u8, op: u8, mode: int): (found: Option<nat>)
    ensures found.Some? ==> Mode(r.target) == mode && found.value < |r.faults| && Matches(r.faults[found.value], kind, op)
    ensures Mode(r.target) == mode ==> found == FindFault(r.faults, kind, op)
  {
    if Mode(r.target) == mode then FindFault(r.faults, kind, op) else None
  }

  /** No fault of a range would be reported as a duplicate of a later one. */
  predicate NoConflicts(faults: seq<Fault>)
  {
    forall i, j :: 0 <= i < j < |faults| ==> !Matches(faults[i], faults[j].kind, faults[j].operation)
  }

  predicate ValidRange(r: Range)
  {
    0 < |r.faults| <= MAX_FAULTS && NoConflicts(r.faults)
  }

  /**
   * The registry's invariant: every range holds between one and MAX_FAULTS faults, none of them
   * a duplicate of another, and no two ranges share a key.
   */
  predicate ValidRanges(rs: seq<Range>)
  {
    (forall i :: 0 <= i < |rs| ==> ValidRange(rs[i]))
    && (forall i, j :: 0 <= i < j < |rs| ==> !SameKey(rs[i].target, rs[j].target))
  }

  /** The first range with the key of `target`. */
  function FindRange(rs: seq<Range>, target: Target): (r: Option<nat>)
    ensures r.Some? ==> r.value < |rs| && SameKey(target, rs[r.value].target)
    ensures r.Some? ==> forall k :: 0 <= k < r.value ==> !SameKey(target, rs[k].target)
    ensures r.None? ==> forall k :: 0 <= k < |rs| ==> !SameKey(target, rs[k].target)
  {
    FindRangeFrom(rs, target, 0)
  }

  function FindRangeFrom(rs: seq<Range>, target: Target, start: nat): (r: Option<nat>)
    requires start <= |rs|
    requires forall k :: 0 <= k < start ==> !SameKey(target, rs[k].target)
    ensures r.Some? ==> start <= r.value < |rs| && SameKey(target, rs[r.value].target)
    ensures r.Some? ==> forall k :: 0 <= k < r.value ==> !SameKey(target, rs[k].target)
    ensures r.None? ==> forall k :: 0 <= k < |rs| ==> !SameKey(target, rs[k].target)
    decreases |rs| - start
  {
    if start == |rs| then None
    else if SameKey(target, rs[start].target) then Some(start)
    else FindRangeFrom(rs, target, start + 1)
  }

  // ---------------------------------------------------------------------------------------------
  // Adding faults

  datatype Addition = Addition(status: int, ranges: seq<Range>)

  /**
   * `fbd_add_{block,hash,dedup}_fault_with_operation`: a key with no range gets a new range holding
   * just `f`, prepended to the list; a range that already has a matching fault makes the call a
   * duplicate; otherwise `f` is appended to the range. A range already holding MAX_FAULTS faults
   * refuses a new one (see AddedAsWritten for the source, which has no such check).
   */
  function Added(rs: seq<Range>, target: Target, f: Fault): Addition
  {
    match FindRange(rs, target)
    case None => Addition(FBD_STS_OK, [Range(target, [f])] + rs)
    case Some(i) =>
      if FindFault(rs[i].faults, f.kind, f.operation).Some? then Addition(FBD_STS_DUP_FAULT, rs)
      else if |rs[i].faults| >= MAX_FAULTS then Addition(FBD_STS_ERROR, rs)
      else Addition(FBD_STS_OK, rs[i := Range(rs[i].target, rs[i].faults + [f])])
  }

  /** The adders as written: `add_fault` stores into `faults[size]` whatever `size` is. */
  function AddedAsWritten(rs: seq<Range>, target: Target, f: Fault): Addition
  {
    match FindRange(rs, target)
    case None => Addition(FBD_STS_OK, [Range(target, [f])] + rs)
    case Some(i) =>
      if FindFault(rs[i].faults, f.kind, f.operation).Some? then Addition(FBD_STS_DUP_FAULT, rs)
      else Addition(FBD_STS_OK, rs[i := Range(rs[i].target, rs[i].faults + [f])])
  }

  /**
   * Four distinct faults on one block — a bit flip and a slow disk, each on writes and on reads —
   * are all accepted as written, so the fourth lands in `faults[3]`, past the end of the
   * MAX_FAULTS-slot array. The registry as modelled refuses the fourth.
   */
  lemma AddFaultOverflow()
    ensures var t := BlockTarget(4096, 0);
            var r1 := AddedAsWritten([], t, NewFault(1, FBD_FAULT_BIT_FLIP, true, 0));
            var r2 := AddedAsWritten(r1.ranges, t, NewFault(2, FBD_FAULT_BIT_FLIP, true, 0));
            var r3 := AddedAsWritten(r2.ranges, t, NewFault(1, FBD_FAULT_SLOW_DISK, true, 10));
            var r4 := AddedAsWritten(r3.ranges, t, NewFault(2, FBD_FAULT_SLOW_DISK, true, 10));
            r4.status == FBD_STS_OK && |r4.ranges[0].faults| == MAX_FAULTS + 1
            && Added(r3.ranges, t, NewFault(2, FBD_FAULT_SLOW_DISK, true, 10)).status == FBD_STS_ERROR
  {
    var t := BlockTarget(4096, 0);
    var f1 := NewFault(1, FBD_FAULT_BIT_FLIP, true, 0);
    var f2 := NewFault(2, FBD_FAULT_BIT_FLIP, true, 0);
    var f3 := NewFault(1, FBD_FAULT_SLOW_DISK, true, 10);
    var f4 := NewFault(2, FBD_FAULT_SLOW_DISK, true, 10);
    WriteAndReadDisjoint();
    var r1 := AddedAsWritten([], t, f1);
    assert r1.ranges == [Range(t, [f1])];
    var r2 := AddedAsWritten(r1.ranges, t, f2);
    assert FindRange(r1.ranges, t) == Some(0);
    assert FindFault([f1], f2.kind, f2.operation) == None;
    assert [f1] + [f2] == [f1, f2];
    assert r2.ranges == [Range(t, [f1, f2])];
    var r3 := AddedAsWritten(r2.ranges, t, f3);
    assert FindRange(r2.ranges, t) == Some(0);
    assert FindFault([f1, f2], f3.kind, f3.operation) == None;
    assert [f1, f2] + [f3] == [f1, f2, f3];
    assert r3.ranges == [Range(t, [f1, f2, f3])];
    assert FindRange(r3.ranges, t) == Some(0);
    assert FindFault([f1, f2, f3], f4.kind, f4.operation) == None;
  }

  /** WRITE and READ share no bit; each shares a bit with itself. */
  lemma WriteAndReadDisjoint()
    ensures Bits.BitAnd(FBD_OP_WRITE, FBD_OP_READ) == 0 && Bits.BitAnd(FBD_OP_READ, FBD_OP_WRITE) == 0
    ensures Bits.BitAnd(FBD_OP_WRITE, FBD_OP_WRITE) != 0 && Bits.BitAnd(FBD_OP_READ, FBD_OP_READ) != 0
  {
    assert Bits.BitAnd(0, 1) == 0;
    assert Bits.BitAnd(1, 0) == 0;
    assert Bits.BitAnd(0, 0) == 0;
  }

  lemma NoConflictsAppend(faults: seq<Fault>, f: Fault)
    requires NoConflicts(faults)
    requires forall k :: 0 <= k < |faults| ==> !Matches(faults[k], f.kind, f.operation)
    ensures NoConflicts(faults + [f])
  {
    var s := faults + [f];
    forall i, j | 0 <= i < j < |s|
      ensures !Matches(s[i], s[j].kind, s[j].operation)
    {
      if j == |faults| {
        assert s[i] == faults[i];
      } else {
        assert s[i] == faults[i] && s[j] == faults[j];
      }
    }
  }

  /** Adding a fault keeps the registry's invariant. */
  lemma AddedKeepsValid(rs: seq<Range>, target: Target, f: Fault)
    requires ValidRanges(rs)
    ensures ValidRanges(Added(rs, target, f).ranges)
  {
    match FindRange(rs, target)
    case None =>
      var out := [Range(target, [f])] + rs;
      forall i, j | 0 <= i < j < |out|
        ensures !SameKey(out[i].target, out[j].target)
      {
        if i > 0 {
          assert out[i] == rs[i - 1] && out[j] == rs[j - 1];
        } else {
          assert out[j] == rs[j - 1];
        }
      }
      forall i | 0 <= i < |out|
        ensures ValidRange(out[i])
      {
        if i > 0 {
          assert out[i] == rs[i - 1];
        }
      }
    case Some(i) =>
      if FindFault(rs[i].faults, f.kind, f.operation).None? && |rs[i].faults| < MAX_FAULTS {
        NoConflictsAppend(rs[i].faults, f);
      }
  }

  /**
   * What adding a fault reports: a duplicate exactly when the key's range already holds a fault
   * that matches; an error exactly when that range is full; success otherwise, and then the fault
   * can be found in the range for its key (an operation mask of 0 matches nothing, so such a fault
   * is stored but never found).
   */
  lemma AddedMeaning(rs: seq<Range>, target: Target, f: Fault)
    requires f.operation != 0
    ensures var a := Added(rs, target, f);
      && (a.status == FBD_STS_DUP_FAULT <==>
            FindRange(rs, target).Some? && FindFault(rs[FindRange(rs, target).value].faults, f.kind, f.operation).Some?)
      && (a.status == FBD_STS_DUP_FAULT || a.status == FBD_STS_ERROR ==> a.ranges == rs)
      && (a.status == FBD_STS_ERROR ==> |rs[FindRange(rs, target).value].faults| >= MAX_FAULTS)
      && (a.status == FBD_STS_OK ==>
            FindRange(a.ranges, target).Some? && FindFault(a.ranges[FindRange(a.ranges, target).value].faults, f.kind, f.operation).Some?)
      && (a.status == FBD_STS_OK || a.status == FBD_STS_DUP_FAULT || a.status == FBD_STS_ERROR)
  {
    var a := Added(rs, target, f);
    Bits.BitAndSelf(f.operation);
    SameKeyReflexive(target);
    match FindRange(rs, target)
    case None =>
      assert SameKey(target, a.ranges[0].target);
      assert FindRange(a.ranges, target) == Some(0);
      assert a.ranges[0].faults == [f];
      assert Matches(f, f.kind, f.operation);
    case Some(i) =>
      if a.status == FBD_STS_OK {
        var out := a.ranges;
        forall k | 0 <= k < |out|
          ensures out[k].target == rs[k].target
        {
        }
        assert FindRange(out, target) == Some(i);
        var fs := rs[i].faults + [f];
        assert out[i].faults == fs;
        assert Matches(fs[|fs| - 1], f.kind, f.operation);
      }
  }

  lemma SameKeyReflexive(t: Target)
    ensures SameKey(t, t)
  {
  }

  /** Adding the same fault twice: the second call is a duplicate and changes nothing. */
  lemma AddTwiceIsDuplicate(rs: seq<Range>, target: Target, f: Fault)
    requires f.operation != 0 && Added(rs, target, f).status == FBD_STS_OK
    ensures var again := Added(Added(rs, target, f).ranges, target, f);
            again.status == FBD_STS_DUP_FAULT && again.ranges == Added(rs, target, f).ranges
  {
    AddedMeaning(rs, target, f);
    AddedMeaning(Added(rs, target, f).ranges, target, f);
  }

  // ---------------------------------------------------------------------------------------------
  // Injecting faults

  /** A fault fires on a request when it is active and its operation mask covers the request's. */
  predicate Fires(f: Fault, operation: u8)
  {
    f.active && Bits.BitAnd(f.operation, operation) != 0
  }

  /** What firing the faults of a range did: the faults kept, and the effects on the request. */
  datatype Fired = Fired(kept: seq<Fault>, flips: nat, delays: seq<u64>, medium: bool)

  /** The effect of one fault firing: a bit flip, a delay, or a medium error. */
  function Apply(e: Fired, f: Fault): (r: Fired)
    ensures r.kept == e.kept
  {
    if f.kind == FBD_FAULT_BIT_FLIP then e.(flips := e.flips + 1)
    else if f.kind == FBD_FAULT_SLOW_DISK then e.(delays := e.delays + [f.delay])
    else if f.kind == FBD_FAULT_MEDIUM then e.(medium := true)
    else e
  }

  /**
   * Firing every fault of a range, front to back: each fault that fires has its effect, and a
   * fault that fired and is not persistent is dropped.
   */
  function FireAll(faults: seq<Fault>, operation: u8): Fired
  {
    if faults == [] then Fired([], 0, [], false)
    else Step(FireAll(faults[..|faults| - 1], operation), faults[|faults| - 1], operation)
  }

  /** One more fault looked at: it has its effect if it fires, and stays unless it fired and is one-shot. */
  function Step(before: Fired, f: Fault, operation: u8): (r: Fired)
    ensures r.kept == if Fires(f, operation) && !f.persistent then before.kept else before.kept + [f]
    ensures r.flips == before.flips + if Fires(f, operation) && f.kind == FBD_FAULT_BIT_FLIP then 1 else 0
    ensures r.delays == before.delays + if Fires(f, operation) && f.kind == FBD_FAULT_SLOW_DISK then [f.delay] else []
    ensures r.medium == (before.medium || (Fires(f, operation) && f.kind == FBD_FAULT_MEDIUM))
  {
    if !Fires(f, operation) then before.(kept := before.kept + [f])
    else
      var e := Apply(before, f);
      if f.persistent then e.(kept := e.kept + [f]) else e
  }

  lemma FireAllPrefix(faults: seq<Fault>, c: nat, operation: u8)
    requires c < |faults|
    ensures FireAll(faults[..c + 1], operation) == Step(FireAll(faults[..c], operation), faults[c], operation)
  {
    assert faults[..c + 1][..c] == faults[..c];
  }

  /** Some fault of the given kind fires. */
  predicate SomeFires(faults: seq<Fault>, operation: u8, kind: u8)
  {
    exists k :: 0 <= k < |faults| && Fires(faults[k], operation) && faults[k].kind == kind
  }

  lemma SomeFiresAppend(faults: seq<Fault>, f: Fault, operation: u8, kind: u8)
    ensures SomeFires(faults + [f], operation, kind) <==>
            SomeFires(faults, operation, kind) || (Fires(f, operation) && f.kind == kind)
  {
    var s := faults + [f];
    if SomeFires(s, operation, kind) && !(Fires(f, operation) && f.kind == kind) {
      var k :| 0 <= k < |s| && Fires(s[k], operation) && s[k].kind == kind;
      assert s[k] == faults[k];
    }
    if SomeFires(faults, operation, kind) {
      var k :| 0 <= k < |faults| && Fires(faults[k], operation) && faults[k].kind == kind;
      assert s[k] == faults[k];
    }
    if Fires(f, operation) && f.kind == kind {
      assert s[|faults|] == f;
    }
  }

  /**
   * What firing the faults means: exactly the faults that did not fire or are persistent are
   * kept, in order; a medium error, a flip or a delay happens exactly when a fault of that kind
   * fires.
   */
  lemma {:induction false} FireAllMeaning(faults: seq<Fault>, operation: u8)
    ensures var r := FireAll(faults, operation);
      && |r.kept| <= |faults|
      && (forall k :: 0 <= k < |r.kept| ==> r.kept[k] in faults && (r.kept[k].persistent || !Fires(r.kept[k], operation)))
      && (forall k :: 0 <= k < |faults| && (faults[k].persistent || !Fires(faults[k], operation)) ==> faults[k] in r.kept)
      && (r.medium <==> SomeFires(faults, operation, FBD_FAULT_MEDIUM))
      && (r.flips > 0 <==> SomeFires(faults, operation, FBD_FAULT_BIT_FLIP))
      && (|r.delays| > 0 <==> SomeFires(faults, operation, FBD_FAULT_SLOW_DISK))
  {
    if faults != [] {
      var init := faults[..|faults| - 1];
      var f := faults[|faults| - 1];
      assert faults == init + [f];
      FireAllMeaning(init, operation);
      SomeFiresAppend(init, f, operation, FBD_FAULT_MEDIUM);
      SomeFiresAppend(init, f, operation, FBD_FAULT_BIT_FLIP);
      SomeFiresAppend(init, f, operation, FBD_FAULT_SLOW_DISK);
      var r := FireAll(faults, operation);
      var before := FireAll(init, operation);
      forall k | 0 <= k < |faults| && (faults[k].persistent || !Fires(faults[k], operation))
        ensures faults[k] in r.kept
      {
        if k < |init| {
          assert faults[k] == init[k];
        }
      }
    }
  }

  /** Firing keeps a range free of duplicates. */
  lemma {:induction false} FireAllKeepsNoConflicts(faults: seq<Fault>, operation: u8)
    requires NoConflicts(faults)
    ensures NoConflicts(FireAll(faults, operation).kept)
  {
    if faults != [] {
      var init := faults[..|faults| - 1];
      var f := faults[|faults| - 1];
      assert NoConflicts(init) by {
        forall i, j | 0 <= i < j < |init|
          ensures !Matches(init[i], init[j].kind, init[j].operation)
        {
          assert init[i] == faults[i] && init[j] == faults[j];
        }
      }
      FireAllKeepsNoConflicts(init, operation);
      FireAllMeaning(init, operation);
      var before := FireAll(init, operation).kept;
      forall k | 0 <= k < |before|
        ensures !Matches(before[k], f.kind, f.operation)
      {
        var i :| 0 <= i < |init| && init[i] == before[k];
        assert faults[i] == init[i];
      }
      NoConflictsAppend(before, f);
    }
  }

  /** BitAnd with WRITE tests bit 0, with READ bit 1. */
  lemma OperationBits(x: nat)
    ensures Bits.BitAnd(x, FBD_OP_WRITE) != 0 <==> x % 2 == 1
    ensures Bits.BitAnd(x, FBD_OP_READ) != 0 <==> (x / 2) % 2 == 1
  {
    if x != 0 {
      assert Bits.BitAnd(x / 2, 0) == 0;
      assert Bits.BitAnd(x, 1) == x % 2;
      if x / 2 != 0 {
        assert Bits.BitAnd(x / 2 / 2, 0) == 0;
        assert Bits.BitAnd(x / 2, 1) == (x / 2) % 2;
      }
    }
  }

  /** Two masks that both share the bit of a one-bit request share a bit with each other. */
  lemma SharedRequestBit(x: nat, y: nat, operation: u8)
    requires operation == FBD_OP_WRITE || operation == FBD_OP_READ
    requires Bits.BitAnd(x, operation) != 0 && Bits.BitAnd(y, operation) != 0
    ensures Bits.BitAnd(x, y) != 0
  {
    OperationBits(x);
    OperationBits(y);
    if operation == FBD_OP_READ {
      OperationBits(x / 2);
      assert Bits.BitAnd(x / 2, y / 2) != 0 by {
        assert (x / 2) % 2 == 1 && (y / 2) % 2 == 1;
      }
    }
  }

  /**
   * In a range without duplicates, a read or a write fires at most one fault of each kind, so it
   * flips at most one bit and sleeps at most once.
   */
  lemma {:induction false} FireAllAtMostOncePerKind(faults: seq<Fault>, operation: u8)
    requires NoConflicts(faults)
    requires operation == FBD_OP_WRITE || operation == FBD_OP_READ
    ensures FireAll(faults, operation).flips <= 1 && |FireAll(faults, operation).delays| <= 1
  {
    if faults != [] {
      var init := faults[..|faults| - 1];
      var f := faults[|faults| - 1];
      assert NoConflicts(init) by {
        forall i, j | 0 <= i < j < |init|
          ensures !Matches(init[i], init[j].kind, init[j].operation)
        {
          assert init[i] == faults[i] && init[j] == faults[j];
        }
      }
      FireAllAtMostOncePerKind(init, operation);
      FireAllMeaning(init, operation);
      if Fires(f, operation) {
        forall k | 0 <= k < |init| && Fires(init[k], operation)
          ensures init[k].kind != f.kind
        {
          assert init[k] == faults[k];
          if init[k].kind == f.kind {
            SharedRequestBit(init[k].operation, f.operation, operation);
            assert Matches(faults[k], f.kind, f.operation);
          }
        }
      }
    }
  }

  /**
   * The fault loop of `fbd_check_and_inject_fault` as written: after a fired fault is shifted out,
   * `j` still advances, so the fault moved into slot `j` is not looked at in this call.
   */
  function FireFromAsWritten(cur: seq<Fault>, j: nat, operation: u8, acc: Fired): Fired
    decreases |cur| - j
  {
    if j >= |cur| then acc.(kept := cur)
    else if !Fires(cur[j], operation) then FireFromAsWritten(cur, j + 1, operation, acc)
    else if cur[j].persistent then FireFromAsWritten(cur, j + 1, operation, Apply(acc, cur[j]))
    else FireFromAsWritten(cur[..j] + cur[j + 1..], j + 1, operation, Apply(acc, cur[j]))
  }

  /**
   * A one-shot medium error followed by a one-shot bit flip, both on writes (two distinct faults
   * the adders accept for one block): as written a write fails but its data is not flipped, and
   * the bit flip stays behind for the next write; firing every matching fault flips it too.
   */
  lemma InjectionSkipsShiftedFault()
    ensures var medium := NewFault(FBD_OP_WRITE, FBD_FAULT_MEDIUM, false, 0);
            var flip := NewFault(FBD_OP_WRITE, FBD_FAULT_BIT_FLIP, false, 0);
            var asWritten := FireFromAsWritten([medium, flip], 0, FBD_OP_WRITE, Fired([], 0, [], false));
            var intended := FireAll([medium, flip], FBD_OP_WRITE);
            && asWritten.medium && asWritten.flips == 0 && asWritten.kept == [flip]
            && intended.medium && intended.flips == 1 && intended.kept == []
  {
    var medium := NewFault(FBD_OP_WRITE, FBD_FAULT_MEDIUM, false, 0);
    var flip := NewFault(FBD_OP_WRITE, FBD_FAULT_BIT_FLIP, false, 0);
    WriteAndReadDisjoint();
    var s := [medium, flip];
    assert s[..|s| - 1] == [medium];
    assert [medium][..0] == [];
    assert Fires(medium, FBD_OP_WRITE) && Fires(flip, FBD_OP_WRITE);
    var first := FireAll([medium], FBD_OP_WRITE);
    assert first == Step(FireAll([medium][..0], FBD_OP_WRITE), medium, FBD_OP_WRITE);
    assert first.kept == [] && first.flips == 0 && first.delays == [] && first.medium;
    assert first == Fired([], 0, [], true);
    assert FireAll(s, FBD_OP_WRITE) == Fired([], 1, [], true);
    assert s[..0] + s[1..] == [flip];
  }

  /** The first byte flipped `n` times. */
  function FlipTimes(b: u8, n: nat): u8
  {
    if n == 0 then b else FaultLibrary.FlipLowBit(FlipTimes(b, n - 1))
  }

  /** Flips cancel in pairs. */
  lemma {:induction false} FlipTimesParity(b: u8, n: nat)
    ensures FlipTimes(b, n) == if n % 2 == 0 then b else FaultLibrary.FlipLowBit(b)
  {
    if n > 0 {
      FlipTimesParity(b, n - 1);
      FaultLibrary.FlipLowBitInvolution(b);
    }
  }

  lemma {:induction false} FlipTimesAdd(b: u8, m: nat, n: nat)
    ensures FlipTimes(FlipTimes(b, m), n) == FlipTimes(b, m + n)
  {
    if n > 0 {
      FlipTimesAdd(b, m, n - 1);
    }
  }

  /**
   * `fbd_check_and_inject_fault`'s fault loop over one range, firing every matching fault: a bit
   * flip flips bit 0 of the buffer, a slow disk sleeps (the delay is recorded), a medium error
   * sets the status; a fired fault that is not persistent is shifted out. The status starts as
   * FBD_STS_OK.
   */
  method FireFaults(faults: seq<Fault>, operation: u8, buffer: array<u8>, at: nat, size: u32)
    returns (kept: seq<Fault>, delays: seq<u64>, status: int)
    requires at < buffer.Length
    modifies buffer
    ensures var r := FireAll(faults, operation);
      && kept == r.kept && delays == r.delays
      && status == (if r.medium then FBD_STS_MEDIUM_ERROR else FBD_STS_OK)
      && buffer[..] == old(buffer[..])[at := FlipTimes(old(buffer[at]), r.flips)]
  {
    var cur := faults;
    var j: nat := 0;
    ghost var c: nat := 0;
    ghost var acc := Fired([], 0, [], false);
    ghost var b := buffer[..];
    status := FBD_STS_OK;
    delays := [];
    while j < |cur|
      invariant c <= |faults| && acc == FireAll(faults[..c], operation)
      invariant cur == acc.kept + faults[c..] && j == |acc.kept|
      invariant delays == acc.delays && (status == FBD_STS_MEDIUM_ERROR <==> acc.medium)
      invariant status == FBD_STS_OK || status == FBD_STS_MEDIUM_ERROR
      invariant buffer[..] == b[at := FlipTimes(b[at], acc.flips)]
      decreases |faults| - c
    {
      FireAllPrefix(faults, c, operation);
      ghost var next := Step(acc, faults[c], operation);
      cur, j, delays, status := FireNext(faults, operation, buffer, at, size, cur, j, delays, status, c, acc, b);
      acc := next;
      c := c + 1;
    }
    assert faults[..c] == faults;
    kept := cur;
  }

  /**
   * One pass of `fbd_check_and_inject_fault`'s fault loop, on the fault at `cur[j]`, which is
   * `faults[c]`: fires it if it matches, then shifts it out or moves on to the next one.
   */
  method FireNext(faults: seq<Fault>, operation: u8, buffer: array<u8>, at: nat, size: u32,
                  cur: seq<Fault>, j: nat, delays: seq<u64>, status: int, ghost c: nat, ghost acc: Fired, ghost b: seq<u8>)
    returns (cur': seq<Fault>, j': nat, delays': seq<u64>, status': int)
    requires at < |b| && buffer[..] == b[at := FlipTimes(b[at], acc.flips)]
    requires c < |faults| && cur == acc.kept + faults[c..] && j == |acc.kept|
    requires delays == acc.delays && (status == FBD_STS_MEDIUM_ERROR <==> acc.medium)
    requires status == FBD_STS_OK || status == FBD_STS_MEDIUM_ERROR
    modifies buffer
    ensures var next := Step(acc, faults[c], operation);
      && cur' == next.kept + faults[c + 1..] && j' == |next.kept|
      && delays' == next.delays && (status' == FBD_STS_MEDIUM_ERROR <==> next.medium)
      && (status' == FBD_STS_OK || status' == FBD_STS_MEDIUM_ERROR)
    ensures buffer[..] == b[at := FlipTimes(b[at], Step(acc, faults[c], operation).flips)]
  {
    var f := cur[j];
    assert f == faults[c];
    delays', status' := delays, status;
    if Fires(f, operation) {
      delays', status' := FireOne(f, buffer, at, size, delays, status);
      if (status' != 0 || status' == FBD_STS_MEDIUM_ERROR) && !f.persistent {
        ShiftOut(acc.kept, faults, c);
        cur', j' := cur[..j] + cur[j + 1..], j;
      } else {
        KeepOne(acc.kept, faults, c);
        cur', j' := cur, j + 1;
      }
    } else {
      KeepOne(acc.kept, faults, c);
      cur', j' := cur, j + 1;
    }
  }

  /** The `switch` on the kind of a fault that fires. */
  method FireOne(f: Fault, buffer: array<u8>, at: nat, size: u32, delays: seq<u64>, status: int)
    returns (delays': seq<u64>, status': int)
    requires at < buffer.Length && (status == FBD_STS_OK || status == FBD_STS_MEDIUM_ERROR)
    modifies buffer
    ensures buffer[..] == if f.kind == FBD_FAULT_BIT_FLIP then old(buffer[..])[at := FaultLibrary.FlipLowBit(old(buffer[at]))] else old(buffer[..])
    ensures delays' == delays + if f.kind == FBD_FAULT_SLOW_DISK then [f.delay] else []
    ensures status' == if f.kind == FBD_FAULT_MEDIUM then FBD_STS_MEDIUM_ERROR else status
  {
    delays', status' := delays, status;
    if f.kind == FBD_FAULT_BIT_FLIP {
      var _ := FaultLibrary.InjectBitFlip(buffer, at, size);
    } else if f.kind == FBD_FAULT_SLOW_DISK {
      // fl_inject_slow_disk_fault sleeps that long; the time itself is not modelled.
      delays' := delays + [f.delay];
    } else if f.kind == FBD_FAULT_MEDIUM {
      status' := FaultLibrary.InjectMedium();
    }
  }

  lemma KeepOne(kept: seq<Fault>, faults: seq<Fault>, c: nat)
    requires c < |faults|
    ensures kept + faults[c..] == (kept + [faults[c]]) + faults[c + 1..]
  {
    assert faults[c..] == [faults[c]] + faults[c + 1..];
  }

  lemma ShiftOut(kept: seq<Fault>, faults: seq<Fault>, c: nat)
    requires c < |faults|
    ensures var cur := kept + faults[c..]; var j := |kept|;
      cur[..j] + cur[j + 1..] == kept + faults[c + 1..]
  {
    var cur := kept + faults[c..];
    assert cur[..|kept|] == kept;
    assert cur[|kept| + 1..] == faults[c + 1..];
  }

  datatype Exempted = Exempted(range: Range, rewritten: bool)

  /**
   * `fbd_check_dedup_injection_exceptions`: on a dedup range, a read meets the range's first bit
   * flip fault for writes; if it is still active the read's data is flipped, written back to the
   * device, and the fault is made inactive.
   */
  function DedupExempt(r: Range, operation: u8): (e: Exempted)
    ensures e.range.target == r.target && |e.range.faults| == |r.faults|
    ensures e.rewritten <==> (r.target.DedupTarget? && operation == FBD_OP_READ
              && FindFault(r.faults, FBD_FAULT_BIT_FLIP, FBD_OP_WRITE).Some?
              && r.faults[FindFault(r.faults, FBD_FAULT_BIT_FLIP, FBD_OP_WRITE).value].active)
    ensures !e.rewritten ==> e.range == r
    ensures forall k :: 0 <= k < |r.faults| ==> e.range.faults[k] == r.faults[k] || (e.rewritten && e.range.faults[k] == r.faults[k].(active := false))
  {
    match FindFaultInMode(r, FBD_FAULT_BIT_FLIP, FBD_OP_WRITE, FBD_MODE_DEDUP)
    case None => Exempted(r, false)
    case Some(k) =>
      if r.faults[k].active && operation == FBD_OP_READ then
        Exempted(r.(faults := r.faults[k := r.faults[k].(active := false)]), true)
      else Exempted(r, false)
  }

  /** The exception fires once per fault: a second read of the same content rewrites nothing. */
  lemma DedupExemptOnce(r: Range)
    ensures !DedupExempt(DedupExempt(r, FBD_OP_READ).range, FBD_OP_READ).rewritten
  {
    var e := DedupExempt(r, FBD_OP_READ);
    if e.rewritten {
      var k := FindFault(r.faults, FBD_FAULT_BIT_FLIP, FBD_OP_WRITE).value;
      var fs := e.range.faults;
      forall i | 0 <= i < |fs|
        ensures Matches(fs[i], FBD_FAULT_BIT_FLIP, FBD_OP_WRITE) <==> Matches(r.faults[i], FBD_FAULT_BIT_FLIP, FBD_OP_WRITE)
      {
      }
      assert FindFault(fs, FBD_FAULT_BIT_FLIP, FBD_OP_WRITE) == Some(k);
    }
  }

  /** The dedup exception's effect on the request buffer (and the device, by `pwrite`). */
  method DedupException(r: Range, operation: u8, buffer: array<u8>, at: nat, size: u32)
    returns (updated: Range, rewritten: bool)
    requires at < buffer.Length
    modifies buffer
    ensures Exempted(updated, rewritten) == DedupExempt(r, operation)
    ensures buffer[..] == if rewritten then old(buffer[..])[at := FaultLibrary.FlipLowBit(old(buffer[at]))] else old(buffer[..])
  {
    updated, rewritten := r, false;
    if r.target.DedupTarget? {
      var k := GetFault(r.faults, FBD_FAULT_BIT_FLIP, FBD_OP_WRITE);
      if k.Some? && r.faults[k.value].active && operation == FBD_OP_READ {
        var _ := FaultLibrary.InjectBitFlip(buffer, at, size);
        // The flipped block is written back to the device with pwrite, which is not modelled.
        updated := r.(faults := r.faults[k.value := r.faults[k.value].(active := false)]);
        rewritten := true;
      }
    }
  }

  /** Whether a request hits a range: its block interval meets the range's, or its hash matches. */
  predicate Hits(t: Target, size: u32, offset: u64, hash: HashBytes)
  {
    match t
    case BlockTarget(bs, bo) =>
      // Both ends are computed in uint64_t arithmetic, so a size of 0 wraps to the top.
      InterseptMemory(bo, ToU64(bo + bs - 1), offset, ToU64(offset + size - 1)).0
    case HashTarget(h) => HashesMatch(hash, h)
    case DedupTarget(h) => HashesMatch(hash, h)
  }

  /** The first range a request hits. */
  function FirstHit(rs: seq<Range>, size: u32, offset: u64, hash: HashBytes): (r: Option<nat>)
    ensures r.Some? ==> r.value < |rs| && Hits(rs[r.value].target, size, offset, hash)
    ensures r.Some? ==> forall k :: 0 <= k < r.value ==> !Hits(rs[k].target, size, offset, hash)
    ensures r.None? ==> forall k :: 0 <= k < |rs| ==> !Hits(rs[k].target, size, offset, hash)
  {
    FirstHitFrom(rs, size, offset, hash, 0)
  }

  function FirstHitFrom(rs: seq<Range>, size: u32, offset: u64, hash: HashBytes, start: nat): (r: Option<nat>)
    requires start <= |rs|
    requires forall k :: 0 <= k < start ==> !Hits(rs[k].target, size, offset, hash)
    ensures r.Some? ==> start <= r.value < |rs| && Hits(rs[r.value].target, size, offset, hash)
    ensures r.Some? ==> forall k :: 0 <= k < r.value ==> !Hits(rs[k].target, size, offset, hash)
    ensures r.None? ==> forall k :: 0 <= k < |rs| ==> !Hits(rs[k].target, size, offset, hash)
    decreases |rs| - start
  {
    if start == |rs| then None
    else if Hits(rs[start].target, size, offset, hash) then Some(start)
    else FirstHitFrom(rs, size, offset, hash, start + 1)
  }

  datatype Injection = Injection(ranges: seq<Range>, status: int, flips: nat, delays: seq<u64>, rewritten: bool)

  /**
   * `fbd_check_and_inject_fault`: only the first range the request hits is processed — the dedup
   * exception, then its faults fire — and the range is unlinked when no fault is left in it.
   */
  function Injected(rs: seq<Range>, operation: u8, size: u32, offset: u64, hash: HashBytes): Injection
  {
    match FirstHit(rs, size, offset, hash)
    case None => Injection(rs, FBD_STS_OK, 0, [], false)
    case Some(i) =>
      var ex := DedupExempt(rs[i], operation);
      var fired := FireAll(ex.range.faults, operation);
      var after := if fired.kept == [] then rs[..i] + rs[i + 1..] else rs[i := Range(rs[i].target, fired.kept)];
      Injection(after, if fired.medium then FBD_STS_MEDIUM_ERROR else FBD_STS_OK,
                (if ex.rewritten then 1 else 0) + fired.flips, fired.delays, ex.rewritten)
  }

  /** `Injected` on a request that hits range `i`. */
  lemma InjectedOnHit(rs: seq<Range>, operation: u8, size: u32, offset: u64, hash: HashBytes, i: nat)
    requires FirstHit(rs, size, offset, hash) == Some(i)
    ensures i < |rs|
    ensures var ex := DedupExempt(rs[i], operation);
      var fired := FireAll(ex.range.faults, operation);
      var inj := Injected(rs, operation, size, offset, hash);
      && inj.flips == (if ex.rewritten then 1 else 0) + fired.flips
      && inj.status == (if fired.medium then FBD_STS_MEDIUM_ERROR else FBD_STS_OK)
      && inj.delays == fired.delays && inj.rewritten == ex.rewritten
      && inj.ranges == if fired.kept == [] then rs[..i] + rs[i + 1..] else rs[i := Range(rs[i].target, fired.kept)]
  {
  }

  /** `Injected` on a request that hits no range. */
  lemma InjectedOnMiss(rs: seq<Range>, operation: u8, size: u32, offset: u64, hash: HashBytes)
    requires FirstHit(rs, size, offset, hash) == None
    ensures Injected(rs, operation, size, offset, hash) == Injection(rs, FBD_STS_OK, 0, [], false)
  {
  }

  lemma RemoveKeepsValid(rs: seq<Range>, i: nat)
    requires ValidRanges(rs) && i < |rs|
    ensures ValidRanges(rs[..i] + rs[i + 1..])
  {
    var out := rs[..i] + rs[i + 1..];
    forall a | 0 <= a < |out|
      ensures out[a] == rs[if a < i then a else a + 1]
    {
    }
  }

  lemma {:induction false} NoConflictsDeactivate(faults: seq<Fault>, deactivated: seq<Fault>)
    requires NoConflicts(faults) && |deactivated| == |faults|
    requires forall k :: 0 <= k < |faults| ==> deactivated[k] == faults[k] || deactivated[k] == faults[k].(active := false)
    ensures NoConflicts(deactivated)
  {
    forall i, j | 0 <= i < j < |deactivated|
      ensures !Matches(deactivated[i], deactivated[j].kind, deactivated[j].operation)
    {
      assert !Matches(faults[i], faults[j].kind, faults[j].operation);
    }
  }

  /** Injection keeps the registry's invariant. */
  lemma InjectedKeepsValid(rs: seq<Range>, operation: u8, size: u32, offset: u64, hash: HashBytes)
    requires ValidRanges(rs)
    ensures ValidRanges(Injected(rs, operation, size, offset, hash).ranges)
  {
    match FirstHit(rs, size, offset, hash)
    case None =>
    case Some(i) =>
      var ex := DedupExempt(rs[i], operation);
      var fired := FireAll(ex.range.faults, operation);
      if fired.kept == [] {
        RemoveKeepsValid(rs, i);
      } else {
        assert NoConflicts(fired.kept) by {
          NoConflictsDeactivate(rs[i].faults, ex.range.faults);
          FireAllKeepsNoConflicts(ex.range.faults, operation);
        }
        assert |fired.kept| <= |ex.range.faults| by {
          FireAllMeaning(ex.range.faults, operation);
        }
        ReplaceKeepsValid(rs, i, fired.kept);
      }
  }

  lemma ReplaceKeepsValid(rs: seq<Range>, i: nat, faults: seq<Fault>)
    requires ValidRanges(rs) && i < |rs| && ValidRange(Range(rs[i].target, faults))
    ensures ValidRanges(rs[i := Range(rs[i].target, faults)])
  {
    var out := rs[i := Range(rs[i].target, faults)];
    assert forall k :: 0 <= k < |out| ==> out[k].target == rs[k].target;
  }

  /** No range is keyed by a hash: the device never has to hash a request for its faults. */
  predicate BlockOnly(rs: seq<Range>)
  {
    forall k :: 0 <= k < |rs| ==> rs[k].target.BlockTarget?
  }

  /** Injection only removes or updates ranges in place, so it adds no hash-keyed range. */
  lemma InjectedKeepsBlockOnly(rs: seq<Range>, operation: u8, size: u32, offset: u64, hash: HashBytes)
    requires BlockOnly(rs)
    ensures BlockOnly(Injected(rs, operation, size, offset, hash).ranges)
  {
    match FirstHit(rs, size, offset, hash)
    case None =>
    case Some(i) =>
      var ex := DedupExempt(rs[i], operation);
      var fired := FireAll(ex.range.faults, operation);
      if fired.kept == [] {
        var out := rs[..i] + rs[i + 1..];
        assert forall k :: 0 <= k < |out| ==> out[k] == rs[if k < i then k else k + 1];
      }
  }

  /**
   * What injection promises: a request that hits no range changes nothing; otherwise every other
   * range is untouched (the hit one may be unlinked), persistent faults of the hit range stay,
   * and the request fails with a medium error exactly when a medium fault of that range fires.
   */
  lemma InjectedMeaning(rs: seq<Range>, operation: u8, size: u32, offset: u64, hash: HashBytes)
    ensures var inj := Injected(rs, operation, size, offset, hash);
      match FirstHit(rs, size, offset, hash)
      case None => inj == Injection(rs, FBD_STS_OK, 0, [], false)
      case Some(i) =>
        var faults := DedupExempt(rs[i], operation).range.faults;
        && (inj.status == FBD_STS_MEDIUM_ERROR <==> SomeFires(faults, operation, FBD_FAULT_MEDIUM))
        && (inj.status == FBD_STS_OK || inj.status == FBD_STS_MEDIUM_ERROR)
        && inj.ranges[..i] == rs[..i]
        && (|inj.ranges| == |rs| ==> inj.ranges[i + 1..] == rs[i + 1..] && inj.ranges[i].target == rs[i].target)
        && (|inj.ranges| != |rs| ==> inj.ranges[i..] == rs[i + 1..])
        && (forall k :: 0 <= k < |faults| && faults[k].persistent ==>
              |inj.ranges| == |rs| && faults[k] in inj.ranges[i].faults)
  {
    match FirstHit(rs, size, offset, hash)
    case None =>
    case Some(i) =>
      var faults := DedupExempt(rs[i], operation).range.faults;
      FireAllMeaning(faults, operation);
      var fired := FireAll(faults, operation);
      forall k | 0 <= k < |faults| && faults[k].persistent
        ensures fired.kept != []
      {
        assert faults[k] in fired.kept;
      }
  }

  // ---------------------------------------------------------------------------------------------
  // The device

  /** Which fault modes the user enabled on the command line. */
  datatype UserSettings = UserSettings(blockMode: bool, hashMode: bool, dedupMode: bool, deviceMode: bool)

  /**
   * The device's hash type is one it can compute whenever it hashes request data: in hash or
   * dedup mode, or while some range is keyed by a hash.
   */
  predicate HashingDefinedFor(settings: UserSettings, hashType: u8, rs: seq<Range>)
  {
    (settings.hashMode || settings.dedupMode || !BlockOnly(rs)) ==> KnownHashType(hashType)
  }

  /** Injection keeps the hash type defined where it is needed. */
  lemma InjectedKeepsHashingDefined(settings: UserSettings, hashType: u8, rs: seq<Range>,
                                    operation: u8, size: u32, offset: u64, hash: HashBytes)
    requires HashingDefinedFor(settings, hashType, rs)
    ensures HashingDefinedFor(settings, hashType, Injected(rs, operation, size, offset, hash).ranges)
  {
    if BlockOnly(rs) {
      InjectedKeepsBlockOnly(rs, operation, size, offset, hash);
    }
  }

  /** `struct fbd_device`: the underlying device and the fault registry attached to it. */
  class FbdDevice {
    var path: Option<string>
    var index: int
    var fd: int
    var size: u64
    var logicalBlockSize: u32
    var settings: UserSettings
    var ranges: seq<Range>
    var hashType: u8

    predicate Valid()
      reads this
    {
      ValidRanges(ranges)
    }

    /** Hashing is defined whenever the device hashes request data or compares stored hashes. */
    predicate HashingDefined()
      reads this
    {
      HashingDefinedFor(settings, hashType, ranges)
    }

    /**
     * `fbd_new_device`: no index and no path yet, every mode off, no fault. The source leaves
     * `hash_type` as `malloc` returned it; `garbageHashType` stands for that byte.
     */
    constructor (fd: int, garbageHashType: u8)
      ensures this.fd == fd && index == -1 && path == None && hashType == garbageHashType
      ensures settings == UserSettings(false, false, false, false)
      ensures ranges == [] && Valid()
    {
      this.fd := fd;
      hashType := garbageHashType;
      index := -1;
      path := None;
      settings := UserSettings(false, false, false, false);
      ranges := [];
    }

    /** `get_range_block`, `get_range_hash` and `get_range_dedup`: walks the list for the key. */
    method GetRange(target: Target) returns (r: Option<nat>)
      ensures r == FindRange(ranges, target)
    {
      var i := 0;
      while i < |ranges|
        invariant 0 <= i <= |ranges|
        invariant forall k :: 0 <= k < i ==> !SameKey(target, ranges[k].target)
      {
        if SameKey(target, ranges[i].target) {
          return Some(i);
        }
        i := i + 1;
      }
      return None;
    }

    /**
     * `fbd_add_{block,hash,dedup}_fault_with_operation` with `add_fault` and `add_range_fault`:
     * registers a new fault for the key of `target`.
     */
    method AddFault(target: Target, kind: u8, persistent: bool, op: u8, delay: u64) returns (sts: int)
      requires Valid()
      modifies this`ranges
      ensures Valid()
      ensures Addition(sts, ranges) == Added(old(ranges), target, NewFault(op, kind, persistent, delay))
    {
      var f := NewFault(op, kind, persistent, delay);
      AddedKeepsValid(ranges, target, f);
      var i := GetRange(target);
      if i.None? {
        ranges := [Range(target, [f])] + ranges;
        return FBD_STS_OK;
      }
      var range := ranges[i.value];
      var existing := GetFault(range.faults, kind, op);
      if existing.Some? {
        return FBD_STS_DUP_FAULT;
      }
      if |range.faults| >= MAX_FAULTS {
        return FBD_STS_ERROR;
      }
      ranges := ranges[i.value := Range(range.target, range.faults + [f])];
      return FBD_STS_OK;
    }

    /** `fbd_add_bit_flip_{block,hash,dedup}_fault` (the write and read variants fix `op`). */
    method AddBitFlipFault(target: Target, op: u8, persistent: bool) returns (sts: int)
      requires Valid()
      modifies this`ranges
      ensures Valid()
      ensures Addition(sts, ranges) == Added(old(ranges), target, NewFault(op, FBD_FAULT_BIT_FLIP, persistent, 0))
    {
      if target.BlockTarget? {
        sts := CheckSizeOffset(target.size, target.offset);
        if sts != FBD_STS_OK {
          return;
        }
      }
      sts := AddFault(target, FBD_FAULT_BIT_FLIP, persistent, op, 0);
    }

    /**
     * `fbd_add_slow_disk_{block,hash,dedup}_fault`: the delay in milliseconds goes with the fault.
     * The block variant's `ms < 0` test can never hold for a `uint64_t`.
     */
    method AddSlowDiskFault(target: Target, op: u8, persistent: bool, ms: u64) returns (sts: int)
      requires Valid()
      modifies this`ranges
      ensures Valid()
      ensures Addition(sts, ranges) == Added(old(ranges), target, NewFault(op, FBD_FAULT_SLOW_DISK, persistent, ms))
    {
      if target.BlockTarget? {
        sts := CheckSizeOffset(target.size, target.offset);
        if sts != FBD_STS_OK {
          return;
        }
        if ms < 0 {
          return FBD_STS_WRONG_INPUT;
        }
      }
      sts := AddFault(target, FBD_FAULT_SLOW_DISK, persistent, op, ms);
    }

    /** `fbd_add_medium_error_{block,hash,dedup}_fault`. */
    method AddMediumErrorFault(target: Target, op: u8, persistent: bool) returns (sts: int)
      requires Valid()
      modifies this`ranges
      ensures Valid()
      ensures Addition(sts, ranges) == Added(old(ranges), target, NewFault(op, FBD_FAULT_MEDIUM, persistent, 0))
    {
      if target.BlockTarget? {
        sts := CheckSizeOffset(target.size, target.offset);
        if sts != FBD_STS_OK {
          return;
        }
      }
      sts := AddFault(target, FBD_FAULT_MEDIUM, persistent, op, 0);
    }

    /** `fbd_remove_all_faults`. */
    method RemoveAllFaults() returns (sts: int)
      modifies this`ranges
      ensures ranges == [] && Valid() && sts == FBD_STS_OK
    {
      ranges := [];
      sts := FBD_STS_OK;
    }

    /** The loop of `fbd_check_and_inject_fault` that looks for the first range the request hits. */
    method FindHit(size: u32, offset: u64, hash: HashBytes) returns (hit: Option<nat>)
      ensures hit == FirstHit(ranges, size, offset, hash)
    {
      var i := 0;
      while i < |ranges|
        invariant 0 <= i <= |ranges|
        invariant forall k :: 0 <= k < i ==> !Hits(ranges[k].target, size, offset, hash)
      {
        var t := ranges[i].target;
        var intersected;
        if t.BlockTarget? {
          var inter := InterseptMemory(t.offset, ToU64(t.offset + t.size - 1), offset, ToU64(offset + size - 1));
          intersected := inter.0;
        } else {
          intersected := HashesMatch(hash, t.hash);
        }
        if intersected {
          return Some(i);
        }
        i := i + 1;
      }
      return None;
    }

    /**
     * `fbd_check_and_inject_fault` (and its read and write wrappers) on a request of `size`
     * bytes at `offset` whose data is `buffer` and whose data hashes to `hash`. The delays are the
     * sleeps of the slow-disk faults that fired, in order; `rewritten` says the dedup exception
     * wrote the flipped data back to the device.
     */
    method CheckAndInject(buffer: array<u8>, at: nat, size: u32, offset: u64, operation: u8, hash: HashBytes)
      returns (status: int, delays: seq<u64>, rewritten: bool)
      requires Valid() && HashingDefined() && at < buffer.Length
      requires operation == FBD_OP_WRITE || operation == FBD_OP_READ
      modifies this`ranges, buffer
      ensures Valid() && HashingDefined()
      ensures var inj := Injected(old(ranges), operation, size, offset, hash);
        && ranges == inj.ranges && status == inj.status && delays == inj.delays && rewritten == inj.rewritten
        && buffer[..] == old(buffer[..])[at := FlipTimes(old(buffer[at]), inj.flips)]
    {
      var hit := FindHit(size, offset, hash);
      if hit.None? {
        InjectedOnMiss(ranges, operation, size, offset, hash);
        assert buffer[..] == buffer[..][at := FlipTimes(buffer[at], 0)];
        return FBD_STS_OK, [], false;
      }
      status, delays, rewritten := InjectHit(hit.value, buffer, at, size, offset, operation, hash);
    }

    /** `fbd_check_and_inject_fault` once the request is known to hit range `i` first. */
    method InjectHit(i: nat, buffer: array<u8>, at: nat, size: u32, offset: u64, operation: u8, hash: HashBytes)
      returns (status: int, delays: seq<u64>, rewritten: bool)
      requires Valid() && HashingDefined() && at < buffer.Length
      requires FirstHit(ranges, size, offset, hash) == Some(i)
      modifies this`ranges, buffer
      ensures Valid() && HashingDefined()
      ensures var inj := Injected(old(ranges), operation, size, offset, hash);
        && ranges == inj.ranges && status == inj.status && delays == inj.delays && rewritten == inj.rewritten
        && buffer[..] == old(buffer[..])[at := FlipTimes(old(buffer[at]), inj.flips)]
    {
      InjectedKeepsValid(ranges, operation, size, offset, hash);
      InjectedKeepsHashingDefined(settings, hashType, ranges, operation, size, offset, hash);
      InjectedOnHit(ranges, operation, size, offset, hash, i);
      status, delays, rewritten := InjectAt(i, buffer, at, size, operation);
    }

    /** The part of `fbd_check_and_inject_fault` that runs once the request hit range `i`. */
    method InjectAt(i: nat, buffer: array<u8>, at: nat, size: u32, operation: u8)
      returns (status: int, delays: seq<u64>, rewritten: bool)
      requires i < |ranges| && at < buffer.Length
      modifies this`ranges, buffer
      ensures var ex := DedupExempt(old(ranges)[i], operation);
        var fired := FireAll(ex.range.faults, operation);
        && ranges == (if fired.kept == [] then old(ranges)[..i] + old(ranges)[i + 1..]
                      else old(ranges)[i := Range(old(ranges)[i].target, fired.kept)])
        && status == (if fired.medium then FBD_STS_MEDIUM_ERROR else FBD_STS_OK)
        && delays == fired.delays && rewritten == ex.rewritten
        && buffer[..] == old(buffer[..])[at := FlipTimes(old(buffer[at]), (if ex.rewritten then 1 else 0) + fired.flips)]
    {
      ghost var b := buffer[..];
      var range;
      range, rewritten := DedupException(ranges[i], operation, buffer, at, size);
      ghost var m := if rewritten then 1 else 0;
      assert buffer[..] == b[at := FlipTimes(b[at], m)];
      var kept;
      kept, delays, status := FireFaults(range.faults, operation, buffer, at, size);
      FlipTimesAdd(b[at], m, FireAll(range.faults, operation).flips);
      if |kept| == 0 {
        ranges := ranges[..i] + ranges[i + 1..];
      } else {
        ranges := ranges[i := Range(ranges[i].target, kept)];
      }
    }
  }
}
