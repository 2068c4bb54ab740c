/**
 * kbdus's control device (bdus/kbdus/src/control.c): the registry of existing devices, kept
 * sorted by device index, the counter that hands out device seqnums, and the decisions the
 * control ioctls and the release of a control session take.
 *
 * Each section run under the global mutex is one atomic method. Copies to and from user
 * space, allocations, protocol instances and the kernel's block-device objects are not
 * modelled; where their failure changes the outcome, the failure is a parameter.
 */
module KbdusControl {
  import opened CTypes
  import opened Wrappers
  import opened KbdusAbi
  import KbdusDevice

  type DeviceState = KbdusDevice.DeviceState

  /** `DISK_MAX_PARTS`: minors reserved per device. */
  const DISK_MAX_PARTS: nat := 256

  /** `validate_module_parameters_`: `max_devices` must lie in [1, KBDUS_HARD_MAX_DEVICES]. */
  function ValidateMaxDevices(maxDevices: u32): (ret: int)
    ensures ret == 0 <==> 1 <= maxDevices as nat <= HARD_MAX_DEVICES
    ensures ret != 0 ==> ret == -(EINVAL as int)
  {
    if maxDevices < 1 || maxDevices as nat > HARD_MAX_DEVICES then -(EINVAL as int) else 0
  }

  /**
   * `struct kbdus_control_device_wrapper_` together with the parts of its device the registry
   * consults: the device's index and seqnum, its state, whether it is destroyed when detached
   * and whether it is read-only; `session` names the attached session and `onDetach` says
   * whether an attach is waiting for that session to go.
   */
  datatype Wrapper = Wrapper(
    index: u32,
    seqnum: nat,
    state: DeviceState,
    destroyWhenDetached: bool,
    readOnly: bool,
    session: Option<nat>,
    onDetach: bool)

  /** The list is sorted by strictly increasing device index. */
  predicate SortedByIndex(ds: seq<Wrapper>)
  {
    forall i, j :: 0 <= i < j < |ds| ==> ds[i].index < ds[j].index
  }

  /** Every listed device got its seqnum before `next`. */
  predicate SeqnumsBelow(ds: seq<Wrapper>, next: nat)
  {
    forall i :: 0 <= i < |ds| ==> ds[i].seqnum < next
  }

  predicate DistinctSeqnums(ds: seq<Wrapper>)
  {
    forall i, j :: 0 <= i < |ds| && 0 <= j < |ds| && i != j ==> ds[i].seqnum != ds[j].seqnum
  }

  predicate IndicesBelow(ds: seq<Wrapper>, max: nat)
  {
    forall i :: 0 <= i < |ds| ==> ds[i].index as nat < max
  }

  /** Whether some listed device has the given index. */
  predicate IndexUsed(ds: seq<Wrapper>, index: nat)
  {
    exists k :: 0 <= k < |ds| && ds[k].index as nat == index
  }

  /** Whether some listed device has the given seqnum. */
  predicate SeqnumPresent(ds: seq<Wrapper>, seqnum: nat)
  {
    exists k :: 0 <= k < |ds| && ds[k].seqnum == seqnum
  }

  /** Inserting at a position between smaller and larger indices keeps the list sorted. */
  lemma InsertKeepsSorted(ds: seq<Wrapper>, pos: nat, w: Wrapper)
    requires SortedByIndex(ds) && pos <= |ds|
    requires forall k :: 0 <= k < pos ==> ds[k].index < w.index
    requires forall k :: pos <= k < |ds| ==> w.index < ds[k].index
    ensures SortedByIndex(ds[..pos] + [w] + ds[pos..])
  {
    var r := ds[..pos] + [w] + ds[pos..];
    forall i, j | 0 <= i < j < |r| ensures r[i].index < r[j].index {
      if j < pos {
        assert r[i] == ds[i] && r[j] == ds[j];
      } else if j == pos {
        assert r[i] == ds[i] && r[j] == w;
      } else if i < pos {
        assert r[i] == ds[i] && r[j] == ds[j - 1];
      } else if i == pos {
        assert r[i] == w && r[j] == ds[j - 1];
      } else {
        assert r[i] == ds[i - 1] && r[j] == ds[j - 1];
      }
    }
  }

  lemma InsertKeepsSeqnums(ds: seq<Wrapper>, pos: nat, w: Wrapper, next: nat)
    requires SeqnumsBelow(ds, next) && DistinctSeqnums(ds) && pos <= |ds| && w.seqnum == next
    ensures SeqnumsBelow(ds[..pos] + [w] + ds[pos..], next + 1)
    ensures DistinctSeqnums(ds[..pos] + [w] + ds[pos..])
  {
    var r := ds[..pos] + [w] + ds[pos..];
    assert forall i :: 0 <= i < |r| ==> r[i] == (if i < pos then ds[i] else if i == pos then w else ds[i - 1]);
  }

  lemma InsertKeepsBound(ds: seq<Wrapper>, pos: nat, w: Wrapper, max: nat)
    requires IndicesBelow(ds, max) && pos <= |ds| && w.index as nat < max
    ensures IndicesBelow(ds[..pos] + [w] + ds[pos..], max)
  {
    var r := ds[..pos] + [w] + ds[pos..];
    assert forall i :: 0 <= i < |r| ==> r[i] == (if i < pos then ds[i] else if i == pos then w else ds[i - 1]);
  }

  /** Removing an entry keeps every list property. */
  lemma RemoveKeeps(ds: seq<Wrapper>, k: nat, next: nat, max: nat)
    requires k < |ds|
    requires SortedByIndex(ds) && SeqnumsBelow(ds, next) && DistinctSeqnums(ds) && IndicesBelow(ds, max)
    ensures var r := ds[..k] + ds[k + 1..];
      SortedByIndex(r) && SeqnumsBelow(r, next) && DistinctSeqnums(r) && IndicesBelow(r, max)
  {
    var r := ds[..k] + ds[k + 1..];
    assert forall i :: 0 <= i < |r| ==> r[i] == (if i < k then ds[i] else ds[i + 1]);
  }

  /**
   * Past the first gap in a list that starts 0, 1, …, i-1, every index is above i: the
   * argument that lets `find_unused_index_` stop at the first mismatch.
   */
  lemma AboveFirstGap(ds: seq<Wrapper>, i: nat, k: nat)
    requires SortedByIndex(ds) && i <= k < |ds|
    requires forall m :: 0 <= m < i ==> ds[m].index as nat == m
    requires ds[i].index as nat != i
    ensures i < ds[k].index as nat
  {
    if i > 0 {
      assert ds[i - 1].index as nat == i - 1;
    }
  }

  /** Replacing an entry by one with the same index and seqnum keeps every list property. */
  lemma ReplaceKeeps(ds: seq<Wrapper>, k: nat, w: Wrapper, next: nat, max: nat)
    requires k < |ds| && w.index == ds[k].index && w.seqnum == ds[k].seqnum
    requires SortedByIndex(ds) && SeqnumsBelow(ds, next) && DistinctSeqnums(ds) && IndicesBelow(ds, max)
    ensures var r := ds[k := w];
      SortedByIndex(r) && SeqnumsBelow(r, next) && DistinctSeqnums(r) && IndicesBelow(r, max)
  {
  }

  /**
   * A control session (`struct kbdus_control_session_`): the seqnum of the device it is
   * attached to, if any (the ATTACHED flag and `device_wrapper`), and the SUCCESSFUL flag.
   */
  class Session {
    const id: nat
    var attached: Option<nat>
    var successful: bool

    /** `kbdus_control_open_` after its checks: both flags clear. */
    constructor (id: nat)
      ensures this.id == id && attached.None? && !successful
    {
      this.id := id;
      attached := None;
      successful := false;
    }

    /** `KBDUS_IOCTL_MARK_AS_SUCCESSFUL`: sets the flag and succeeds. */
    method MarkAsSuccessful() returns (ret: int)
      modifies this
      ensures ret == 0 && successful && attached == old(attached)
    {
      successful := true;
      ret := 0;
    }

    /**
     * `read_iter`, `write_iter` and `mmap` on the control device: -EINVAL unless the session
     * is attached, else what the device's handler returns (`delegated`).
     */
    method DataOperation(delegated: int) returns (ret: int)
      ensures attached.None? ==> ret == -(EINVAL as int)
      ensures attached.Some? ==> ret == delegated
    {
      if attached.None? {
        ret := -(EINVAL as int);
      } else {
        ret := delegated;
      }
    }

    /** An ioctl command the control device does not know: -ENOTTY unless attached, else delegated. */
    method UnknownIoctl(delegated: int) returns (ret: int)
      ensures attached.None? ==> ret == -(ENOTTY as int)
      ensures attached.Some? ==> ret == delegated
    {
      if attached.None? {
        ret := -(ENOTTY as int);
      } else {
        ret := delegated;
      }
    }
  }

  /** `kbdus_control_open_`: -EACCES without CAP_SYS_ADMIN, else a fresh session. */
  method Open(capable: bool, id: nat) returns (ret: int, session: Session?)
    ensures !capable ==> ret == -(EACCES as int) && session == null
    ensures capable ==> (ret == 0 && session != null && fresh(session)
      && session.id == id && session.attached.None? && !session.successful)
  {
    if !capable {
      ret := -(EACCES as int);
      session := null;
    } else {
      session := new Session(id);
      ret := 0;
    }
  }

  /** What a termination request does to a device in a given state. */
  datatype TerminationAction = DoTerminate | DoDeactivate | DoNothing

  /** `KBDUS_IOCTL_REQUEST_SESSION_TERMINATION`'s decision for an existing device. */
  function TerminationFor(state: DeviceState, destroyWhenDetached: bool): (a: TerminationAction)
    ensures state == KbdusDevice.Unavailable ==> a == DoTerminate
    ensures state == KbdusDevice.Active ==> a == (if destroyWhenDetached then DoTerminate else DoDeactivate)
    ensures state == KbdusDevice.Inactive ==> a == (if destroyWhenDetached then DoTerminate else DoNothing)
    ensures state == KbdusDevice.Terminated ==> a == DoNothing
  {
    match state
    case Unavailable => DoTerminate
    case Active => if destroyWhenDetached then DoTerminate else DoDeactivate
    case Inactive => if destroyWhenDetached then DoTerminate else DoNothing
    case Terminated => DoNothing
  }

  /** The state a termination action leaves the device in. */
  function ApplyTermination(state: DeviceState, a: TerminationAction): DeviceState
  {
    match a
    case DoTerminate => KbdusDevice.Terminated
    case DoDeactivate => KbdusDevice.Inactive
    case DoNothing => state
  }

  /**
   * Every termination decision is a transition the device accepts, and it never leaves the
   * device ACTIVE: a device that was serving stops doing so.
   */
  lemma TerminationIsAccepted(state: DeviceState, destroyWhenDetached: bool)
    ensures var a := TerminationFor(state, destroyWhenDetached);
      (a == DoTerminate ==> KbdusDevice.Next(state, KbdusDevice.Event.Terminate) == Some(KbdusDevice.Terminated))
      && (a == DoDeactivate ==> KbdusDevice.Next(state, KbdusDevice.Event.Deactivate) == Some(KbdusDevice.Inactive))
      && ApplyTermination(state, a) != KbdusDevice.Active
      && (destroyWhenDetached ==> ApplyTermination(state, a) == KbdusDevice.Terminated)
  {
  }

  /** The device registry: `kbdus_control_devices_` and `kbdus_control_next_seqnum_`. */
  class Registry {
    /** The module parameter `max_devices`. */
    const maxDevices: nat
    /** The existing devices, sorted by index. */
    var devices: seq<Wrapper>
    /** The seqnum the next device created gets. */
    var nextSeqnum: nat

    ghost predicate Valid()
      reads this
    {
      1 <= maxDevices <= HARD_MAX_DEVICES
      && SortedByIndex(devices) && IndicesBelow(devices, maxDevices)
      && SeqnumsBelow(devices, nextSeqnum) && DistinctSeqnums(devices)
    }

    /** The registry at module load, once `max_devices` has passed validation. */
    constructor (maxDevices: u32)
      requires ValidateMaxDevices(maxDevices) == 0
      ensures Valid() && this.maxDevices == maxDevices as nat && devices == [] && nextSeqnum == 0
    {
      this.maxDevices := maxDevices as nat;
      devices := [];
      nextSeqnum := 0;
    }

    /**
     * `kbdus_control_find_unused_index_` (without the debugfs check): the smallest index below
     * `max_devices` that no device uses, and the list position where a device with that index
     * keeps the list sorted; not found when every index is taken.
     */
    method FindUnusedIndex() returns (found: bool, index: u32, pos: nat)
      requires Valid()
      ensures found ==> index as nat < maxDevices && !IndexUsed(devices, index as nat)
      ensures found ==> forall j :: 0 <= j < index as nat ==> IndexUsed(devices, j)
      ensures found ==> (pos == index as nat && pos <= |devices|
        && (forall k :: 0 <= k < pos ==> devices[k].index < index)
        && (forall k :: pos <= k < |devices| ==> index < devices[k].index))
      ensures !found ==> forall j :: 0 <= j < maxDevices ==> IndexUsed(devices, j)
    {
      var i: nat := 0;
      found, index, pos := false, 0, 0;
      while i < maxDevices
        invariant i <= maxDevices && i <= |devices|
        invariant forall k :: 0 <= k < i ==> devices[k].index as nat == k
      {
        if i < |devices| && devices[i].index as nat == i {
          i := i + 1;
          continue;
        }
        assert forall k :: i <= k < |devices| ==> i < devices[k].index as nat by {
          forall k | i <= k < |devices| ensures i < devices[k].index as nat {
            AboveFirstGap(devices, i, k);
          }
        }
        found, index, pos := true, i as u32, i;
        forall j | 0 <= j < i ensures IndexUsed(devices, j) {
          assert devices[j].index as nat == j;
        }
        forall k | 0 <= k < |devices| ensures devices[k].index as nat != i {
          if k < i { assert devices[k].index as nat == k; }
        }
        return;
      }
      forall j | 0 <= j < maxDevices ensures IndexUsed(devices, j) {
        assert devices[j].index as nat == j;
      }
    }

    /**
     * `kbdus_control_lookup_device_wrapper_by_index_`: the position of the device with that
     * index. The walk stops at the first larger index, which is correct because the list is
     * sorted.
     */
    method LookupByIndex(index: u32) returns (r: Option<nat>)
      requires Valid()
      ensures r.Some? ==> r.value < |devices| && devices[r.value].index == index
      ensures r.None? <==> !IndexUsed(devices, index as nat)
    {
      var k := 0;
      while k < |devices|
        invariant k <= |devices|
        invariant forall m :: 0 <= m < k ==> devices[m].index < index
      {
        if devices[k].index == index {
          return Some(k);
        } else if devices[k].index > index {
          break;
        }
        k := k + 1;
      }
      forall m | 0 <= m < |devices| ensures devices[m].index != index {
        if m >= k && k < |devices| {
          assert devices[k].index > index;
          if m > k { assert devices[k].index < devices[m].index; }
        }
      }
      return None;
    }

    /** `kbdus_control_lookup_device_wrapper_by_seqnum_`: a full scan for the seqnum. */
    method LookupBySeqnum(seqnum: nat) returns (r: Option<nat>)
      requires Valid()
      ensures r.Some? ==> r.value < |devices| && devices[r.value].seqnum == seqnum
      ensures r.None? <==> !SeqnumPresent(devices, seqnum)
    {
      var k := 0;
      while k < |devices|
        invariant k <= |devices|
        invariant forall m :: 0 <= m < k ==> devices[m].seqnum != seqnum
      {
        if devices[k].seqnum == seqnum {
          return Some(k);
        }
        k := k + 1;
      }
      return None;
    }

    /**
     * The locked part of `KBDUS_IOCTL_CREATE_DEVICE`. A session that is already attached gets
     * -EINVAL and a full registry -ENOSPC. Otherwise the device gets the smallest unused index,
     * seqnum `next_seqnum` and first minor `index * DISK_MAX_PARTS`; `failure` (0 or a
     * negative errno) is what copying back, allocating or creating the protocol instance or
     * the device reported. Only on success is the device listed, the session attached to it
     * and `next_seqnum` incremented.
     */
    method CreateDevice(session: Session, destroyWhenDetached: bool, readOnly: bool, failure: int)
      returns (ret: int, index: u32, seqnum: nat, firstMinor: nat)
      requires Valid() && failure <= 0
      modifies this, session
      ensures Valid()
      ensures old(session.attached).Some? ==> ret == -(EINVAL as int)
      ensures old(session.attached).None? && (forall j :: 0 <= j < maxDevices ==> IndexUsed(old(devices), j))
        ==> ret == -(ENOSPC as int)
      ensures ret == 0 ==>
        seqnum == old(nextSeqnum) && nextSeqnum == old(nextSeqnum) + 1
        && index as nat < maxDevices && index as nat <= |old(devices)| && !IndexUsed(old(devices), index as nat)
        && (forall j :: 0 <= j < index as nat ==> IndexUsed(old(devices), j))
        && firstMinor == index as nat * DISK_MAX_PARTS
        && devices == old(devices)[..index] + [Wrapper(index, seqnum, KbdusDevice.Unavailable,
             destroyWhenDetached, readOnly, Some(session.id), false)] + old(devices)[index..]
        && session.attached == Some(seqnum)
      ensures ret != 0 ==> (devices == old(devices) && nextSeqnum == old(nextSeqnum)
        && session.attached == old(session.attached))
      ensures ret == 0 <==> (old(session.attached).None? && failure == 0
        && exists j :: 0 <= j < maxDevices && !IndexUsed(old(devices), j))
      ensures session.successful == old(session.successful)
    {
      index, seqnum, firstMinor := 0, 0, 0;
      if session.attached.Some? {
        return -(EINVAL as int), index, seqnum, firstMinor;
      }
      var found, i, pos := FindUnusedIndex();
      if !found {
        return -(ENOSPC as int), index, seqnum, firstMinor;
      }
      index, seqnum, firstMinor := i, nextSeqnum, i as nat * DISK_MAX_PARTS;
      if failure != 0 {
        return failure, index, seqnum, firstMinor;
      }
      var w := Wrapper(index, seqnum, KbdusDevice.Unavailable, destroyWhenDetached, readOnly, Some(session.id), false);
      InsertKeepsSorted(devices, pos, w);
      InsertKeepsSeqnums(devices, pos, w, nextSeqnum);
      InsertKeepsBound(devices, pos, w, maxDevices);
      devices := devices[..pos] + [w] + devices[pos..];
      nextSeqnum := nextSeqnum + 1;
      session.attached := Some(seqnum);
      ret := 0;
    }

    /** Removes the device at position k (`kbdus_control_destroy_device_`). */
    method DestroyAt(k: nat)
      requires Valid() && k < |devices|
      modifies this
      ensures Valid()
      ensures devices == old(devices)[..k] + old(devices)[k + 1..] && nextSeqnum == old(nextSeqnum)
    {
      RemoveKeeps(devices, k, nextSeqnum, maxDevices);
      devices := devices[..k] + devices[k + 1..];
    }

    /** Replaces the device at position k by w, which keeps its index and seqnum. */
    method ReplaceAt(k: nat, w: Wrapper)
      requires Valid() && k < |devices| && w.index == devices[k].index && w.seqnum == devices[k].seqnum
      modifies this
      ensures Valid()
      ensures devices == old(devices)[k := w] && nextSeqnum == old(nextSeqnum)
    {
      ReplaceKeeps(devices, k, w, nextSeqnum, maxDevices);
      devices := devices[k := w];
    }

    /**
     * `KBDUS_IOCTL_DEVICE_INDEX_TO_SEQNUM`: -EINVAL for an index above U32_MAX, -ENODEV when no
     * device has it, else the device's seqnum.
     */
    method IndexToSeqnum(index64: u64) returns (ret: int, seqnum: nat)
      requires Valid()
      ensures index64 > U32_MAX ==> ret == -(EINVAL as int)
      ensures index64 <= U32_MAX && !IndexUsed(devices, index64 as nat) ==> ret == -(ENODEV as int)
      ensures ret == 0 <==> index64 <= U32_MAX && IndexUsed(devices, index64 as nat)
      ensures ret == 0 ==> exists k :: (0 <= k < |devices| && devices[k].index as nat == index64 as nat
        && devices[k].seqnum == seqnum)
    {
      seqnum := 0;
      if index64 > U32_MAX {
        return -(EINVAL as int), seqnum;
      }
      var r := LookupByIndex(index64 as u32);
      if r.None? {
        return -(ENODEV as int), seqnum;
      }
      seqnum := devices[r.value].seqnum;
      ret := 0;
    }

    /**
     * The check every seqnum-taking command starts with: -EINVAL for a seqnum that was never
     * handed out, -ENODEV for one whose device is gone, else the device's position.
     */
    method FindBySeqnum(seqnum: nat) returns (ret: int, k: nat)
      requires Valid()
      ensures seqnum >= nextSeqnum ==> ret == -(EINVAL as int)
      ensures seqnum < nextSeqnum && !SeqnumPresent(devices, seqnum) ==> ret == -(ENODEV as int)
      ensures ret == 0 <==> SeqnumPresent(devices, seqnum)
      ensures ret == 0 ==> k < |devices| && devices[k].seqnum == seqnum
    {
      k := 0;
      if seqnum >= nextSeqnum {
        return -(EINVAL as int), k;
      }
      var r := LookupBySeqnum(seqnum);
      if r.None? {
        return -(ENODEV as int), k;
      }
      return 0, r.value;
    }

    /** `KBDUS_IOCTL_GET_DEVICE_CONFIG`: the seqnum checks, then the configuration is copied out. */
    method GetDeviceConfig(seqnum: nat) returns (ret: int, w: Wrapper)
      requires Valid()
      ensures seqnum >= nextSeqnum ==> ret == -(EINVAL as int)
      ensures seqnum < nextSeqnum && !SeqnumPresent(devices, seqnum) ==> ret == -(ENODEV as int)
      ensures ret == 0 <==> SeqnumPresent(devices, seqnum)
      ensures ret == 0 ==> w in devices && w.seqnum == seqnum
    {
      var k;
      ret, k := FindBySeqnum(seqnum);
      w := if ret == 0 then devices[k] else Wrapper(0, 0, KbdusDevice.Unavailable, false, false, None, false);
    }

    /**
     * `KBDUS_IOCTL_FLUSH_DEVICE`: the seqnum checks; a read-only device succeeds without
     * flushing; a device without a block device gives -EIO; otherwise the flush's result, with
     * -EOPNOTSUPP from the flush request counted as success.
     */
    method FlushDevice(seqnum: nat, hasBlockDevice: bool, writeback: int, flushRequest: int) returns (ret: int)
      requires Valid()
      ensures seqnum >= nextSeqnum ==> ret == -(EINVAL as int)
      ensures seqnum < nextSeqnum && !SeqnumPresent(devices, seqnum) ==> ret == -(ENODEV as int)
      ensures SeqnumPresent(devices, seqnum) ==>
        var w := devices[SeqnumPosition(devices, seqnum)];
        ret == (if w.readOnly then 0
                else if !hasBlockDevice then -(EIO as int)
                else FlushResult(writeback, flushRequest))
    {
      var k;
      ret, k := FindBySeqnum(seqnum);
      if ret != 0 {
        return;
      }
      SeqnumPositionUnique(devices, seqnum, k);
      if devices[k].readOnly {
        ret := 0;
      } else if !hasBlockDevice {
        ret := -(EIO as int);
      } else {
        ret := FlushResult(writeback, flushRequest);
      }
    }

    /**
     * `KBDUS_IOCTL_REQUEST_SESSION_TERMINATION`: -EINVAL for a seqnum never handed out;
     * otherwise success, applying `TerminationFor` to the device if it still exists.
     */
    method RequestSessionTermination(seqnum: nat) returns (ret: int)
      requires Valid()
      modifies this
      ensures Valid() && nextSeqnum == old(nextSeqnum)
      ensures seqnum >= old(nextSeqnum) ==> ret == -(EINVAL as int) && devices == old(devices)
      ensures seqnum < old(nextSeqnum) ==> ret == 0
      ensures seqnum < old(nextSeqnum) && !SeqnumPresent(old(devices), seqnum) ==> devices == old(devices)
      ensures SeqnumPresent(old(devices), seqnum) ==>
        var k := SeqnumPosition(old(devices), seqnum);
        var w := old(devices)[k];
        devices == old(devices)[k := w.(state := ApplyTermination(w.state, TerminationFor(w.state, w.destroyWhenDetached)))]
    {
      if seqnum >= nextSeqnum {
        return -(EINVAL as int);
      }
      var r := LookupBySeqnum(seqnum);
      if r.Some? {
        var k := r.value;
        SeqnumPositionUnique(devices, seqnum, k);
        var w := devices[k];
        var next := ApplyTermination(w.state, TerminationFor(w.state, w.destroyWhenDetached));
        ReplaceAt(k, w.(state := next));
      }
      ret := 0;
    }

    /**
     * `KBDUS_IOCTL_REQUEST_DEVICE_DESTRUCTION`: -EINVAL for a seqnum never handed out;
     * otherwise success: a device with a session attached is terminated, one without is
     * destroyed at once.
     */
    method RequestDeviceDestruction(seqnum: nat) returns (ret: int)
      requires Valid()
      modifies this
      ensures Valid() && nextSeqnum == old(nextSeqnum)
      ensures seqnum >= old(nextSeqnum) ==> ret == -(EINVAL as int) && devices == old(devices)
      ensures seqnum < old(nextSeqnum) ==> ret == 0
      ensures seqnum < old(nextSeqnum) && !SeqnumPresent(old(devices), seqnum) ==> devices == old(devices)
      ensures SeqnumPresent(old(devices), seqnum) ==>
        var k := SeqnumPosition(old(devices), seqnum);
        var w := old(devices)[k];
        devices == (if w.session.Some? then old(devices)[k := w.(state := KbdusDevice.Terminated)]
                    else old(devices)[..k] + old(devices)[k + 1..])
      ensures !SeqnumPresent(devices, seqnum) <==> (seqnum >= old(nextSeqnum) || !SeqnumPresent(old(devices), seqnum)
        || old(devices)[SeqnumPosition(old(devices), seqnum)].session.None?)
    {
      if seqnum >= nextSeqnum {
        return -(EINVAL as int);
      }
      var r := LookupBySeqnum(seqnum);
      if r.Some? {
        var k := r.value;
        SeqnumPositionUnique(devices, seqnum, k);
        var w := devices[k];
        if w.session.Some? {
          ReplaceAt(k, w.(state := KbdusDevice.Terminated));
          assert devices[k].seqnum == seqnum;
        } else {
          ghost var before := devices;
          DestroyAt(k);
          RemovedSeqnumGone(before, k);
        }
      }
      ret := 0;
    }

    /**
     * `KBDUS_IOCTL_WAIT_UNTIL_DEVICE_IS_DESTROYED` without the wait: -EINVAL for a seqnum never
     * handed out; otherwise whether the caller would block, which it does while the device
     * still exists.
     */
    method WaitUntilDestroyed(seqnum: nat) returns (ret: int, blocks: bool)
      requires Valid()
      ensures seqnum >= nextSeqnum ==> ret == -(EINVAL as int) && !blocks
      ensures seqnum < nextSeqnum ==> ret == 0 && (blocks <==> SeqnumPresent(devices, seqnum))
    {
      if seqnum >= nextSeqnum {
        return -(EINVAL as int), false;
      }
      var r := LookupBySeqnum(seqnum);
      return 0, r.Some?;
    }

    /**
     * `kbdus_control_release_`: a session that is attached detaches from its device, and the
     * device is then destroyed, terminated, deactivated or handed to a waiting attach as
     * `ReleaseOutcome` says. The session itself is freed.
     */
    method Release(session: Session)
      requires Valid()
      requires session.attached.Some? ==> SeqnumPresent(devices, session.attached.value)
      modifies this, session
      ensures Valid() && nextSeqnum == old(nextSeqnum) && session.attached.None?
      ensures old(session.attached).None? ==> devices == old(devices)
      ensures old(session.attached).Some? ==>
        var k := SeqnumPosition(old(devices), old(session.attached).value);
        var r := ReleaseOutcome(old(devices)[k], old(session.successful));
        devices == (if r.None? then old(devices)[..k] + old(devices)[k + 1..] else old(devices)[k := r.value])
    {
      if session.attached.Some? {
        var r := LookupBySeqnum(session.attached.value);
        var k := r.value;
        SeqnumPositionUnique(devices, session.attached.value, k);
        var outcome := ReleaseOutcome(devices[k], session.successful);
        if outcome.None? {
          DestroyAt(k);
        } else {
          ReplaceAt(k, outcome.value);
        }
        session.attached := None;
      }
    }

    /**
     * The locked part of `KBDUS_IOCTL_ATTACH_TO_DEVICE` up to the wait. The checks come in the
     * source's order: the session is already attached (-EINVAL), the seqnum was never handed
     * out (-EINVAL), the device is gone (-ENODEV), the protocol rejects the configuration
     * (-EINVAL), the device is UNAVAILABLE (-EBUSY), another attach is waiting (-EINPROGRESS),
     * the configuration cannot be copied out (-EFAULT). When they pass and a session is
     * attached to the device, the device is deactivated unless TERMINATED, the wait is
     * registered and `waits` is set; the mutex is then released until `AttachResume`.
     */
    method AttachBegin(session: Session, seqnum: nat, configAccepted: bool, copyFails: bool)
      returns (ret: int, waits: bool)
      requires Valid()
      modifies this
      ensures Valid() && nextSeqnum == old(nextSeqnum)
      ensures ret == -(EINVAL as int) <==> (session.attached.Some? || seqnum >= nextSeqnum
        || (SeqnumPresent(old(devices), seqnum) && !configAccepted))
      ensures session.attached.None? && seqnum < nextSeqnum && !SeqnumPresent(old(devices), seqnum)
        ==> ret == -(ENODEV as int)
      ensures ret == 0 ==> SeqnumPresent(old(devices), seqnum)
      ensures ret != 0 || !waits ==> devices == old(devices) && !waits
      ensures SeqnumPresent(old(devices), seqnum) ==>
        var w := old(devices)[SeqnumPosition(old(devices), seqnum)];
        (session.attached.None? && configAccepted ==>
          (w.state == KbdusDevice.Unavailable ==> ret == -(EBUSY as int))
          && (w.state != KbdusDevice.Unavailable && w.onDetach ==> ret == -(EINPROGRESS as int))
          && (w.state != KbdusDevice.Unavailable && !w.onDetach && copyFails ==> ret == -(EFAULT as int))
          && (ret == 0 <==> w.state != KbdusDevice.Unavailable && !w.onDetach && !copyFails))
        && (ret == 0 ==> (waits <==> w.session.Some?))
        && (waits ==> devices == old(devices)[SeqnumPosition(old(devices), seqnum) :=
              w.(state := DeactivateForAttach(w.state), onDetach := true)])
    {
      waits := false;
      if session.attached.Some? || seqnum >= nextSeqnum {
        return -(EINVAL as int), waits;
      }
      var r := LookupBySeqnum(seqnum);
      if r.None? {
        return -(ENODEV as int), waits;
      }
      var k := r.value;
      SeqnumPositionUnique(devices, seqnum, k);
      var w := devices[k];
      if !configAccepted {
        return -(EINVAL as int), waits;
      }
      if w.state == KbdusDevice.Unavailable {
        return -(EBUSY as int), waits;
      }
      if w.onDetach {
        return -(EINPROGRESS as int), waits;
      }
      if copyFails {
        return -(EFAULT as int), waits;
      }
      if w.session.Some? {
        ReplaceAt(k, w.(state := DeactivateForAttach(w.state), onDetach := true));
        waits := true;
      }
      ret := 0;
    }

    /**
     * The rest of `KBDUS_IOCTL_ATTACH_TO_DEVICE`, once the mutex is held again. The device is
     * looked up again by its seqnum: one destroyed while the mutex was released gives -ENODEV
     * (the source keeps its pointer instead, see `DestroyedDuringAttachWait`). After a wait
     * (`waited`) the registration is dropped; an interrupted wait whose session has not yet
     * detached gives -ERESTARTSYS, and a device that is TERMINATED is destroyed with -ENODEV.
     * Otherwise the protocol instance is created: its failure (`instanceError`, 0 or a
     * negative errno) is returned, destroying the device if it is destroyed when detached;
     * on success the device is activated and the session attached to it.
     */
    method AttachResume(session: Session, seqnum: nat, waited: bool, interrupted: bool, instanceError: int)
      returns (ret: int)
      requires Valid() && session.attached.None? && instanceError <= 0
      modifies this, session
      ensures Valid() && nextSeqnum == old(nextSeqnum) && session.successful == old(session.successful)
      ensures !SeqnumPresent(old(devices), seqnum) ==>
        ret == -(ENODEV as int) && devices == old(devices) && session.attached.None?
      ensures SeqnumPresent(old(devices), seqnum) ==>
        var k := SeqnumPosition(old(devices), seqnum);
        var w := old(devices)[k];
        var w' := if waited then w.(onDetach := false) else w;
        if waited && interrupted && w.session.Some? then
          ret == -(ERESTARTSYS as int) && devices == old(devices)[k := w'] && session.attached.None?
        else if waited && w.state == KbdusDevice.Terminated then
          ret == -(ENODEV as int) && devices == old(devices)[..k] + old(devices)[k + 1..] && session.attached.None?
        else if instanceError != 0 then
          ret == instanceError && session.attached.None?
          && devices == (if w.destroyWhenDetached then old(devices)[..k] + old(devices)[k + 1..]
                         else old(devices)[k := w'])
        else
          ret == 0 && session.attached == Some(seqnum)
          && devices == old(devices)[k := w'.(state := KbdusDevice.Active, session := Some(session.id))]
    {
      var r := LookupBySeqnum(seqnum);
      if r.None? {
        return -(ENODEV as int);
      }
      var k := r.value;
      SeqnumPositionUnique(devices, seqnum, k);
      var w := devices[k];
      if waited {
        w := w.(onDetach := false);
        ReplaceAt(k, w);
        if interrupted && w.session.Some? {
          return -(ERESTARTSYS as int);
        }
        if w.state == KbdusDevice.Terminated {
          DestroyAt(k);
          return -(ENODEV as int);
        }
      }
      if instanceError != 0 {
        if w.destroyWhenDetached {
          DestroyAt(k);
        }
        return instanceError;
      }
      ReplaceAt(k, w.(state := KbdusDevice.Active, session := Some(session.id)));
      session.attached := Some(seqnum);
      ret := 0;
    }
  }

  /**
   * What `kbdus_control_release_` does to the device of a session that detaches: `None` when
   * the device is destroyed, else the device as it is left.
   */
  function ReleaseOutcome(w: Wrapper, successful: bool): (r: Option<Wrapper>)
    ensures r.None? <==> (w.state == KbdusDevice.Unavailable
      || (!w.onDetach && (w.destroyWhenDetached || w.state == KbdusDevice.Terminated)))
    ensures r.Some? ==> r.value == w.(session := None, state := r.value.state)
    ensures r.Some? ==> r.value.state in {KbdusDevice.Inactive, KbdusDevice.Terminated}
    ensures r.Some? && w.state in {KbdusDevice.Active, KbdusDevice.Inactive} ==>
      (r.value.state == KbdusDevice.Terminated <==> w.destroyWhenDetached && !successful)
    ensures r.Some? && w.state == KbdusDevice.Terminated ==> r.value.state == KbdusDevice.Terminated
  {
    var detached := w.(session := None);
    match w.state
    case Unavailable => None
    case Terminated => if w.onDetach then Some(detached) else None
    case _ =>
      var state := if w.destroyWhenDetached && !successful then KbdusDevice.Terminated else KbdusDevice.Inactive;
      if !w.onDetach && w.destroyWhenDetached then None
      else Some(detached.(state := state))
  }

  /**
   * Every state change a release makes is one the device accepts: an ACTIVE device is
   * deactivated or terminated, an INACTIVE one terminated or left alone.
   */
  lemma ReleaseIsAccepted(w: Wrapper, successful: bool)
    requires ReleaseOutcome(w, successful).Some?
    ensures var s := ReleaseOutcome(w, successful).value.state;
      s == w.state
      || (s == KbdusDevice.Terminated && KbdusDevice.Next(w.state, KbdusDevice.Event.Terminate) == Some(s))
      || (s == KbdusDevice.Inactive && KbdusDevice.Next(w.state, KbdusDevice.Event.Deactivate) == Some(s))
  {
  }

  /**
   * The deactivation `KBDUS_IOCTL_ATTACH_TO_DEVICE` applies before waiting to a device with a
   * session: a TERMINATED device is left alone and any other is deactivated, which makes it
   * INACTIVE (an INACTIVE one, for instance after a session termination request, stays so).
   */
  function DeactivateForAttach(s: DeviceState): (r: DeviceState)
    ensures s == KbdusDevice.Terminated <==> r == KbdusDevice.Terminated
    ensures r != KbdusDevice.Active
    ensures s != KbdusDevice.Terminated ==> KbdusDevice.Next(s, KbdusDevice.Event.Deactivate) == Some(r)
  {
    if s == KbdusDevice.Terminated then s else KbdusDevice.Inactive
  }

  /** The position of the device with a present seqnum. */
  function SeqnumPosition(ds: seq<Wrapper>, seqnum: nat): (k: nat)
    requires SeqnumPresent(ds, seqnum)
    ensures k < |ds| && ds[k].seqnum == seqnum
  {
    if ds[0].seqnum == seqnum then 0
    else
      assert SeqnumPresent(ds[1..], seqnum) by {
        var k :| 0 <= k < |ds| && ds[k].seqnum == seqnum;
        assert ds[1..][k - 1] == ds[k];
      }
      1 + SeqnumPosition(ds[1..], seqnum)
  }

  /** With distinct seqnums, the device holding a seqnum is the one `SeqnumPosition` names. */
  lemma SeqnumPositionUnique(ds: seq<Wrapper>, seqnum: nat, k: nat)
    requires DistinctSeqnums(ds) && k < |ds| && ds[k].seqnum == seqnum
    ensures SeqnumPresent(ds, seqnum) && SeqnumPosition(ds, seqnum) == k
  {
  }

  /** Once its entry is removed, a seqnum is no longer present. */
  lemma RemovedSeqnumGone(ds: seq<Wrapper>, k: nat)
    requires DistinctSeqnums(ds) && k < |ds|
    ensures !SeqnumPresent(ds[..k] + ds[k + 1..], ds[k].seqnum)
  {
    var r := ds[..k] + ds[k + 1..];
    forall m | 0 <= m < |r| ensures r[m].seqnum != ds[k].seqnum {
      if m < k { assert r[m] == ds[m]; } else { assert r[m] == ds[m + 1]; }
    }
  }

  /**
   * The wrapper an attach waits on can be freed before the attacher locks the mutex again. The
   * release of the attached session keeps the device for the waiting attach, but without a
   * session; `KBDUS_IOCTL_REQUEST_DEVICE_DESTRUCTION` destroys a device without a session at
   * once (`Registry.RequestDeviceDestruction`), after which its seqnum names no device. The
   * source then clears `on_detach` through its stale pointer.
   */
  lemma DestroyedDuringAttachWait(ds: seq<Wrapper>, k: nat, successful: bool)
    requires DistinctSeqnums(ds) && k < |ds|
    requires ds[k].session.Some? && ds[k].onDetach && ds[k].state != KbdusDevice.Unavailable
    ensures var o := ReleaseOutcome(ds[k], successful);
      && o.Some? && o.value.session.None? && o.value.onDetach && o.value.seqnum == ds[k].seqnum
      && var released := ds[k := o.value];
         !SeqnumPresent(released[..k] + released[k + 1..], ds[k].seqnum)
  {
    var o := ReleaseOutcome(ds[k], successful);
    var released := ds[k := o.value];
    assert DistinctSeqnums(released) by {
      assert forall m :: 0 <= m < |ds| ==> released[m].seqnum == ds[m].seqnum;
    }
    RemovedSeqnumGone(released, k);
  }

  /** `kbdus_control_flush_bdev_`: the write-back's error, else the flush request's with -EOPNOTSUPP as 0. */
  function FlushResult(writeback: int, flushRequest: int): (ret: int)
    ensures writeback != 0 ==> ret == writeback
    ensures writeback == 0 ==> ret == (if flushRequest == -(EOPNOTSUPP as int) then 0 else flushRequest)
  {
    if writeback != 0 then writeback
    else if flushRequest == -(EOPNOTSUPP as int) then 0
    else flushRequest
  }

  /** Seqnums are handed out in increasing order: a later device always has a larger seqnum. */
  lemma CreatedSeqnumIsFresh(ds: seq<Wrapper>, next: nat)
    requires SeqnumsBelow(ds, next)
    ensures !SeqnumPresent(ds, next)
    ensures forall s :: s >= next ==> !SeqnumPresent(ds, s)
  {
  }
}
