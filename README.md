# A Dafny model of BDUS, fbdd and the DEDISbench fault planner

This project models the sequential logic of three C code bases and one Sphinx configuration
that live together in one repository, and proves properties of that model with Dafny.

- **BDUS** (Block Devices in User Space). It has four parts.
  - **kbdus** is the kernel module. Its request inverter is a fixed pool of request slots, each
    moving FREE -> AWAITING_GET -> BEING_GOTTEN -> AWAITING_COMPLETION -> BEING_COMPLETED -> FREE,
    and each named by an (index, seqnum) handle. The module also validates and adjusts device
    configurations, runs the device life cycle and its reference count, keeps the control
    device's registry of devices sorted by index, and holds the protocol table and the "mmap"
    protocol's shared-memory layout.
  - **libbdus** is the user-space library. It parses and formats device indices and
    `/dev/bdus-N` paths, validates a driver's callbacks and attributes, fills in configuration
    defaults and works out reply sizes. It also holds the service-thread status machine shared
    by the "ioctl", "mmap" and "rw" backends.
  - **cmdbdus** is the `bdus` command.
  - The documentation's `conf.py` derives version-bound values from the Makefile's version.
- **The example drivers** are RAM disks over one byte array, plus the zero device.
- **fbdd** is a BDUS driver that injects faults. It keeps a registry of fault ranges, each keyed
  by a block interval, a content hash or a dedup hash, and each holding at most three faults:
  bit flips, slow-disk delays and medium errors. Around the registry sit:
  - the request protocol of its control socket;
  - the string tables;
  - the read and write callbacks, which check requests block by block;
  - its command line;
  - the helpers of its test console.
- **DEDISbench's fault planner** has three parts:
  - a "sorted counter array" ranking blocks by how often their content was written;
  - a reader that turns a stream of YAML tokens into per-process fault lists;
  - the runtime that decides which configured fault fires next and which block it targets.

Each source file maps to one Dafny module:

| module | what it covers |
|---|---|
| `KbdusInverter` | the request pool |
| `KbdusDevice` | device configurations, life cycle and reference count |
| `KbdusControl` | the control device's device registry |
| `KbdusProtocol` | the protocol table |
| `KbdusMmapProtocol` | the kernel side of the "mmap" protocol |
| `KernelUtilities` | kbdus's bit-trick macros |
| `LibBdus` | libbdus's front end |
| `LibUtilities` | libbdus's arithmetic helpers |
| `LibBackend` | backend lookup and request handling |
| `BackendService` | the service loop and run phases common to all three backends |
| `LibMmapBackend`, `LibRwBackend`, `LibIoctlBackend` | what is particular to each backend |
| `PayloadLayout` | payload sizing and shared-memory layout, shared by libbdus and kbdus |
| `CmdBdus` | the `bdus` command |
| `DocsConf` | the documentation's `conf.py` |
| `RamDrivers` | the RAM disks and the zero device |
| `FbdDefines` | fbdd's shared codes and string tables |
| `FbdStructs` | the fault registry |
| `FaultLibrary` | the three faults |
| `FspStructs` | socket requests |
| `FspServer` | the socket's request handler |
| `FConsole` | the console's argument parsing |
| `FConsoleDevice` | the console's device handle |
| `CScanf` | the part of `sscanf` the console uses |
| `Fbdd` | the driver and its `main` |
| `DedupDegree` | the counter arrays |
| `ConfigParserYaml` | the YAML reader |
| `DedisFaultDefs` | fault definitions |
| `DedisFault` | the fault runtime and the `type:target:when` fault list |

The supporting modules are:

- `KbdusAbi`: the interface between kbdus and user space: request types, the device configuration, the hard limits and the ioctl command encoding.
- `CTypes`: fixed-width integers with explicit wrap-around, and errno values.
- `Bits`: bitwise AND and OR on naturals, and powers of two.
- `Decimal`: canonical decimal digits.
- `Wrappers`: `Option` and `Result`.

## How the C code maps to Dafny

**Imperative code stays imperative.** Some code updates objects in place: the inverter's slot
pool, the device registry, the RAM disks' arrays, fbdd's fault registry, the console device,
the counter arrays, the YAML reader's metadata and the fault runtime. Each becomes a `class`.
Each of its methods states the whole new state in terms of a specification function of the old
state, and lemmas prove what that function preserves.

**Pure code becomes functions and lemmas.** This covers the validators, lookups, string tables,
parsers and size arithmetic.

**Each lock-protected region is one atomic method.** Blocking waits and wake-ups are dropped, or
become the state in which the wait ends.

**The environment is supplied as parameters.** This covers system calls (`pread`/`pwrite`,
`readv`/`writev`, `ioctl`, `open`), driver callbacks, `malloc` failures, `rand()`, the fault
server's answers and hash digests. The value each one returns is a parameter of the model.

**Two libbdus details are worth knowing up front:**

- The "rw" and "ioctl" backends size their payload buffers with `PayloadLayout.MaxPayloadSize`
  unrounded; the "mmap" backend rounds it up to a page.
- `RamDrivers.RamDisk` models the read and write callbacks of all four RAM disks:
  `examples/ram.c`, `examples/ram-simple.c`, `tests/drivers/ram.c` and fbdd's `ram.c`.


## Model

| member | source | states |
|---|---|---|
| `Bits.BitAndPredecessor` | bdus/kbdus/include-private/kbdus/utilities.h:20-24 | for x >= 1, `x & (x - 1)` is zero exactly when x is a power of two: the bit trick behind both power-of-two macros |
| `Bits.IsPow2Exponent` | bdus/libbdus/include-private/libbdus/utilities.h:46-49 | the recursive power-of-two test holds exactly when x is 2^k for some k |
| `Bits.RoundUpPow2` | bdus/libbdus/src/backends/mmap.c:74 | `((x - 1) \| (p - 1)) + 1` for x > 0 and p a power of two is a multiple of p in [x, x + p): the least multiple not below x |
| `Bits.RoundUpPow2Bounds` | bdus/libbdus/src/backends/mmap.c:74 | the same rounding stated on the OR expression itself: a multiple of p, at least x and below x + p |
| `Bits.BitOrPow2Mask` | bdus/libbdus/src/backends/mmap.c:74 | OR with the mask p - 1 (p a power of two) sets the low bits: `y \| (p - 1) == y - y % p + p - 1` |
| `KernelUtilities.ClearLowestBit` | bdus/kbdus/include-private/kbdus/utilities.h:20 | `x & (x - 1)` with the unsigned wrap of `0 - 1`: zero for x = 0, otherwise zero exactly for powers of two |
| `KernelUtilities.IsZeroOrPowerOfTwo` | bdus/kbdus/include-private/kbdus/utilities.h:20 | true exactly when x is 0 or 2^k for some k |
| `KernelUtilities.IsPowerOfTwo` | bdus/kbdus/include-private/kbdus/utilities.h:24 | true exactly when x is 2^k for some k (zero excluded) |
| `KernelUtilities.IsZeroOrMultipleOf` | bdus/kbdus/include-private/kbdus/utilities.h:28 | for y != 0 (the macro always divides), true exactly when y divides x |
| `KernelUtilities.IsPositiveMultipleOf` | bdus/kbdus/include-private/kbdus/utilities.h:32 | for y != 0, true exactly when x is non-zero and y divides it |
| `LibUtilities.Min` | bdus/libbdus/include-private/libbdus/utilities.h:40 | the result is one of the two arguments and no larger than either |
| `LibUtilities.Max` | bdus/libbdus/include-private/libbdus/utilities.h:43 | the result is one of the two arguments and no smaller than either |
| `LibUtilities.IsPowerOfTwo` | bdus/libbdus/include-private/libbdus/utilities.h:46 | true exactly when x is 2^k for some k |
| `LibUtilities.IsZeroOrPowerOfTwo` | bdus/libbdus/include-private/libbdus/utilities.h:49 | true exactly when x is 0 or a power of two |
| `LibUtilities.IsPositiveMultipleOf` | bdus/libbdus/include-private/libbdus/utilities.h:52 | true exactly when x is non-zero and y divides it; y may be 0 only when x is, since `&&` then skips the division |
| `LibUtilities.IsZeroOrMultipleOf` | bdus/libbdus/include-private/libbdus/utilities.h:55 | true exactly when x is zero or y divides it; y may be 0 only when x is, since `\|\|` then skips the division |
| `CTypes.FitsUnchanged` | dedisbench-private/benchcore/faults/fault.c:216 | a value that fits 32 or 64 bits is unchanged by the unsigned conversion, so the C casts only matter out of range |
| `Decimal.Format` | bdus/libbdus/src/bdus.c:242 | the `%u`/`PRIu32` rendering of n is canonical (digits only, no leading zero) and its value is n |
| `Decimal.FormatValue` | bdus/libbdus/src/bdus.c:242 | every canonical digit string is the rendering of its own value: rendering and reading are inverse bijections |
| `Decimal.FormatInjective` | bdus/libbdus/src/bdus.c:242 | two numbers with the same rendering are equal |
| `Decimal.ValuePositive` | bdus/libbdus/src/bdus.c:242 | a digit string whose first digit is not 0 denotes a positive number |
| `Decimal.SkipSpaces` | dedisbench-private/benchcore/faults/fault.c:204 | what `atoi` skips: the result is a suffix of the input and does not start with white space |
| `Decimal.DigitRunSpans` | dedisbench-private/benchcore/faults/fault.c:204 | the digit run `atoi` reads is made of digits and is followed by a non-digit or the end |
| `Decimal.Atoi` | dedisbench/benchcore/faults/configParserYaml.c:129-136 | `atoi`: after leading white space, an unsigned digit run reads as a non-negative number |
| `Decimal.AtoiFormat` | dedisbench-private/benchcore/faults/fault.c:214-216 | `atoi` reads back what `%u` writes: `Atoi(Format(n)) == n` |
| `KbdusAbi.IocDir` | bdus-master/kbdus/src/inverter.c:1217 | `_IOC_DIR` is one of the four two-bit directions |
| `KbdusAbi.IocSize` | bdus-master/kbdus/src/inverter.c:1213 | `_IOC_SIZE` is below the 14-bit size limit |
| `KbdusAbi.IocFieldsRoundTrip` | bdus/kbdus/include/kbdus.h:613-614 | a command number built by `_IOC` from direction, type, number and size decodes back to the same direction and size |
| `KbdusDevice.IsReadOnly` | bdus-master/kbdus/src/device.c:89-98 | a device is read-only exactly when it supports no request type that modifies data |
| `KbdusDevice.ReadAndFlushOnly` | bdus-master/kbdus/src/device.c:89-98 | a device supporting only reads, flushes and ioctls is read-only |
| `KbdusDevice.IsValidIoctl` | bdus-master/kbdus/src/device.c:101-139 | an accepted command either has no direction or a non-zero size, and its argument is null exactly when it has no direction |
| `KbdusDevice.ValidIoctlByFields` | bdus-master/kbdus/src/device.c:101-139 | on a command built from its fields, valid exactly when (no direction, size 0, null argument) or (a direction, size > 0, non-null argument) |
| `KbdusDevice.PowerOfTwoTest` | bdus-master/kbdus/src/device.c:203-289 | the kbdus bit test used by validation agrees with being a power of two |
| `KbdusDevice.ValidateConfig` | bdus-master/kbdus/src/device.c:203-289 | `kbdus_device_validate_config_` accepts exactly the configurations satisfying `ValidConfig` (block sizes, maxima, queue and ioctl limits) |
| `KbdusDevice.MinNotZero` | bdus-master/kbdus/src/device.c:316 | `min_not_zero`: 0 only when both are 0, otherwise one of the arguments and no larger than either non-zero one |
| `KbdusDevice.RoundDown` | bdus-master/kbdus/src/device.c:315-318 | `round_down(x, y)`: a multiple of y, not above x, less than y below it |
| `KbdusDevice.RoundDownMultiple` | bdus-master/kbdus/src/device.c:315-318 | a multiple of y rounds down to itself |
| `KbdusDevice.RoundDownKeepsMultipleBound` | bdus-master/kbdus/src/device.c:315-318 | a value at least m rounded down to a divisor of m stays at least m |
| `KbdusDevice.RoundDownPositive` | bdus-master/kbdus/src/device.c:315-318 | a value at least y rounds down to a non-zero multiple of y |
| `KbdusDevice.AdjustedMax` | bdus-master/kbdus/src/device.c:306-361 | one adjusted maximum: 0 when unsupported, always a multiple of the logical block size, at most the cap and at most a non-zero configured value |
| `KbdusDevice.AdjustedMaxZeroIff` | bdus-master/kbdus/src/device.c:306-361 | for a validated maximum, the adjusted value is 0 exactly when its requests are unsupported, and otherwise at least one block |
| `KbdusDevice.AdjustedMaxIdempotent` | bdus-master/kbdus/src/device.c:306-361 | adjusting an adjusted maximum changes nothing |
| `KbdusDevice.OrDefault` | bdus-master/kbdus/src/device.c:302-303 | the value, or the default when it is 0: non-zero when either is, and the value itself when non-zero |
| `KbdusDevice.AdjustConfig` | bdus-master/kbdus/src/device.c:294-362 | the in-place field-by-field adjustment computes exactly the configuration `Adjusted` describes |
| `KbdusDevice.AdjustedMaximaBounded` | bdus-master/kbdus/src/device.c:294-362 | after adjustment every maximum is a multiple of the logical block size, not above a non-zero configured value, the read/write maximum is at most 512 KiB, and the physical block size is at least the logical one |
| `KbdusDevice.AdjustedMaximaZeroIffUnsupported` | bdus-master/kbdus/src/device.c:294-362 | on a valid configuration each adjusted maximum is 0 exactly when the requests it limits are unsupported |
| `KbdusDevice.AdjustedStaysValid` | bdus-master/kbdus/src/device.c:803-817 | a valid configuration is still valid after adjustment |
| `KbdusDevice.AdjustIdempotent` | bdus-master/kbdus/src/device.c:803-817 | adjusting twice is adjusting once |
| `KbdusDevice.ValidateAndAdjust` | bdus-master/kbdus/src/device.c:803-817 | an invalid configuration gives -EINVAL and is left untouched; a valid one gives 0 and the adjusted configuration, which is still valid |
| `KbdusDevice.Next` | bdus-master/kbdus/src/device.c:1051-1078 | the device state machine: terminate always gives TERMINATED, add-disk moves UNAVAILABLE to ACTIVE only, deactivate is refused only on TERMINATED and otherwise gives INACTIVE (a no-op on INACTIVE), activate needs INACTIVE and gives ACTIVE |
| `KbdusDevice.EnteringActive` | bdus-master/kbdus/src/device.c:583-587 | ACTIVE is entered only from UNAVAILABLE by the add-disk compare-exchange or from INACTIVE by activation |
| `KbdusDevice.TerminatedIsFinal` | bdus-master/kbdus/src/device.c:1051-1055 | from TERMINATED, every sequence of accepted events stays TERMINATED |
| `KbdusDevice.UnavailableNeverReentered` | bdus-master/kbdus/src/device.c:838 | once a device has left UNAVAILABLE no sequence of events returns it there |
| `KbdusDevice.Device.constructor` | bdus-master/kbdus/src/device.c:838-852 | creation: UNAVAILABLE, one reference, the given configuration, and as many ioctl slots as configured when ioctl is supported, else none |
| `KbdusDevice.Device.MarkDiskAdded` | bdus-master/kbdus/src/device.c:583-587 | the add-disk compare-exchange: the new state is the transition on DiskAdded, references unchanged |
| `KbdusDevice.Device.Terminate` | bdus-master/kbdus/src/device.c:1051-1055 | the new state is TERMINATED, references unchanged |
| `KbdusDevice.Device.Deactivate` | bdus-master/kbdus/src/device.c:1057-1066 | on any device that is not TERMINATED the new state is INACTIVE (an INACTIVE device stays so); references and inverter unchanged |
| `KbdusDevice.Device.Activate` | bdus-master/kbdus/src/device.c:1068-1078 | from INACTIVE (the source asserts it), the new state is ACTIVE |
| `KbdusDevice.Device.GetRef` | bdus-master/kbdus/src/device.c:147-172 | a reference is taken exactly when the structure is still attached, and the count grows by one then |
| `KbdusDevice.Device.PutRef` | bdus-master/kbdus/src/device.c:174-196 | the count drops by one and the structure is freed exactly when it reaches 0 |
| `KbdusDevice.Device.Ioctl` | bdus-master/kbdus/src/device.c:681-767 | BLKFLSBUF/BLKROSET give -ENOTTY; a freed device gives -ENODEV; otherwise no ioctl support or an invalid command gives -ENOTTY, an interrupted wait -ERESTARTSYS, a destroyed inverter -ENODEV, else the inverter's result; references are balanced |
| `KbdusDevice.Device.Destroy` | bdus-master/kbdus/src/device.c:975-1025 | destruction removes the inverter, leaves the device's own state as it was and drops the creator's reference |
| `KbdusDevice.IoctlAfterDestroy` | bdus-master/kbdus/src/device.c:147-172 | an ioctl racing with destruction of the last reference gets -ENODEV |
| `KbdusInverter.SlotOfHandle` | bdus-master/kbdus/src/inverter.c:356-368 | the handle index is decremented as a u16, so a slot is found exactly for indices 1..numReqs (and for 0 when there are 65536 slots); the slot found maps back to the index |
| `KbdusInverter.HandleOfSlot` | bdus-master/kbdus/src/inverter.c:821-827 | the handle index a slot receives at creation (i + 1) names that slot back |
| `KbdusInverter.Remove` | bdus-master/kbdus/src/inverter.c:441-459 | `list_del`: the list keeps every other element in order, stays duplicate-free, is unchanged when the element is absent and loses only its head when the element is the head |
| `KbdusInverter.Relist` | bdus-master/kbdus/src/inverter.c:375-403 | how the free and awaiting-get lists follow one slot changing state: removed when it leaves the state, pushed when it enters it, unchanged otherwise |
| `KbdusInverter.EmptyAwaitingList` | bdus-master/kbdus/src/inverter.c:912-942 | once no slot is AWAITING_GET the awaiting-get list is empty |
| `KbdusInverter.IdlePoolHasFullFreeList` | bdus-master/kbdus/src/inverter.c:849-910 | when every slot is FREE the free list holds all of them, as destruction expects |
| `KbdusInverter.IoctlCompletedWith` | bdus-master/kbdus/src/inverter.c:502-537 | a slot completed as an ioctl is IOCTL_COMPLETED with the given result and its seqnum advanced by one |
| `KbdusInverter.Freed` | bdus-master/kbdus/src/inverter.c:540-579 | a freed slot is FREE with its seqnum advanced, keeping its type and handle index |
| `KbdusInverter.Cancelled` | bdus-master/kbdus/src/inverter.c:582-591 | a cancelled ioctl is IOCTL_COMPLETED with -ENODEV, a cancelled queue request is FREE; either way one use ends |
| `KbdusInverter.Terminated` | bdus-master/kbdus/src/inverter.c:912-942 | termination leaves no slot awaiting the driver and touches only the awaiting ones |
| `KbdusInverter.Requeued` | bdus-master/kbdus/src/inverter.c:964-1020 | activation leaves no slot awaiting completion and touches only those, keeping their requests |
| `KbdusInverter.FreedByTermination` | bdus-master/kbdus/src/inverter.c:912-942 | the slots termination puts on the free list are exactly the awaiting queue-request slots |
| `KbdusInverter.TerminationCompletions` | bdus-master/kbdus/src/inverter.c:912-942 | the queue requests termination completes are exactly the awaiting queue-request slots, each with -EIO |
| `KbdusInverter.RequeuedByActivation` | bdus-master/kbdus/src/inverter.c:964-1020 | the slots activation puts back on the awaiting-get list are exactly those awaiting completion |
| `KbdusInverter.TerminationStep` | bdus-master/kbdus/src/inverter.c:926-934 | cancelling slot i when it awaits the driver carries the termination's progress invariant from i to i + 1 |
| `KbdusInverter.TerminationDone` | bdus-master/kbdus/src/inverter.c:912-942 | a finished termination leaves no slot awaiting, an empty awaiting-get list, and every slot as `Terminated` makes it |
| `KbdusInverter.ActivationStep` | bdus-master/kbdus/src/inverter.c:964-1020 | requeueing slot i when it awaits completion carries the activation's progress invariant from i to i + 1 |
| `KbdusInverter.FreshPoolWellformed` | bdus-master/kbdus/src/inverter.c:821-827 | the pool creation builds (all FREE, handle i + 1, free list in index order) satisfies the pool invariant |
| `KbdusInverter.SanitizedIoctlErrno` | bdus-master/kbdus/src/inverter.c:1565-1580 | an ioctl's result is -ENODEV once terminated; otherwise a value in [-133, 0] other than -ENOSYS passes and anything else becomes -EIO |
| `KbdusInverter.SanitizedQueueErrno` | bdus-master/kbdus/src/inverter.c:1585-1611 | a queue request's errno is -EIO once terminated; otherwise 0, -EBADE, -EILSEQ, -ENODATA, -ENOLINK, -ENOSPC and -EREMOTEIO pass and anything else becomes -EIO |
| `KbdusInverter.SanitizingTwice` | bdus-master/kbdus/src/inverter.c:1565-1611 | sanitising a sanitised value changes nothing |
| `KbdusInverter.IoctlArgumentError` | bdus-master/kbdus/src/inverter.c:1221-1248 | before submission: nothing for a command without argument; otherwise -EFAULT for a failed access check or copy-in, -ENOMEM for a failed allocation, and nothing exactly when all succeed |
| `KbdusInverter.IoctlReturnValue` | bdus-master/kbdus/src/inverter.c:1270-1284 | after the wait: a failed wait's result is returned as is; a successful one returns 0 unless the command reads back and copying out failed, then -EFAULT |
| `KbdusInverter.Inverter.constructor` | bdus-master/kbdus/src/inverter.c:736-847 | every slot FREE with handle (i + 1, seqnum 0), all on the free list in index order, flags clear, support bits from the configuration |
| `KbdusInverter.Inverter.ToAwaitingGet` | bdus-master/kbdus/src/inverter.c:406-438 | the slot becomes AWAITING_GET; from FREE it leaves the free list and joins the tail of the awaiting-get list, otherwise it joins the head |
| `KbdusInverter.Inverter.ToBeingGotten` | bdus-master/kbdus/src/inverter.c:441-459 | the slot becomes BEING_GOTTEN and leaves the awaiting-get list |
| `KbdusInverter.Inverter.SetUnlistedState` | bdus-master/kbdus/src/inverter.c:462-499 | the slot becomes AWAITING_COMPLETION or BEING_COMPLETED, no list changes, the pool invariant holds |
| `KbdusInverter.Inverter.ToIoctlCompleted` | bdus-master/kbdus/src/inverter.c:502-537 | the slot keeps the ioctl's result, ends one use and leaves the awaiting-get list |
| `KbdusInverter.Inverter.ToFree` | bdus-master/kbdus/src/inverter.c:540-579 | a queue request is completed with the errno, the slot goes on the head of the free list and leaves the awaiting-get list |
| `KbdusInverter.Inverter.CancelDueToTermination` | bdus-master/kbdus/src/inverter.c:582-591 | an ioctl fails with -ENODEV, a queue request is completed with -EIO and freed |
| `KbdusInverter.Inverter.QueueRequestSupported` | bdus-master/kbdus/src/inverter.c:279-336 | a request is refused exactly when it is a read without read support or a write without write support |
| `KbdusInverter.Inverter.SubmitQueueRequest` | bdus-master/kbdus/src/inverter.c:1037-1117 | once terminated: -EIO, null handle, nothing changes; unsupported: -EOPNOTSUPP; otherwise the head of the free list becomes an AWAITING_GET request of that type and its handle is returned |
| `KbdusInverter.Inverter.SubmitDeviceAvailable` | bdus-master/kbdus/src/inverter.c:1022-1035 | only the pending "device available" flag is set |
| `KbdusInverter.Inverter.SubmitIoctl` | bdus-master/kbdus/src/inverter.c:592-644 | once terminated ENODEV and nothing changes; otherwise the head of the free list becomes an AWAITING_GET ioctl at the tail of the awaiting-get list |
| `KbdusInverter.Inverter.EndIoctlWait` | bdus-master/kbdus/src/inverter.c:675-716 | an interrupted wait returns -ERESTARTSYS, a completed one the ioctl's result; either way the slot is freed |
| `KbdusInverter.Inverter.TimeoutQueueRequest` | bdus-master/kbdus/src/inverter.c:1119-1199 | a stale handle is ignored, a slot being gotten or completed has its timer reset, an awaiting one is completed with -ETIMEDOUT and freed |
| `KbdusInverter.Inverter.Terminate` | bdus-master/kbdus/src/inverter.c:912-942 | the first call sets TERMINATED and cancels exactly the awaiting slots (free list and completions as `FreedByTermination` and `TerminationCompletions` say); later calls change nothing |
| `KbdusInverter.Inverter.CancelAwaitingSlots` | bdus-master/kbdus/src/inverter.c:923-935 | the termination loop reaches the end of the pool with its progress invariant |
| `KbdusInverter.Inverter.CancelIfAwaiting` | bdus-master/kbdus/src/inverter.c:926-934 | one turn of the termination loop moves its progress invariant from i to i + 1 |
| `KbdusInverter.Inverter.Deactivate` | bdus-master/kbdus/src/inverter.c:944-962 | the first call sets DEACTIVATED, and DEACTIVATED_NOT_FLUSHED when a flush is asked and supported; later calls change nothing |
| `KbdusInverter.Inverter.Activate` | bdus-master/kbdus/src/inverter.c:964-1020 | when deactivated: both flags cleared and exactly the slots awaiting completion put back on the awaiting-get list; otherwise nothing changes |
| `KbdusInverter.Inverter.RequeueIfAwaitingCompletion` | bdus-master/kbdus/src/inverter.c:988-1009 | one turn of the activation loop moves its progress invariant from i to i + 1 |
| `KbdusInverter.Inverter.BeginRequestGet` | bdus-master/kbdus/src/inverter.c:1290-1377 | an interrupted wait fails with ERESTARTSYS; otherwise by priority a pending flush gives flush-and-terminate, termination gives terminate, a pending notification gives device-available, else the head of the awaiting-get list becomes BEING_GOTTEN |
| `KbdusInverter.Inverter.CommitRequestGet` | bdus-master/kbdus/src/inverter.c:1379-1424 | nothing for a notification; otherwise the slot awaits completion, or is cancelled if the inverter was terminated meanwhile |
| `KbdusInverter.Inverter.AbortRequestGet` | bdus-master/kbdus/src/inverter.c:1426-1481 | device-available is resubmitted, flush-and-terminate leaves the flush pending, terminate needs nothing; a slot goes back to the head of the awaiting-get list, or is cancelled once terminated |
| `KbdusInverter.Inverter.BeginRequestCompletion` | bdus-master/kbdus/src/inverter.c:1483-1532 | EINVAL for a handle naming no slot, no request for a stale seqnum, EINVAL for a slot not awaiting completion, otherwise the slot becomes BEING_COMPLETED and its request is returned |
| `KbdusInverter.Inverter.CommitRequestCompletion` | bdus-master/kbdus/src/inverter.c:1534-1617 | an ioctl becomes IOCTL_COMPLETED with its sanitised result; a queue request is completed with its sanitised errno and freed |
| `KbdusInverter.Inverter.AbortRequestCompletion` | bdus-master/kbdus/src/inverter.c:1619-1658 | the slot awaits completion again, or is cancelled if the inverter was terminated meanwhile |
| `PayloadLayout.MaxPayloadSize` | bdus-master/kbdus/src/protocols/mmap.c:49-64 | the largest payload is max_read_write_size raised to the logical block size with write-same and to 16 KiB with ioctl: at least each of those that applies, and equal to one of them |
| `PayloadLayout.PageRoundUp` | bdus/libbdus/src/backends/mmap.c:56-79 | libbdus's guarded rounding: a multiple of the page in [size, size + page), and 0 exactly for size 0 |
| `PayloadLayout.KernelRoundUpAgrees` | bdus-master/kbdus/src/protocols/mmap.c:67 | the kernel's unguarded `round_up` on 64-bit values gives the same as libbdus's guarded rounding, including at 0 where it wraps |
| `PayloadLayout.KernelRoundUpAgreesAtZero` | bdus-master/kbdus/src/protocols/mmap.c:67 | at size 0 the kernel's rounding wraps to 0 |
| `PayloadLayout.KernelRoundUpAgreesAbove` | bdus-master/kbdus/src/protocols/mmap.c:67 | for a positive size the kernel's rounding is the least page multiple not below it |
| `PayloadLayout.LayoutIsDisjoint` | bdus-master/kbdus/src/protocols/mmap.c:30-47 | with at most page/64 buffers the 64-byte reply-and-request slots are disjoint and lie in the first page, and the payload buffers follow it without overlapping, the last ending at the end of the shared memory |
| `PayloadLayout.PayloadAligned` | bdus-master/kbdus/src/protocols/mmap.c:38-47 | payload buffers are page-aligned when the payload size is a page multiple |
| `KbdusMmapProtocol.CommandNumbers` | bdus/kbdus/include/kbdus.h:992-1005 | the three mmap commands are `_IO` commands of type 0xBD with numbers 13, 14 and 15 |
| `KbdusMmapProtocol.PayloadBufferSize` | bdus-master/kbdus/src/protocols/mmap.c:49-68 | the payload buffer size is a page multiple, at least the largest payload and less than one page above it |
| `KbdusMmapProtocol.ValidateConfig` | bdus-master/kbdus/src/protocols/mmap.c:262-267 | accepted exactly when the buffer count is between 1 and the maximum |
| `KbdusMmapProtocol.CreateInstance` | bdus-master/kbdus/src/protocols/mmap.c:269-304 | -ENOMEM exactly when an allocation fails; otherwise the state records the buffer count and the payload buffer size |
| `KbdusMmapProtocol.LayoutOfValidConfig` | bdus-master/kbdus/src/protocols/mmap.c:262-304 | for an accepted configuration the slots of distinct buffers are disjoint in the first page and the page-aligned payload buffers do not overlap |
| `KbdusMmapProtocol.ReceiveRequest` | bdus-master/kbdus/src/protocols/mmap.c:73-156 | an interrupted wait fails with ERESTARTSYS and changes nothing; a handed-out request is committed at once, so its slot awaits completion |
| `KbdusMmapProtocol.SendReply` | bdus-master/kbdus/src/protocols/mmap.c:158-235 | handle index 0 does nothing; a handle naming no slot gives -EINVAL; a stale one does nothing; otherwise the reply completes the request |
| `KbdusMmapProtocol.HandleControlIoctl` | bdus-master/kbdus/src/protocols/mmap.c:329-388 | -ENOTTY for other commands and -EINVAL for a buffer index out of range, without changes; otherwise the reply is sent and/or a request received as the command says |
| `KbdusProtocol.LookupFrom` | bdus-master/kbdus/src/protocol.c:98-114 | the first position at or after `from` whose protocol has the name, or none when no later one has it |
| `KbdusProtocol.Lookup` | bdus-master/kbdus/src/protocol.c:98-114 | a protocol is found exactly for "ioctl", "mmap" and "rw", and it is the table's entry of that name |
| `KbdusProtocol.LookupFindsEach` | bdus-master/kbdus/src/protocol.c:21-26 | every protocol of the table is found under its own name and is well formed |
| `KbdusProtocol.ValidateConfig` | bdus-master/kbdus/src/protocol.c:116-125 | the protocol's validator's verdict, or acceptance when it has none |
| `KbdusProtocol.CreateInstance` | bdus-master/kbdus/src/protocol.c:129-144 | no instance for a protocol without the callback; otherwise the callback's instance or its error |
| `KbdusProtocol.HandleControl` | bdus-master/kbdus/src/protocol.c:155-224 | the protocol's handler's result when it has one; otherwise -ENOTTY for ioctl and -EINVAL for read, write and mmap |
| `KbdusProtocol.TableAnswers` | bdus-master/kbdus/src/protocol.c:155-224 | what each table protocol answers itself: ioctl refuses read, write and mmap; rw refuses ioctl and mmap; mmap refuses read and write |
| `KbdusProtocol.InitCalls` | bdus-master/kbdus/src/protocol.c:31-77 | the init calls of the first n protocols are init calls of protocols that have one, below n |
| `KbdusProtocol.ExitCalls` | bdus-master/kbdus/src/protocol.c:79-93 | the exit calls of the first n protocols are exit calls of protocols that have one, below n |
| `KbdusProtocol.ExitCallsDescend` | bdus-master/kbdus/src/protocol.c:79-93 | exit calls go in strictly decreasing table order |
| `KbdusProtocol.Init` | bdus-master/kbdus/src/protocol.c:31-77 | when every init succeeds: 0 and all init calls in order; when protocol f is the first to fail: its error, init calls up to f, then the exits of f-1 down to 0 |
| `KbdusProtocol.ExitFirst` | bdus-master/kbdus/src/protocol.c:79-93 | the countdown loop makes exactly the exit calls of protocols n-1 down to 0 |
| `KbdusProtocol.Exit` | bdus-master/kbdus/src/protocol.c:79-93 | the exit calls of every protocol, last to first, in strictly decreasing order |
| `KbdusProtocol.NoHooksNoCalls` | bdus-master/kbdus/src/protocol.c:31-93 | without init or exit callbacks neither list has a call |
| `KbdusProtocol.TableInitIsTrivial` | bdus-master/kbdus/src/protocol.c:21-77 | no table protocol has init or exit, so loading cannot fail and makes no calls |
| `KbdusControl.ValidateMaxDevices` | bdus/kbdus/src/control.c:52-72 | 0 exactly when max_devices lies in [1, KBDUS_HARD_MAX_DEVICES], otherwise -EINVAL |
| `KbdusControl.InsertKeepsSorted` | bdus/kbdus/src/control.c:805-811 | inserting a device between smaller and larger indices keeps the device list sorted by index |
| `KbdusControl.InsertKeepsSeqnums` | bdus/kbdus/src/control.c:805-811 | inserting a device with the next seqnum keeps seqnums distinct and below the new counter |
| `KbdusControl.InsertKeepsBound` | bdus/kbdus/src/control.c:805-811 | inserting a device with an index below max_devices keeps all indices below it |
| `KbdusControl.RemoveKeeps` | bdus/kbdus/src/control.c:401-421 | removing a device keeps the list sorted, its seqnums distinct and below the counter and its indices bounded |
| `KbdusControl.AboveFirstGap` | bdus/kbdus/src/control.c:253-323 | in a sorted list starting 0, 1, ..., i-1 whose entry i differs from i, every later index exceeds i: why the index search may stop at the first mismatch |
| `KbdusControl.ReplaceKeeps` | bdus/kbdus/src/control.c:401-421 | replacing a device by one with the same index and seqnum keeps every list property |
| `KbdusControl.Session.constructor` | bdus/kbdus/src/control.c:484-521 | a new session is not attached and not marked successful |
| `KbdusControl.Session.MarkAsSuccessful` | bdus/kbdus/src/control.c:1133-1139 | the call succeeds and sets the successful flag, nothing else |
| `KbdusControl.Session.DataOperation` | bdus/kbdus/src/control.c:623-700 | read, write and mmap give -EINVAL unless the session is attached, else the device's handler's result |
| `KbdusControl.Session.UnknownIoctl` | bdus/kbdus/src/control.c:1565-1585 | an unknown command gives -ENOTTY unless the session is attached, else the device's handler's result |
| `KbdusControl.Open` | bdus/kbdus/src/control.c:484-521 | -EACCES without CAP_SYS_ADMIN; otherwise a fresh, unattached, unsuccessful session |
| `KbdusControl.TerminationFor` | bdus/kbdus/src/control.c:1406-1432 | UNAVAILABLE is terminated; ACTIVE is terminated or deactivated as destroy_when_detached says; INACTIVE terminated or left; TERMINATED left |
| `KbdusControl.TerminationIsAccepted` | bdus/kbdus/src/control.c:1406-1432 | every termination decision is a transition the device accepts and never leaves it ACTIVE |
| `KbdusControl.Registry.constructor` | bdus/kbdus/src/control.c:1672-1736 | at module load, with a validated max_devices, the registry is empty and the seqnum counter 0 |
| `KbdusControl.Registry.FindUnusedIndex` | bdus/kbdus/src/control.c:253-323 | found: the smallest index below max_devices no device uses, and the list position keeping the list sorted; not found: every index is used |
| `KbdusControl.Registry.LookupByIndex` | bdus/kbdus/src/control.c:339-356 | the position of the device with that index, or none exactly when no device has it |
| `KbdusControl.Registry.LookupBySeqnum` | bdus/kbdus/src/control.c:372-387 | the position of the device with that seqnum, or none exactly when no device has it |
| `KbdusControl.Registry.CreateDevice` | bdus/kbdus/src/control.c:739-826 | an attached session gets -EINVAL, a full registry -ENOSPC; otherwise the device gets the smallest unused index and the next seqnum and the session attaches to it |
| `KbdusControl.Registry.DestroyAt` | bdus/kbdus/src/control.c:401-421 | the device is removed from the list, the counter is unchanged and the registry stays valid |
| `KbdusControl.Registry.ReplaceAt` | bdus/kbdus/src/control.c:401-421 | one device is replaced by an updated one with the same index and seqnum |
| `KbdusControl.Registry.IndexToSeqnum` | bdus/kbdus/src/control.c:1150-1211 | -EINVAL for an index above U32_MAX, -ENODEV when no device has it, otherwise 0 and that device's seqnum |
| `KbdusControl.Registry.FindBySeqnum` | bdus/kbdus/src/control.c:1221-1285 | -EINVAL for a seqnum never handed out, -ENODEV for one whose device is gone, otherwise 0 and the device's position |
| `KbdusControl.Registry.GetDeviceConfig` | bdus/kbdus/src/control.c:1221-1285 | the seqnum checks, then 0 and the configuration of the device with that seqnum |
| `KbdusControl.Registry.FlushDevice` | bdus/kbdus/src/control.c:1295-1370 | the seqnum checks; a read-only device succeeds without flushing; no block device gives -EIO; otherwise the flush's result |
| `KbdusControl.Registry.RequestSessionTermination` | bdus/kbdus/src/control.c:1381-1442 | -EINVAL for a seqnum never handed out; otherwise 0, with `TerminationFor` applied to the device if it still exists |
| `KbdusControl.Registry.RequestDeviceDestruction` | bdus/kbdus/src/control.c:1453-1500 | -EINVAL for a seqnum never handed out; otherwise 0, an attached device is terminated and an unattached one destroyed at once |
| `KbdusControl.Registry.WaitUntilDestroyed` | bdus/kbdus/src/control.c:1511-1552 | -EINVAL for a seqnum never handed out; otherwise 0, and the caller blocks exactly while the device exists |
| `KbdusControl.Registry.Release` | bdus/kbdus/src/control.c:530-613 | an attached session detaches, and its device is destroyed, terminated, deactivated or handed to a waiting attach as `ReleaseOutcome` says |
| `KbdusControl.Registry.AttachBegin` | bdus/kbdus/src/control.c:905-985 | in the source's order: an attached session or an unknown seqnum or a refused configuration give -EINVAL, a vanished device -ENODEV, an UNAVAILABLE device -EBUSY, a device another attach already waits on -EINPROGRESS; otherwise the caller attaches or waits for the current session to detach |
| `KbdusControl.Registry.AttachResume` | bdus/kbdus/src/control.c:985-1054 | the device is looked up again and one destroyed meanwhile gives -ENODEV with the registry unchanged (the corrected re-lookup); after a wait the registration is dropped; an interrupted wait gives -ERESTARTSYS; otherwise the session attaches with its protocol instance, or the instance's error is returned |
| `KbdusControl.ReleaseOutcome` | bdus/kbdus/src/control.c:558-600 | the device is destroyed exactly when it is UNAVAILABLE, or nobody waits on it and it is destroy-when-detached or TERMINATED; otherwise it is left INACTIVE or TERMINATED without its session |
| `KbdusControl.ReleaseIsAccepted` | bdus/kbdus/src/control.c:558-600 | every state change a release makes is a transition the device accepts |
| `KbdusControl.DeactivateForAttach` | bdus/kbdus/src/control.c:971-977 | attach's deactivation leaves TERMINATED alone and makes every other state INACTIVE, exactly the device's own deactivation transition, so the device is never left ACTIVE |
| `KbdusControl.SeqnumPositionUnique` | bdus/kbdus/src/control.c:372-387 | with distinct seqnums the device holding a seqnum is the one found by seqnum |
| `KbdusControl.RemovedSeqnumGone` | bdus/kbdus/src/control.c:401-421 | once its device is removed a seqnum is no longer present |
| `KbdusControl.FlushResult` | bdus/kbdus/src/control.c:434-471 | the write-back's error, else the flush request's result with -EOPNOTSUPP counted as success |
| `KbdusControl.CreatedSeqnumIsFresh` | bdus/kbdus/src/control.c:805-811 | seqnums are handed out in increasing order: no device has the next seqnum or any above it |
| `KbdusControl.DestroyedDuringAttachWait` | bdus/kbdus/src/control.c:571-590 | while an attach waits on an attached device, the release keeps that device for the waiter but without a session, and destroying it then leaves its seqnum naming no device, which the source's stale pointer at control.c:997-1005 does not see |
| `LibBdus.DigitRun` | bdus/libbdus/src/bdus.c:1393-1399 | the run of leading decimal digits where the conversion stops: all digits, followed by a non-digit or the end |
| `LibBdus.DigitRunOfDigits` | bdus/libbdus/src/bdus.c:1393-1399 | a string made only of digits is consumed whole |
| `LibBdus.ParseUint32` | bdus/libbdus/src/bdus.c:1385-1407 | an index string is accepted exactly when it is canonical decimal (non-empty, no sign or space, no leading zero) and its value fits in 32 bits, and then yields that value |
| `LibBdus.ParseFormat` | bdus/libbdus/src/bdus.c:1385-1407 | parsing the decimal formatting of any 32-bit index gives the index back |
| `LibBdus.FormatParse` | bdus/libbdus/src/bdus.c:1385-1407 | every accepted string is the formatting of its value, so the parser accepts no two spellings of one index |
| `LibBdus.PathToIndex` | bdus/libbdus/src/bdus.c:1409-1424 | a path is accepted exactly when it is `/dev/bdus-` followed by an index, and yields that index |
| `LibBdus.PrefixedPath` | bdus/libbdus/src/bdus.c:1414-1421 | after the `/dev/bdus-` prefix, the parsed remainder determines the one device path the string can be |
| `LibBdus.IndexAndPathDisjoint` | bdus/libbdus/src/bdus.c:1445-1469 | no string is both a bare index and a device path, so the order of the two attempts does not matter |
| `LibBdus.IndexOrPathToIndex` | bdus/libbdus/src/bdus.c:1445-1469 | succeeds exactly for a bare index or a device path, yielding its index; anything else fails with EINVAL |
| `LibBdus.IndexToPath` | bdus/libbdus/src/bdus.c:1346-1383 | a non-zero buffer no longer than the path fails with EINVAL and 0; otherwise the path length is returned, and a non-zero buffer receives the NUL-terminated path |
| `LibBdus.PathRoundTrip` | bdus/libbdus/src/bdus.c:1346-1424 | the path written for an index parses back to that index |
| `LibBdus.ValidateOpsRun` | bdus/libbdus/src/bdus.c:416-433 | a driver is accepted exactly when `fua_write` comes with `flush` |
| `LibBdus.ValidateAttrsRun` | bdus/libbdus/src/bdus.c:435-580 | the attributes are accepted exactly when the page size is known, the block sizes are powers of two within [512, page size] and ordered, the size is a positive multiple of the larger block size, and each maximum size is 0 or a multiple of the logical block size no smaller than the page |
| `LibBdus.PowerOfTwoTest` | bdus/libbdus/src/bdus.c:446 | the bit test used for block sizes holds exactly for powers of two |
| `LibBdus.ValidateOpsRerunAsWritten` | bdus/libbdus/src/bdus.c:766-879 | as written, only `fua_write` without `flush` is refused; a callback mismatch sets an error but is still accepted |
| `LibBdus.MissingCallbackAcceptedAsWritten` | bdus/libbdus/src/bdus.c:784-800 | a driver with no `read` callback re-attaching to a device that serves reads is accepted, with an error message set |
| `LibBdus.ValidateOpsRerun` | bdus/libbdus/src/bdus.c:766-879 | accepted drivers pair `fua_write` with `flush`, match the device on `flush`, and implement every callback for a request the device supports |
| `LibBdus.ValidateAttrsRerun` | bdus/libbdus/src/bdus.c:881-1006 | accepted exactly when the block sizes and size are each 0 or the device's own and each maximum is 0 or at least the device's; all-zero attributes are always accepted |
| `LibBdus.DeviceAttrsPassRerun` | bdus/libbdus/src/bdus.c:881-1006 | the existing device's own attributes always pass the re-run check |
| `LibBdus.InternalConfig.Adjust` | bdus/libbdus/src/bdus.c:268-300 | fills in the defaults (backend "mmap", 64 queue requests, 16 ioctl requests), keeps given values, and finds the backend by name or reports none |
| `LibBdus.DefaultBackendExists` | bdus/libbdus/src/bdus.c:275 | the default backend name is in the backend table |
| `LibBdus.AttrsCopy.ClampConcurrentCallbacks` | bdus/libbdus/src/bdus.c:601-602 | the concurrent-callback count becomes min(max(v, 1), queue + ioctl); other attributes are unchanged |
| `LibBdus.ClampWithinAdjustedLimits` | bdus/libbdus/src/bdus.c:601-602 | with adjusted limits the clamped count lies in [1, queue + ioctl] |
| `LibBdus.CheckVersion` | bdus/libbdus/src/bdus.c:112-161 | the control device is accepted exactly when kbdus and libbdus agree on major, minor and patch; otherwise EINVAL |
| `LibBdus.ManageDev` | bdus/libbdus/src/bdus.c:1294-1331 | succeeds exactly when every step asked for succeeds; the seqnum lookup comes first and a flush or destruction is issued only after the previous steps succeeded |
| `LibBdus.FlushDevice` | bdus/libbdus/src/bdus.c:1333-1336 | flushing succeeds exactly when the control device opens, the index resolves and the flush succeeds |
| `LibBdus.DestroyDevice` | bdus/libbdus/src/bdus.c:1338-1341 | destruction succeeds exactly when every step succeeds, with the flush only when asked for |
| `LibBackend.Lookup` | bdus-master/libbdus/src/backend.c:36-49 | the first backend in the table with the given name, or none exactly when no entry has it |
| `LibBackend.CallFor` | bdus-master/libbdus/src/backend.c:113-373 | the callback each request type invokes with its arguments; no callback exactly for types outside read..ioctl |
| `LibBackend.ReplySize` | bdus-master/libbdus/src/backend.c:113-373 | -1 exactly for unhandled types; a positive reply size only for a successful read (its length) or a successful reading ioctl (its `_IOC_SIZE`) |
| `LibBackend.ProcessRequest` | bdus-master/libbdus/src/backend.c:349-361 | reports `ReplySize` and the negated callback result, and zeroes the first `_IOC_SIZE` bytes of the buffer for a write-only ioctl |
| `LibBackend.DefaultOnDeviceAvailable` | bdus-master/libbdus/src/backend.c:53-56 | 0 when the device path is printed, otherwise EIO |
| `LibBackend.OnDeviceAvailable` | bdus-master/libbdus/src/backend.c:58-111 | fails with the callback's error or the daemonising error; otherwise succeeds, telling whether the process daemonised |
| `LibIoctlBackend.ServiceLoop` | bdus-master/libbdus/src/backends/ioctl.c:179-210 | ends with the status of its first stopping exchange, and every reply names the previous request's handle (0 first) |
| `LibMmapBackend.PayloadBufferSize` | bdus/libbdus/src/backends/mmap.c:56-79 | the least page multiple that holds the largest payload, zero exactly when no payload is needed |
| `LibMmapBackend.InitContexts` | bdus/libbdus/src/backends/mmap.c:384-401 | one fresh, distinct context per thread, thread i using the payload buffer at page + i * payload, RUNNING and with device-available notifications disallowed |
| `LibRwBackend.TransferVerdict` | bdus/libbdus/src/backends/rw.c:81-157 | interrupted attempts are retried; the first other attempt decides, a read needing at least and a write exactly the expected byte count |
| `LibRwBackend.SettleTransfer` | bdus/libbdus/src/backends/rw.c:81-157 | the retry loop reaches `TransferVerdict` and records a failure as an ERROR status |
| `LibRwBackend.ProcessRequest` | bdus/libbdus/src/backends/rw.c:159-226 | -1 exactly for a request that ends the loop, with the status it ends with; otherwise the reply payload size |
| `LibRwBackend.StepOf` | bdus/libbdus/src/backends/rw.c:245-275 | one iteration writes at most one reply, only for a handled request with a non-zero handle index, and goes on only when the request was handled |
| `LibRwBackend.RepliesAnswerRequests` | bdus/libbdus/src/backends/rw.c:245-275 | every reply the loop writes answers a handled request with a non-zero handle index, copying its seqnum and index |
| `LibRwBackend.ServeRound` | bdus/libbdus/src/backends/rw.c:245-275 | a round run against the context takes the step `StepOf` describes and records its outcome |
| `LibRwBackend.ServiceLoop` | bdus/libbdus/src/backends/rw.c:228-278 | the replies written and the final status are those of `Serve`; an ERROR status requests termination |
| `BackendService.Dispatch` | bdus/libbdus/src/backends/mmap.c:122-191 | requests read..ioctl go to a callback; device-available stops the loop only where allowed (EINVAL elsewhere); the terminate requests stop with TERMINATE; unknown types are EINVAL |
| `BackendService.Outcome` | bdus/libbdus/src/backends/mmap.c:193-217 | an exchange never leaves the loop RUNNING |
| `BackendService.FinalStatusOfEndedLoop` | bdus/libbdus/src/backends/mmap.c:199-208 | a loop that ends does so with the outcome of its first stopping exchange |
| `BackendService.FinalStatusOfEndlessLoop` | bdus/libbdus/src/backends/mmap.c:199-208 | a loop that never ends keeps its initial status |
| `BackendService.Context.ProcessRequest` | bdus/libbdus/src/backends/mmap.c:122-191 | goes on exactly when `Dispatch` hands the request to a callback, and otherwise stores the stopping status |
| `BackendService.Context.ServiceLoop` | bdus/libbdus/src/backends/mmap.c:193-217 | ends with the first stopping exchange's status, each reply names the previous request's handle, and an ERROR requests termination |
| `BackendService.FirstError` | bdus/libbdus/src/backends/mmap.c:267-276 | the errno of the first ERROR status, none exactly when there is none |
| `BackendService.ScanStatuses` | bdus/libbdus/src/backends/mmap.c:267-276 | the scan after joining the threads reports `FirstError` of the contexts' statuses |
| `BackendService.RunSucceedsIff` | bdus/libbdus/src/backends/mmap.c:284-324 | a run succeeds exactly when phase one terminates, or reaches device-available, the device-available step succeeds and every phase-two loop ends without ERROR |
| `BackendService.FirstStop` | bdus/libbdus/src/backends/mmap.c:199-208 | given an exchange that stops the loop, there is a first one |
| `BackendService.ServePhaseTwo` | bdus/libbdus/src/backends/mmap.c:228-282 | every thread serves its exchanges with device-available disallowed; all end exactly when each sequence ends, with its final status |
| `BackendService.Run` | bdus/libbdus/src/backends/mmap.c:284-324 | the outcome of phase one, the device-available step and phase two is `RunSpec` |
| `CmdBdus.Dispatch` | bdus/cmdbdus/bdus.c:144-187 | `--help` and `--version` alone, `destroy --help`, `destroy <dev>` (flushing) and `destroy` with `--no-flush` on either side of the device (not flushing) are recognised; every other argument list is a usage error |
| `CmdBdus.NoFlushEitherSide` | bdus/cmdbdus/bdus.c:168-175 | `--no-flush` before or after the device both destroy without flushing |
| `CmdBdus.ActionVersion` | bdus/cmdbdus/bdus.c:62-110 | exit status 0 exactly when kbdus's version can be read, else 1 |
| `CmdBdus.ActionDestroy` | bdus/cmdbdus/bdus.c:112-139 | exit status 0 exactly when the argument is an index or device path and the destruction succeeds, else 1 |
| `CmdBdus.ExitCode` | bdus/cmdbdus/bdus.c:144-187 | help prints exit 0, usage errors and only they exit 2, and the actions exit with their own status |
| `DocsConf.FormatPlain` | bdus/docs/conf.py:16-19 | `str.format` copies text without braces unchanged |
| `DocsConf.FormatNamedField` | bdus/docs/conf.py:16-19 | a `{name}` field is replaced by the named argument |
| `DocsConf.FormatMissingField` | bdus/docs/conf.py:16-19 | a `{name}` field with no such argument raises KeyError |
| `DocsConf.FormatAutoField` | bdus/docs/conf.py:98-107 | a `{}` field takes the next positional argument |
| `DocsConf.FormatEscapedBraces` | bdus/docs/conf.py:152-155 | `{{` and `}}` become single braces |
| `DocsConf.FormatPlainAll` | bdus/docs/conf.py:145-149 | brace-free text formats to itself |
| `DocsConf.FormatOneField` | bdus/docs/conf.py:16-19 | a template with one named field between plain text is filled, or fails with KeyError when the name is missing |
| `DocsConf.FormatFieldThenEscaped` | bdus/docs/conf.py:152-155 | a named field followed by a doubled-brace field: the first is filled, the second becomes a single-brace field |
| `DocsConf.CopyrightTemplateFields` | bdus/docs/conf.py:16-19 | the copyright template fills to `year, author` |
| `DocsConf.CopyrightIsYearAndAuthor` | bdus/docs/conf.py:14-19 | the copyright is the current year in decimal, a comma and a space, and "Alberto Faria" |
| `DocsConf.FindAllEmpty` | bdus/docs/conf.py:22 | the multiline search finds nothing exactly when no line is a version line |
| `DocsConf.FindAllOnly` | bdus/docs/conf.py:22 | when exactly one line matches, the search returns that line's version token alone |
| `DocsConf.FindAllSingle` | bdus/docs/conf.py:22 | a single result comes from the only matching line |
| `DocsConf.ExtractVersionExact` | bdus/docs/conf.py:21-22 | the version is found exactly when one Makefile line is `VERSION := ` followed by a version token, and that token is the result |
| `DocsConf.ExtractVersionErrors` | bdus/docs/conf.py:22 | the one-element unpacking fails for no version line and for several |
| `DocsConf.LeadingZerosAccepted` | bdus/docs/conf.py:22 | components keep leading zeros, since the pattern is `\d+` |
| `DocsConf.VersionFromRuns` | bdus/docs/conf.py:22 | three digit runs joined by dots form a version token, and splitting at the dots recovers them |
| `DocsConf.VersionedLinkShape` | bdus/docs/conf.py:98-107 | the repository links embed the version and keep exactly one `%s` path slot |
| `DocsConf.DiffLinkShape` | bdus/docs/conf.py:110-113 | the diff link has exactly one `%s` slot |
| `DocsConf.BreatheTablesAgree` | bdus/docs/conf.py:120-130 | the default Doxygen project is configured, both tables name the same projects, and each source entry lists a header |
| `DocsConf.LatestMessageHasNoField` | bdus/docs/conf.py:145-149 | the development-version banner has no field |
| `DocsConf.DefaultMessageKeepsNewest` | bdus/docs/conf.py:152-155 | the default banner embeds the version and leaves a single `{newest}` field, which fills with the newest release or raises KeyError without it |
| `DocsConf.BannerHtmlHasMessageSlot` | bdus/docs/conf.py:158 | the banner HTML has exactly one field, `message` |
| `DocsConf.EvaluateProperties` | bdus/docs/conf.py:8-161 | the configuration fails when the version cannot be extracted, and otherwise has version and release set to the token, versioned links, the copyright and the banner messages |
| `RamDrivers.OverwriteAt` | bdus-master/examples/ram.c:55-67 | a copy at an offset places the data in its range and keeps every other byte |
| `RamDrivers.RepeatIndex` | bdus-master/examples/ram.c:69-84 | byte k of repeated blocks is byte k mod the block size of the block |
| `RamDrivers.Zeros` | bdus-master/examples/ram.c:86-98 | zero-filling yields the requested number of zero bytes |
| `RamDrivers.OverwriteConcat` | bdus-master/examples/ram.c:78-82 | two adjacent copies amount to one copy of both, which is what the write-same loop relies on |
| `RamDrivers.ZerosAreRepeatedZeroBlock` | bdus-master/examples/ram.c:86-98 | writing zeros over whole blocks is write-same of a zero block |
| `RamDrivers.ReadAfterWrite` | bdus-master/examples/ram.c:43-67 | a read of the range just written returns the data; a disjoint range keeps its old bytes |
| `RamDrivers.RamDisk.Read` | bdus-master/examples/ram.c:43-53 | the request buffer receives the stored bytes of the range and nothing else changes |
| `RamDrivers.RamDisk.Write` | bdus-master/examples/ram.c:55-67 | the store becomes the old contents with the buffer copied in at the offset |
| `RamDrivers.RamDisk.WriteSame` | bdus-master/examples/ram.c:69-84 | the store holds the request's block repeated over the whole range, everything else kept |
| `RamDrivers.RamDisk.WriteZeros` | bdus-master/examples/ram.c:86-98 | the range becomes zeros, everything else kept |
| `RamDrivers.RamDisk.Flush` | bdus-master/tests/drivers/ram.c:86-91 | flush succeeds |
| `RamDrivers.RamDisk.Discard` | bdus-master/tests/drivers/ram.c:93-101 | discard succeeds |
| `RamDrivers.RamDisk.SecureErase` | bdus-master/tests/drivers/ram.c:103-111 | secure erase succeeds |
| `RamDrivers.RamDisk.Ioctl` | bdus-master/tests/drivers/ram.c:113-121 | every ioctl fails with ENOTTY |
| `RamDrivers.Initialize` | bdus-master/examples/ram.c:21-32 | 0 with a fresh device-sized buffer, or ENOMEM exactly when allocation fails |
| `RamDrivers.Terminate` | bdus-master/examples/ram.c:34-41 | termination succeeds |
| `RamDrivers.ZeroRead` | bdus/examples/zero.c:22-29 | the read fills the request with zeros and leaves the rest of the buffer |
| `RamDrivers.DriversAreAccepted` | bdus-master/examples/ram.c:100-117 | every driver's callbacks and attributes pass the run-time checks on a system with 4 KiB pages |
| `RamDrivers.ZeroDeviceIsReadOnly` | bdus/examples/zero.c:31-34 | the zero device supports no data-changing request, so kbdus makes it read-only; a RAM disk is writable |
| `RamDrivers.ZeroLaunch` | bdus/examples/zero.c:51-91 | no argument creates a device, one index or path serves an existing device, anything else is a usage error |
| `RamDrivers.RamLaunch` | bdus-master/examples/ram.c:121-128 | the RAM drivers take no argument |
| `RamDrivers.ExitStatus` | bdus-master/examples/ram.c:121-143 | 2 exactly for a usage error, then 0 or 1 as the driver succeeded |
| `RamDrivers.SimpleRamExitStatus` | bdus-master/examples/ram-simple.c:52-64 | 0 exactly when the buffer is allocated and the driver succeeds, else 1 |
| `FbdDefines.OpAnd` | fbdd/fbd_defines.h:6-9 | the bitwise and of two operation masks, bit by bit |
| `FbdDefines.OperationMasks` | fbdd/fbd_defines.h:6-9 | a WRITE_READ fault matches both a read and a write, READ and WRITE share no bit, and NONE matches nothing |
| `FbdDefines.OperationToString` | fbdd/fbd_defines.c:3-16 | "not found" exactly for values outside the four operations |
| `FbdDefines.FaultToString` | fbdd/fbd_defines.c:18-31 | "not found" exactly for values outside the four fault kinds |
| `FbdDefines.ModeToString` | fbdd/fbd_defines.c:33-48 | "not found" exactly for values outside the five modes |
| `FbdDefines.ResponseToString` | fbdd/fbd_defines.c:50-79 | the fallback message exactly for values that are not status codes; 0 reads as "Connection closed" |
| `FbdDefines.NamesAreDistinct` | fbdd/fbd_defines.c:3-48 | distinct operations, fault kinds and modes get distinct names |
| `FbdDefines.ResponsesRoundTrip` | fbdd/fbd_defines.c:50-79 | every status code's message reads back as that code, so distinct codes get distinct messages |
| `FaultLibrary.ToLong` | fbdd/fault/fault.c:31-34 | the `uint64_t` delay passed to `msleep`'s `long` keeps its value modulo 2^64 and is negative exactly from 2^63 |
| `FaultLibrary.SleepRequest` | fbdd/fault/fault.c:12-13 | the request is whole seconds plus the remaining milliseconds in nanoseconds, together exactly `tms`, each part carrying its sign |
| `FaultLibrary.Msleep` | fbdd/fault/fault.c:8-20 | the first request is `SleepRequest(tms)`, each retry asks for the time the interrupted call reported as left, retries stop at the first call not interrupted, and 0 means that call slept fully |
| `FaultLibrary.FlipLowBit` | fbdd/fault/fault.c:25 | only the lowest bit changes |
| `FaultLibrary.FlipLowBitInvolution` | fbdd/fault/fault.c:25 | flipping twice restores the byte, and a flip always changes it |
| `FaultLibrary.InjectBitFlip` | fbdd/fault/fault.c:22-29 | only the first byte of the buffer changes, by a low-bit flip, and the result is OK |
| `FaultLibrary.InjectSlowDisk` | fbdd/fault/fault.c:31-37 | sleeps for the delay through `msleep` and succeeds; a delay of 2^63 ms or more becomes a negative, non-zero request |
| `FaultLibrary.InjectMedium` | fbdd/fault/fault.c:39-43 | the result is the (negative) medium-error status |
| `FbdStructs.CString` | fbdd/fbd_structs.c:52-70 | the bytes `strcmp` compares: a NUL-free prefix ending at the first NUL |
| `FbdStructs.Xxh3CompareIsDigestEquality` | fbdd/fbd_structs.c:52-70 | for XXH3 the comparison is digest equality |
| `FbdStructs.Md5CompareWithoutNul` | fbdd/fbd_structs.c:52-70 | for MD5 the comparison as written is digest equality only when neither digest holds a NUL |
| `FbdStructs.Md5CompareStopsAtNul` | fbdd/fbd_structs.c:52-70 | two different MD5 digests that both start with a NUL compare equal as written |
| `FbdStructs.InterseptMemory` | fbdd/fbd_structs.c:19-24 | the closed intervals overlap exactly when the result says so, and then their common points are exactly [max, min] |
| `FbdStructs.CheckSizeOffset` | fbdd/fbd_structs.c:27-29 | every size and offset is accepted |
| `FbdStructs.NewFault` | fbdd/fbd_structs.c:127-138 | a new fault is active, carries its delay, and matches its own kind and operation |
| `FbdStructs.SlowDiskArgsOverrun` | fbdd/fbd_structs.c:134-135 | as written the 8-byte delay is copied into an allocation of `sizeof(uint8_t)` bytes |
| `FbdStructs.ArgsAllocation` | fbdd/fbd_structs.c:134-135 | the allocation the copy needs holds all `args_size` bytes |
| `FbdStructs.FindFault` | fbdd/fbd_structs.c:267-274 | the first fault of the range with the kind that shares a bit with the operation, none exactly when there is none |
| `FbdStructs.GetFault` | fbdd/fbd_structs.c:267-274 | the loop finds `FindFault` |
| `FbdStructs.FindFaultInMode` | fbdd/fbd_structs.c:276-281 | `get_fault` on a range of the mode asked for, nothing on a range of another mode |
| `FbdStructs.FindRange` | fbdd/fbd_structs.c:226-265 | the first range whose key (block size and offset, or hash and mode) is the target's, none exactly when there is none |
| `FbdStructs.AddFaultOverflow` | fbdd/fbd_structs.c:287-291 | as written four distinct faults on one block are all accepted, the fourth landing past the three-slot array |
| `FbdStructs.WriteAndReadDisjoint` | fbdd/fbd_defines.h:7-8 | WRITE and READ share no bit, and each shares a bit with itself |
| `FbdStructs.AddedKeepsValid` | fbdd/fbd_structs.c:297-368 | adding a fault keeps every range non-empty, within three faults, free of duplicates and with a distinct key |
| `FbdStructs.AddedMeaning` | fbdd/fbd_structs.c:297-368 | adding reports a duplicate exactly when the key's range holds a matching fault; a duplicate or an error (only on a full range) changes nothing; on success the fault is found in the range for its key |
| `FbdStructs.AddTwiceIsDuplicate` | fbdd/fbd_structs.c:310-317 | adding the same fault twice: the second call is a duplicate and changes nothing |
| `FbdStructs.Step` | fbdd/fbd_structs.c:588-612 | one fault looked at has its effect if it fires and is kept unless it fired and is one-shot |
| `FbdStructs.FireAllMeaning` | fbdd/fbd_structs.c:584-615 | exactly the faults that did not fire or are persistent are kept, in order; a medium error, a flip or a delay happens exactly when a fault of that kind fires |
| `FbdStructs.FireAllKeepsNoConflicts` | fbdd/fbd_structs.c:584-615 | firing keeps a range free of duplicates |
| `FbdStructs.FireAllAtMostOncePerKind` | fbdd/fbd_structs.c:584-615 | in a range without duplicates a read or a write flips at most one bit and sleeps at most once |
| `FbdStructs.InjectionSkipsShiftedFault` | fbdd/fbd_structs.c:603-614 | as written the fault shifted into slot j after a one-shot fault fires is skipped: a one-shot medium error followed by a one-shot bit flip fails the write without flipping |
| `FbdStructs.FlipTimesParity` | fbdd/fault/fault.c:25 | flips cancel in pairs |
| `FbdStructs.FireFaults` | fbdd/fbd_structs.c:584-615 | the fault loop keeps `FireAll`'s faults, sleeps its delays, reports a medium error exactly when one fired and flips the first byte once per bit flip |
| `FbdStructs.FireOne` | fbdd/fbd_structs.c:589-602 | a bit flip flips the first byte, a slow disk records its delay, a medium error sets the status |
| `FbdStructs.DedupExempt` | fbdd/fbd_structs.c:512-530 | on a dedup range a read meets the first write bit-flip fault: when it is active the data is flipped and written back and the fault is deactivated; nothing else changes |
| `FbdStructs.DedupExemptOnce` | fbdd/fbd_structs.c:512-530 | a second read of the same content rewrites nothing |
| `FbdStructs.DedupException` | fbdd/fbd_structs.c:512-530 | the method reaches `DedupExempt`, flipping the buffer exactly when it rewrites |
| `FbdStructs.FirstHit` | fbdd/fbd_structs.c:566-581 | the first range the request hits (overlapping block, or matching hash), none exactly when there is none |
| `FbdStructs.InjectedOnHit` | fbdd/fbd_structs.c:553-623 | on a hit the flips, status and delays are those of the dedup exception and of firing the hit range |
| `FbdStructs.InjectedOnMiss` | fbdd/fbd_structs.c:553-623 | a request that hits no range changes nothing and succeeds |
| `FbdStructs.InjectedKeepsValid` | fbdd/fbd_structs.c:553-623 | injection keeps the registry's invariant |
| `FbdStructs.InjectedKeepsBlockOnly` | fbdd/fbd_structs.c:553-623 | injection adds no hash-keyed range |
| `FbdStructs.InjectedMeaning` | fbdd/fbd_structs.c:553-623 | a miss changes nothing; on a hit every other range is untouched, the hit range keeps its target or is unlinked, its persistent faults stay, and a medium error is reported exactly when a medium fault fires |
| `FbdStructs.InjectedKeepsHashingDefined` | fbdd/fbd_structs.c:553-623 | injection keeps the hash type defined where a hash-keyed range needs it |
| `FbdStructs.FbdDevice.constructor` | fbdd/fbd_structs.c:91-99 | a new device has index -1, no path, every mode off and no fault |
| `FbdStructs.FbdDevice.GetRange` | fbdd/fbd_structs.c:226-265 | the walk finds `FindRange` |
| `FbdStructs.FbdDevice.AddFault` | fbdd/fbd_structs.c:297-368 | the new registry and status are those of `Added`, and the invariant is kept |
| `FbdStructs.FbdDevice.AddBitFlipFault` | fbdd/fbd_structs.c:370-414 | adds a bit-flip fault as `Added` describes |
| `FbdStructs.FbdDevice.AddSlowDiskFault` | fbdd/fbd_structs.c:417-466 | adds a slow-disk fault carrying its delay as `Added` describes |
| `FbdStructs.FbdDevice.AddMediumErrorFault` | fbdd/fbd_structs.c:469-510 | adds a medium-error fault as `Added` describes |
| `FbdStructs.FbdDevice.RemoveAllFaults` | fbdd/fbd_structs.c:543-548 | the registry becomes empty and the result is OK |
| `FbdStructs.FbdDevice.FindHit` | fbdd/fbd_structs.c:566-581 | the walk finds `FirstHit` |
| `FbdStructs.FbdDevice.CheckAndInject` | fbdd/fbd_structs.c:553-630 | the registry, status, delays and data after a request are those of `Injected`, and the invariants are kept |
| `FbdStructs.FbdDevice.InjectAt` | fbdd/fbd_structs.c:582-621 | on a hit of range i, the range is replaced by the faults firing keeps, or unlinked when none remain |
| `FbdStructs.AddedAsWritten` | fbdd/fbd_structs.c:287-291 | the adders as written: a new fault joins its block's array whatever its size, a duplicate still being refused (see `FbdStructs.AddFaultOverflow`) |
| `FbdStructs.FireFromAsWritten` | fbdd/fbd_structs.c:603-614 | the fault loop as written: a fired one-shot fault is removed and the index still advances (see `FbdStructs.InjectionSkipsShiftedFault`) |
| `FbdStructs.HashesMatchAsWritten` | fbdd/fbd_structs.c:52-70 | the comparison as written: MD5 digests as C strings up to the first NUL, XXH3 digests by all 16 bytes (see `FbdStructs.Md5CompareStopsAtNul`) |
| `FbdStructs.ArgsAllocationAsWritten` | fbdd/fbd_structs.c:134-135 | the bytes copied equal the argument size, while the allocation as written is one byte (see `FbdStructs.SlowDiskArgsOverrun`) |
| `FspStructs.LeRoundTrip` | fbdd/fsocket/fsp_server.c:104-105 | reading back n bytes written little-endian gives the value, when it fits |
| `FspStructs.LeValueBound` | fbdd/fsocket/fsp_server.c:104-105 | a value read from n bytes is below 256^n |
| `FspStructs.DelayArgs` | fbdd/fsocket/fsp_structs.c:28-33 | a slow-disk delay is sent as the eight bytes of its `uint64_t` |
| `FspStructs.DelayRoundTrip` | fbdd/fsocket/fsp_server.c:104-105 | a delay sent as its eight bytes is read back unchanged by the server |
| `FspStructs.Request.constructor` | fbdd/fsocket/fsp_structs.c:35-42 | operation, fault kind and persistence are set and the mode union is zeroed |
| `FspStructs.Request.SetArgs` | fbdd/fsocket/fsp_structs.c:28-33 | records the size, copies that many bytes, writes a NUL just after them when the size is below 64, and leaves the other bytes |
| `FspStructs.Request.SetBlock` | fbdd/fsocket/fsp_structs.c:79-84 | block mode with the interval's size and offset |
| `FspStructs.Request.SetHash` | fbdd/fsocket/fsp_structs.c:45-67 | records the hash type; for MD5 and XXH3 stores the 16-byte digest, MD5 with a NUL after it; an unknown type leaves the hash |
| `FspStructs.NewBlockRequest` | fbdd/fsocket/fsp_structs.c:98-105 | a fresh block-mode request with the given fields and argument bytes |
| `FspStructs.NewHashRequest` | fbdd/fsocket/fsp_structs.c:69-95 | a fresh hash- or dedup-mode request carrying the digest and argument bytes |
| `FspStructs.NewDeviceRequest` | fbdd/fsocket/fsp_structs.c:107-113 | a fresh device-mode request whose mode union stays zero |
| `FspStructs.NewSlowDiskBlockRequest` | fbdd/fsocket/fsp_structs.c:98-105 | a slow-disk request built from a delay's eight bytes carries that delay to the server |
| `FspServer.HashToFbdHash` | fbdd/fsocket/fsp_server.c:18-31 | known hash types convert to a hash that compares equal (MD5 copied whole); any other type is INVALID_HASH_TYPE |
| `FspServer.DeviceTarget` | fbdd/fsocket/fsp_server.c:100-112 | a device fault is a block fault at offset 0 whose size is the device size, kept whole below 4 GiB |
| `FspServer.HandleBlockRequests` | fbdd/fsocket/fsp_server.c:45-58 | the response and registry are the adder's for the request's block interval and fault kind |
| `FspServer.HandleHashRequests` | fbdd/fsocket/fsp_server.c:60-98 | a refused hash type is the response and changes nothing; otherwise the adder's for the hash or dedup key |
| `FspServer.HandleDeviceRequests` | fbdd/fsocket/fsp_server.c:100-112 | the adder's for a block fault over the device |
| `FspServer.HandleKind` | fbdd/fsocket/fsp_server.c:47-57 | bit flip, slow disk (with the delay from the arguments) and medium error go to their adders; another kind is NOT_FOUND |
| `FspServer.HandleRequest` | fbdd/fsocket/fsp_server.c:114-139 | the response and registry are `Handled`'s, keeping the invariants |
| `FspServer.ServeConnection` | fbdd/fsocket/fsp_server.c:190-202 | the responses and the registry left behind are exactly `Served`'s: each request handled in order on the registry the earlier ones left, every response a status code that fits the response byte |
| `FspServer.Served` | fbdd/fsocket/fsp_server.c:190-202 | one response per request received |
| `FspServer.ServedAt` | fbdd/fsocket/fsp_server.c:190-202 | the k-th response is `handle_request`'s answer to the k-th request on the registry the first k requests left |
| `FspServer.ServedConcat` | fbdd/fsocket/fsp_server.c:190-202 | serving two runs of requests in turn gives the concatenated responses and the registry the second run leaves |
| `FspServer.HandledKeepsBlockOnly` | fbdd/fsocket/fsp_server.c:114-139 | only an enabled hash or dedup request adds a hash-keyed range |
| `FspServer.AddedStatus` | fbdd/fbd_structs.c:297-368 | an adder answers OK, DUP_FAULT or ERROR, and changes nothing unless OK |
| `FspServer.HandledMeaning` | fbdd/fsocket/fsp_server.c:114-139 | RESET_ALL empties the registry; INVALID_MODE exactly for an unknown or disabled mode; INVALID_HASH_TYPE exactly for an enabled hashing mode with an unknown type; NOT_FOUND for an unknown fault kind; refusals change nothing |
| `FspServer.HandledAdds` | fbdd/fsocket/fsp_server.c:114-139 | a request with an enabled mode, known hash type and known fault kind is exactly the adder's call with the fault it describes |
| `FspServer.DeviceFaultCoversDevice` | fbdd/fsocket/fsp_server.c:100-112 | on a device below 4 GiB every request that starts inside the device hits a device fault |
| `FspServer.DeviceFaultTruncated` | fbdd/fsocket/fsp_server.c:102 | on a device of 4 GiB plus 4 KiB the size wraps to 4 KiB and a request for the second block misses the device fault |
| `CScanf.InputFailure` | fbdd/fconsole/fconsole.c:29 | running out of input gives EOF only before the first conversion, otherwise the count so far |
| `CScanf.ScanFromCounts` | fbdd/fconsole/fconsole.c:29-35 | no scan converts more than the format asks, and a full scan stores one number per numeric conversion |
| `CScanf.ScanFromWord` | fbdd/fconsole/fconsole.c:35 | the word a `%s` stores is a piece of the input without white space |
| `CScanf.ScanFromStoresWord` | fbdd/fconsole/fconsole.c:35 | a full scan of a format with `%s` stores a non-empty word |
| `CScanf.ScanFromDigits` | fbdd/fconsole/fconsole.c:29-35 | every number stored is an optional sign followed by a non-empty run of digits |
| `CScanf.StepNum` | fbdd/fconsole/fconsole.c:29 | a number printed in decimal and followed by a non-digit is converted whole |
| `CScanf.StepNegativeNum` | fbdd/fconsole/fconsole.c:29 | a number printed with a minus sign and followed by a non-digit is converted whole, to the negated value |
| `CScanf.SignedValueFormat` | fbdd/fconsole/fconsole.c:29 | a number printed in decimal is read back as itself |
| `CScanf.StepNumeral` | fbdd/fconsole/fconsole.c:29 | any optional sign and digit run followed by a non-digit is converted whole and stored as written |
| `CScanf.StepWord` | fbdd/fconsole/fconsole.c:35 | a plain word that ends the input is converted whole |
| `FConsole.ScanInterval` | fbdd/fconsole/fconsole.c:28-31 | an interval written as `(size:offset)` is scanned back as its two numbers, whatever follows |
| `FConsole.OffsetsRoundTrip` | fbdd/fconsole/fconsole.c:28-31 | an interval as a user writes it is read back unchanged |
| `FConsole.OffsetsNeedParenthesis` | fbdd/fconsole/fconsole.c:28-31 | without an opening parenthesis nothing is read: EOF on empty input, no match otherwise |
| `FConsole.OffsetsTimeRoundTrip` | fbdd/fconsole/fconsole.c:82-84 | an interval followed by a delay is read back unchanged |
| `FConsole.ReplicateIsCopies` | fbdd/fconsole/fconsole.c:42-46 | replicating over n bytes gives the whole copies that fit, then a prefix of one more |
| `FConsole.ReplicatePrefix` | fbdd/fconsole/fconsole.c:42-46 | a prefix of a replication is the shorter replication |
| `FConsole.CopyChunk` | fbdd/fconsole/fconsole.c:44 | one `memcpy` places the chunk at its position and keeps the rest of the buffer |
| `FConsole.FillRepeating` | fbdd/fconsole/fconsole.c:92-97 | the copying loop writes the replication of the pattern over the first `size` bytes (none when `size` is not positive) and keeps the rest |
| `FConsole.ScanOffsetsWord` | fbdd/fconsole/fconsole.c:35 | a word scanned by `(%d:%lu)%s` is a plain C string no longer than the argument |
| `FConsole.OffsetsWordRoundTrip` | fbdd/fconsole/fconsole.c:35 | an interval followed by a plain word is read back as both |
| `FConsole.ArgWithOffsets` | fbdd/fconsole/fconsole.c:33-53 | for `(size:offset)word` the word is replicated over `size` bytes, the offset becomes the default and the size is returned; otherwise the argument is copied and its length returned |
| `FConsole.WriteCString` | fbdd/fconsole/fconsole.c:50 | `strcpy` leaves the string and its NUL at the start of the buffer |
| `FConsole.ArgWithOffsetsContent` | fbdd/fconsole/fconsole.c:33-53 | the content an interval argument asks for reaches the buffer as whole copies of the word and a prefix of one more |
| `FConsole.ScanReplicate` | fbdd/fconsole/fconsole.c:89-90 | a word the replicate scan fills in full is a plain C string no longer than the argument |
| `FConsole.ReplicateStallsAsWritten` | fbdd/fconsole/fconsole.c:89-97 | as written `5(7)` with a delay converts only two fields yet is replicated, with an empty pattern on which `i += len` never advances |
| `FConsole.ArgReplicateContent` | fbdd/fconsole/fconsole.c:86-103 | with every conversion required, the word is replicated over `size` bytes and the size returned; otherwise the argument is copied and its length returned |
| `FConsole.ReplicateRoundTrip` | fbdd/fconsole/fconsole.c:89 | a `(size)word` argument is read back as both and taken for replication |
| `FConsole.ArgTrueOrFalse` | fbdd/fconsole/fconsole.c:105-113 | "true" and "false" give their value, anything else the default |
| `FConsoleDevice.AfterWrite` | fbdd/fconsole/fdevice.c:189-205 | a write keeps the cursor mode |
| `FConsoleDevice.AppendReadsLastWrite` | fbdd/fconsole/fdevice.c:189-205 | in APPEND mode a read after a write reads exactly where that write went |
| `FConsoleDevice.AppendWritesFollow` | fbdd/fconsole/fdevice.c:189-205 | in APPEND mode successive writes follow each other modulo 2^64 |
| `FConsoleDevice.PrefixWritesStay` | fbdd/fconsole/fdevice.c:189-205 | in PREFIX mode every write after the first goes to the read position |
| `FConsoleDevice.WriteFlagInverted` | fbdd/fconsole/fdevice.c:227-238 | as written a failed write is recorded as not failed and a complete write as failed |
| `FConsoleDevice.FDevice.constructor` | fbdd/fconsole/fdevice.c:207-215 | both cursors at 0, PREFIX mode, no failure recorded |
| `FConsoleDevice.FDevice.UpdateOffsetLastWrite` | fbdd/fconsole/fdevice.c:189-205 | the cursors move as `AfterWrite` says |
| `FConsoleDevice.FDevice.Open` | fbdd/fconsole/fdevice.c:217-225 | the descriptor becomes `open`'s result, and the process exits exactly when it is -1 |
| `FConsoleDevice.FDevice.Write` | fbdd/fconsole/fdevice.c:227-238 | an invalid descriptor exits before anything changes; otherwise the write goes to the write position, the flag records failure and the cursors move as `AfterWrite` says |
| `FConsoleDevice.FDevice.WriteBlock` | fbdd/fconsole/fdevice.c:240-243 | sets the write position, then writes there |
| `FConsoleDevice.FDevice.Read` | fbdd/fconsole/fdevice.c:245-255 | reads at the read position, the flag records failure, and the cursors stay |
| `FConsoleDevice.FDevice.ReadBlock` | fbdd/fconsole/fdevice.c:261-264 | sets the read position, then reads there |
| `FConsoleDevice.FDevice.SetMode` | fbdd/fconsole/fdevice.c:276-278 | only the mode changes |
| `FConsoleDevice.FDevice.SetOffset` | fbdd/fconsole/fdevice.c:280-282 | only the write position changes |
| `FConsoleDevice.FDevice.SetLastWrite` | fbdd/fconsole/fdevice.c:284-286 | only the read position changes |
| `FConsoleDevice.WriteThenRead` | fbdd/fconsole/fdevice.c:227-264 | an APPEND-mode write followed by a read reads where the write went, and the flag reports the read's outcome |
| `FConsoleDevice.GenNumber` | fbdd/fconsole/fdevice.c:31-33 | the number lies in [min, min + max) |
| `FConsoleDevice.GenStrRandom` | fbdd/fconsole/fdevice.c:22-29 | `len` letters drawn from the alphabet by the random results, then a NUL, the rest kept |
| `FConsoleDevice.WalkFindsFree` | fbdd/fconsole/fdevice.c:35-44 | with a free value in range, the walk ends on a value not yet done |
| `FConsoleDevice.NextOperation` | fbdd/fconsole/fdevice.c:35-44 | the operation chosen is not among the done ones, starting from the drawn number and moving on modulo max |
| `FConsoleDevice.CheckCounter` | fbdd/fconsole/fdevice.c:46-51 | the operation is appended to the done list exactly when its counter reached the threshold |
| `FConsoleDevice.BlockCountTruncated` | fbdd/fconsole/fdevice.c:53-66 | as written the block count of a 16 TiB disk with 4 KiB blocks becomes 0 as an `int` |
| `FConsoleDevice.RandomBlock` | fbdd/fconsole/fdevice.c:53-66 | with the block count kept as 64 bits, the offset is block-aligned and the block lies inside the disk |
| `Fbdd.TransferFrom` | fbdd/fbdd.c:71-92 | the transfer loop fails only with an errno other than EINTR |
| `Fbdd.TransferKeepsEnd` | fbdd/fbdd.c:71-92 | with honest calls the end of the remaining range never moves, and a finished transfer ends at offset + size |
| `Fbdd.TransferRetriesInterrupt` | fbdd/fbdd.c:76-80 | an interrupted call changes nothing |
| `Fbdd.TransferLoop` | fbdd/fbdd.c:71-92 | the loop computes `TransferFrom` |
| `Fbdd.TransferResult` | fbdd/fbdd.c:71-92 | a callback returns 0 exactly when the transfer finished |
| `Fbdd.ReadOffsetTruncated` | fbdd/fbdd.c:98-99 | as written a read at 4 GiB is checked at offset 0, so a fault on the first block fires for it |
| `Fbdd.ReadOffsetMissesHighBlock` | fbdd/fbdd.c:95 | as written a fault on the block at 4 GiB is not seen by a read of that block |
| `Fbdd.CheckBlocksKeepsOtherBytes` | fbdd/fbdd.c:94-108 | faults only touch the first byte of a block |
| `Fbdd.CheckBlocksKeepsValid` | fbdd/fbdd.c:94-108 | the block checks keep the registry's invariant |
| `Fbdd.CheckBlocksWithoutFaults` | fbdd/fbdd.c:94-108 | with no fault registered a request passes through untouched |
| `Fbdd.CheckBlocksStep` | fbdd/fbdd.c:94-108 | one block of the loop is `Injected` on that 4096-byte block |
| `Fbdd.CheckBlocks` | fbdd/fbdd.c:94-108 | each 4096-byte block is checked in turn, stopping at the first medium error, as `CheckBlocksFrom` describes |
| `Fbdd.DeviceRead` | fbdd/fbdd.c:59-118 | a failed transfer returns its errno; otherwise the blocks are checked and ENOMEDIUM is returned on a medium error, else 0 |
| `Fbdd.DeviceWrite` | fbdd/fbdd.c:136-186 | blocks are checked first and a medium error returns ENOMEDIUM before anything is written; otherwise the flipped buffer is written by the transfer loop |
| `Fbdd.Forwarded` | fbdd/fbdd.c:188-307 | a forwarding callback returns 0 exactly when the call succeeded, else a positive errno |
| `Fbdd.RangeCallback` | fbdd/fbdd.c:188-263 | write-zeros, discard and secure erase send the request's own range with their command and fail exactly when the ioctl does |
| `Fbdd.FlushCallback` | fbdd/fbdd.c:209-222 | flush fails exactly when `fdatasync` does |
| `Fbdd.IoctlCallback` | fbdd/fbdd.c:265-307 | only -1 from the underlying ioctl is a failure |
| `Fbdd.ProbeSupport` | fbdd/fbdd.c:334-387 | support exactly on success or EINVAL, no support exactly on EOPNOTSUPP, any other error fails |
| `Fbdd.DeviceAttrs` | fbdd/fbdd.c:309-315 | one callback at a time, daemonising as asked |
| `Fbdd.ConfigureDevice` | fbdd/fbdd.c:389-420 | succeeds exactly when both probes and the three size queries do, and then mirrors them |
| `Fbdd.Initialize` | fbdd/fbdd.c:45-57 | records the device's path, index, size and logical block size, and succeeds |
| `Fbdd.SetHashTypeSwapsMurmur` | fbdd/fbdd.c:436 | as written "MURMUR_x86_128" is rejected and any other unknown name selects MurmurHash |
| `Fbdd.SetHashType` | fbdd/fbdd.c:430-441 | a chosen hash type is the one the argument names |
| `Fbdd.SetHashTypeByName` | fbdd/fbdd.c:430-441 | each hash type is selected by its own name |
| `Fbdd.ParseFromFails` | fbdd/fbdd.c:451-484 | the option loop stops exactly when some option is not recognised |
| `Fbdd.ParseFromHashMode` | fbdd/fbdd.c:459-462 | hash mode is on exactly when some option is `-h` |
| `Fbdd.ParseFromDedupMode` | fbdd/fbdd.c:463-466 | dedup mode is on exactly when some option is `-d` |
| `Fbdd.ParseFromInvalid` | fbdd/fbdd.c:459-466 | with the corrected hash choice, the options are invalid exactly when some `-h` or `-d` names an unknown hash type |
| `Fbdd.ParseFromUnderlying` | fbdd/fbdd.c:453-455 | the underlying device is that of the last `-u` |
| `Fbdd.ParseFromKeepsUnderlying` | fbdd/fbdd.c:453-455 | without `-u` the underlying device is unchanged |
| `Fbdd.ParseOptions` | fbdd/fbdd.c:451-484 | the loop applies `ParseFrom` to the device's settings and hash type |
| `Fbdd.ExitCode` | fbdd/fbdd.c:473-552 | 2 for an unparsable command line or a missing underlying device, 0 for invalid options, 3 when both dedup and hash modes are on, 1 when opening or configuring fails, otherwise 0 exactly when the run succeeds |
| `Fbdd.FbddMain` | fbdd/fbdd.c:443-555 | starting from a device whose hash type is whatever malloc left, the exit code is `ExitCode` of the parsed options, the open descriptor, the configuration and the run |
| `FConsole.OffsetsFromArg` | fbdd/fconsole/fconsole.c:28-31 | an interval exactly when `(%d:%lu)` converts both numbers, the size truncated to 32 bits and the offset to 64 (its meaning is stated by `FConsole.ScanInterval` and `FConsole.OffsetsNegativeSize`) |
| `FConsole.OffsetsNegativeSize` | fbdd/fconsole/fconsole.c:28-31 | a size written with a minus sign is accepted and stored as its 32-bit two's-complement value |
| `FConsole.Replicate` | fbdd/fconsole/fconsole.c:40-46 | the replicated bytes number exactly as many as asked for, each a copy of the pattern byte at that position modulo the pattern's length |
| `FConsole.OffsetSpanAsWritten` | fbdd/fconsole/fconsole.c:42 | the bytes the copy loop covers as written, for a counter started at the offset converted to `int` and never overflowing: none exactly when the 64-bit end is not above the sign-extended start |
| `FConsole.OffsetSpanBelow2to31` | fbdd/fconsole/fconsole.c:42 | for an interval ending below 2^31 the loop as written covers exactly `size` bytes |
| `FConsole.OffsetSpanNegative` | fbdd/fconsole/fconsole.c:42 | for an offset in 2^31..2^32 the counter starts negative, widens to a value above the end, and the loop covers nothing |
| `FConsole.OffsetCounterSkipsCopy` | fbdd/fconsole/fconsole.c:33-53 | `(4096:3221225472)abc` and every such argument scans in full and asks for `size` bytes, yet the loop as written copies none |
| `FConsole.OffsetCounterWraps` | fbdd/fconsole/fconsole.c:42 | for an offset in 2^32..2^32+2^31 the counter starts at the offset's low bits, so the bound as written is `size + 2^32` steps away for a counter that never overflows (in C, `i += len` overflows INT_MAX before, which is undefined) |
| `FConsole.PatternAsWritten` | fbdd/fconsole/fconsole.c:89-92 | the pattern replicated as written: the scanned word when the branch is taken, else the C string already in the buffer (used by `FConsole.ReplicateStallsAsWritten`) |
| `FConsoleDevice.WriteFlagAsWritten` | fbdd/fconsole/fdevice.c:231-236 | the flag `f_write` stores as written: set exactly when the write returned a non-negative count (shown inverted by `FConsoleDevice.WriteFlagInverted`) |
| `FConsoleDevice.BlockCountAsWritten` | fbdd/fconsole/fdevice.c:53-55 | the block count passed to `gen_number` as written, the low 32 bits read as a signed `int` (see `FConsoleDevice.BlockCountTruncated`) |
| `Fbdd.SetHashTypeAsWritten` | fbdd/fbdd.c:430-440 | the hash choice as written: MD5 and XXH3_128 by name, every other name but MURMUR_x86_128 selects MurmurHash, which alone is rejected (see `Fbdd.SetHashTypeSwapsMurmur`) |
| `Fbdd.ReadBlockOffsetAsWritten` | fbdd/fbdd.c:98-99 | the offset the read path checks as written: offset plus index modulo 2^32 (see `Fbdd.ReadOffsetTruncated`) |
| DedupDegree.InvSorted | dedisbench-private/benchcore/faults/dedupDegree.c:94-191 | the bucket invariant kept by the counter array implies its slots are ordered by non-increasing counter |
| DedupDegree.OwnBucket | dedisbench-private/benchcore/faults/dedupDegree.c:102-118 | the bucket of a slot's counter is non-empty, contains the slot, and its first slot is found in the key map, which the scan of incr_element relies on |
| DedupDegree.NextBucketMeetsOwn | dedisbench-private/benchcore/faults/dedupDegree.c:170-188 | the bucket one counter up ends exactly where the bumped slot's bucket starts, so the promoted slot can join it at its end |
| DedupDegree.TopBucketStartsAtZero | dedisbench-private/benchcore/faults/dedupDegree.c:172-175 | when the bumped slot holds the largest counter its bucket starts at slot 0, so the new top bucket is Bucket(0, 1) |
| DedupDegree.PromotedParts | dedisbench-private/benchcore/faults/dedupDegree.c:94-191 | the promotion swaps slot p with the first slot q of its bucket, exchanges their map entries and shrinks that bucket from the front |
| DedupDegree.SwapOfBumped | dedisbench-private/benchcore/faults/dedupDegree.c:66-79 | bumping slot p and then exchanging the contents of slots p and q is the same as the promoted array Raised |
| DedupDegree.AppendKeepsHigherBucket | dedisbench-private/benchcore/faults/dedupDegree.c:193-200 | appending a slot with counter 1 leaves every bucket of counter 2 or more correct |
| DedupDegree.AppendExtendsFirstBucket | dedisbench-private/benchcore/faults/dedupDegree.c:198-201 | the bucket of counter 1 ends at the end of the array, so the appended slot grows it by one |
| DedupDegree.AddedKeepsInv | dedisbench-private/benchcore/faults/dedupDegree.c:193-206 | adding a key not seen before keeps the bucket and key-map invariant |
| DedupDegree.AddedCounts | dedisbench-private/benchcore/faults/dedupDegree.c:193-206 | adding a new key counts it once and leaves every other key's count unchanged |
| DedupDegree.RaisedCounters | dedisbench-private/benchcore/faults/dedupDegree.c:97-118 | after the bump and swap only slot q's counter changes, and it goes up by one |
| DedupDegree.OtherBucketAfterRaise | dedisbench-private/benchcore/faults/dedupDegree.c:94-191 | buckets of counters other than c and c+1 are not affected by the promotion |
| DedupDegree.LowerBucketAfterRaise | dedisbench-private/benchcore/faults/dedupDegree.c:118-119 | the bucket the promoted slot leaves loses its first slot (index+1, size-1) |
| DedupDegree.UpperBucketAfterRaise | dedisbench-private/benchcore/faults/dedupDegree.c:181-188 | the bucket the promoted slot joins gains it as its last slot |
| DedupDegree.NewTopBucketAfterRaise | dedisbench-private/benchcore/faults/dedupDegree.c:172-175 | when no counter exceeded c, slot 0 alone holds counter c+1 after the promotion |
| DedupDegree.SwapKeepsIndex | dedisbench-private/benchcore/faults/dedupDegree.c:66-79 | exchanging two slots and their map entries keeps every key mapped to its own slot |
| DedupDegree.PromotedKeepsInv | dedisbench-private/benchcore/faults/dedupDegree.c:94-191 | incr_element (with the corrected bucket growth) keeps the bucket and key-map invariant |
| DedupDegree.PromotedCounts | dedisbench-private/benchcore/faults/dedupDegree.c:94-191 | incr_element adds one to the bumped key's count and to no other key |
| DedupDegree.SwapCounts | dedisbench-private/benchcore/faults/dedupDegree.c:112-117 | swapping the bumped slot with another of the same counter moves no count except the bump |
| DedupDegree.SortedCounterArray.constructor | dedisbench-private/benchcore/faults/dedupDegree.c:56-64 | a new counter array has no slots, an empty key map and one empty bucket for counter 1 at slot 0 |
| DedupDegree.SortedCounterArray.Swap2 | dedisbench-private/benchcore/faults/dedupDegree.c:66-79 | two slots exchange their counter and element, and the two map entries exchange their slot numbers; buckets stay |
| DedupDegree.SortedCounterArray.AddElement | dedisbench-private/benchcore/faults/dedupDegree.c:193-206 | the new key is appended with counter 1, the invariant is kept and its count becomes 1 |
| DedupDegree.SortedCounterArray.SwapToBucketFront | dedisbench-private/benchcore/faults/dedupDegree.c:102-121 | the scan finds the bumped slot's own bucket, swaps the slot with its first slot q and shrinks that bucket from the front |
| DedupDegree.SortedCounterArray.GrowBucketAbove | dedisbench-private/benchcore/faults/dedupDegree.c:170-188 | a new bucket Bucket(0, 1) is opened when c was the largest counter, otherwise the bucket above grows by the promoted slot |
| DedupDegree.SortedCounterArray.IncrElement | dedisbench-private/benchcore/faults/dedupDegree.c:94-191 | the new state is the promotion of slot p given by Promoted, whose invariant and counts are proved above |
| DedupDegree.SortedCounterArray.Incr | dedisbench-private/benchcore/faults/dedupDegree.c:208-217 | a sighting of a key adds one to its count and nothing else, keeps the invariant, and appends a new key with counter 1 |
| DedupDegree.NewTopBucketOverCounted | dedisbench-private/benchcore/faults/dedupDegree.c:172-188 | with two keys seen once and the second seen again, the code as written sizes the new top bucket 2 and breaks the invariant; the corrected promotion sizes it 1 |
| DedupDegree.NthMoreAsWritten | dedisbench-private/benchcore/faults/dedupDegree.c:316-324 | the selector as written returns only elements of the array, and nothing when it would read past the end |
| DedupDegree.NthMore | dedisbench-private/benchcore/faults/dedupDegree.c:316-324 | an element exists iff the array is non-empty, and it is the one at nth clamped to the last slot |
| DedupDegree.NthLessAsWritten | dedisbench-private/benchcore/faults/dedupDegree.c:330-339 | the selector as written returns only elements of the array, and nothing when it would read past the end |
| DedupDegree.NthLess | dedisbench-private/benchcore/faults/dedupDegree.c:330-339 | an element exists iff the array is non-empty, and it is the one nth slots from the end, nth out of range counting as 0 |
| DedupDegree.SelectorsAgreeInRange | dedisbench-private/benchcore/faults/dedupDegree.c:316-339 | for nth below the length the as-written selectors and the corrected ones agree |
| DedupDegree.SelectorsReadPastEnd | dedisbench-private/benchcore/faults/dedupDegree.c:319-336 | on one slot with nth = 1 both selectors as written read past the end, the corrected ones return the element |
| DedupDegree.MostAndLeastDuplicated | dedisbench-private/benchcore/faults/dedupDegree.c:326-343 | get_nth_most_duplicate returns a key with the largest count and get_nth_least_duplicate one with the smallest |
| DedupDegree.NthMoreRank | dedisbench-private/benchcore/faults/dedupDegree.c:316-324 | the n-th more duplicated element has no larger count after it and no smaller count before it |
| DedupDegree.NthUnique | dedisbench-private/benchcore/faults/dedupDegree.c:345-347 | an element exists iff nth is below the number of unique writes, and it is one of them |
| DedupDegree.DedupTracker.constructor | dedisbench-private/benchcore/faults/dedupDegree.c:223-235 | four fresh, empty counter arrays and two empty unique lists |
| DedupDegree.DedupTracker.AddOffsetWrite | dedisbench-private/benchcore/faults/dedupDegree.c:280-285 | the count of writes at this offset goes up by one, every other stays |
| DedupDegree.DedupTracker.AddOffsetRead | dedisbench-private/benchcore/faults/dedupDegree.c:287-292 | the count of reads at this offset goes up by one, every other stays |
| DedupDegree.DedupTracker.AddBlockInfoWrite | dedisbench-private/benchcore/faults/dedupDegree.c:294-303 | a block with procid >= 0 is appended to the unique writes, any other is counted by content id; nothing else changes |
| DedupDegree.DedupTracker.AddBlockInfoRead | dedisbench-private/benchcore/faults/dedupDegree.c:305-314 | the same split for reads; nothing else changes |
| DedupDegree.Added | dedisbench-private/benchcore/faults/dedupDegree.c:193-206 | a new key gets a slot with counter 1 at the end, bucket 0 grows by one and the key maps to the new slot (kept invariant by `DedupDegree.AddedKeepsInv`) |
| DedupDegree.Raised | dedisbench-private/benchcore/faults/dedupDegree.c:97-117 | the bumped slot p trades places with the first slot q of its bucket and carries its counter plus one |
| DedupDegree.Grown | dedisbench-private/benchcore/faults/dedupDegree.c:179-188 | the next bucket, opened at q with one slot when empty and otherwise one larger |
| DedupDegree.Promoted | dedisbench-private/benchcore/faults/dedupDegree.c:94-191 | incr_element with the corrected growth of a new top bucket: the swap, the shrunken own bucket, the grown or opened next bucket and the two keys remapped (kept invariant by `DedupDegree.PromotedKeepsInv`) |
| DedupDegree.PromotedAsWritten | dedisbench-private/benchcore/faults/dedupDegree.c:172-188 | the same step as written: a new top bucket records two slots for one (see `DedupDegree.NewTopBucketOverCounted`) |
| ConfigParserYaml.Reset | dedisbench/benchcore/faults/configParserYaml.c:17-27 | hash mode, every numeric field -1 (when as the unsigned 64-bit maximum), no extra, persistent carried over |
| ConfigParserYaml.Validate | dedisbench/benchcore/faults/configParserYaml.c:29-37 | a time extra without a delay gets the default delay and nothing else changes; valid iff operation, target, fault type and measure are all set |
| ConfigParserYaml.ResetIsInvalid | dedisbench/benchcore/faults/configParserYaml.c:17-37 | a freshly reset configuration never validates |
| ConfigParserYaml.WithAttribute | dedisbench/benchcore/faults/configParserYaml.c:88-168 | each attribute key sets its own field (when and measure only from when_operation/when_time, the delay from delay, persistence from persistent/transient); unknown keys and values change nothing |
| ConfigParserYaml.PersistentTransientOpposite | dedisbench/benchcore/faults/configParserYaml.c:138-153 | persistent: v and transient: v set opposite persistence for v = yes or no |
| ConfigParserYaml.StackDefault | dedisbench/benchcore/faults/configParserYaml.c:308-358 | one stacked key never changes when, measure, process or delay |
| ConfigParserYaml.ApplyStackKeepsTiming | dedisbench/benchcore/faults/configParserYaml.c:308-359 | the whole key stack never changes when, measure, process or delay |
| ConfigParserYaml.StackOnlyIsInvalid | dedisbench/benchcore/faults/configParserYaml.c:298-361 | an entry seeded only from the stacked keys never validates, since nothing gives it a when |
| ConfigParserYaml.NextProcidOf | dedisbench/benchcore/faults/configParserYaml.c:292-296 | the next process is current+1 wrapping at nprocs, always in range, and 0 when there are no processes |
| ConfigParserYaml.RoundRobinFirstRound | dedisbench/benchcore/faults/configParserYaml.c:292-305 | in the first round the k-th fault entry goes to process k |
| ConfigParserYaml.RoundRobinPeriodic | dedisbench/benchcore/faults/configParserYaml.c:292-305 | fault entries are dealt to the processes with period nprocs |
| ConfigParserYaml.CompareWhen | dedisbench/benchcore/faults/configParserYaml.c:82-86 | the corrected comparison is negative iff the first when is smaller and zero iff they are equal |
| ConfigParserYaml.CompareWhenMisorders | dedisbench/benchcore/faults/configParserYaml.c:82-86 | for whens 2^31 apart the comparison as written says the larger is smaller; the corrected one does not |
| ConfigParserYaml.ConsSorted | dedisbench/benchcore/faults/configParserYaml.c:371-372 | a fault firing no later than every fault of an ordered list heads an ordered list |
| ConfigParserYaml.InsertByWhen | dedisbench/benchcore/faults/configParserYaml.c:371-372 | inserting into a list ordered by when keeps it ordered and adds exactly that fault |
| ConfigParserYaml.SortByWhen | dedisbench/benchcore/faults/configParserYaml.c:371-372 | sorting gives the same faults (as a multiset) ordered by when |
| ConfigParserYaml.FileConf | dedisbench/benchcore/faults/configParserYaml.c:247-254 | a configuration is appended to the by-operation list, the by-time list or to neither, by its measure |
| ConfigParserYaml.SortLists | dedisbench/benchcore/faults/configParserYaml.c:369-373 | both lists of a process come out ordered by when with the same faults |
| ConfigParserYaml.Metadata.constructor | dedisbench/benchcore/faults/configParserYaml.c:55-79 | nprocs pairs of empty lists, an empty key stack and process 0 |
| ConfigParserYaml.Metadata.ClearState | dedisbench/benchcore/faults/configParserYaml.c:55-66 | every flag cleared, no last key, empty stack, process 0 and the current fault reset |
| ConfigParserYaml.Metadata.Init | dedisbench/benchcore/faults/configParserYaml.c:55-79 | the corrected init leaves one pair of empty lists per process together with the cleared state |
| ConfigParserYaml.Metadata.InitAsWritten | dedisbench/benchcore/faults/configParserYaml.c:66-78 | the array re-created inside the loop leaves a single pair of lists for any positive process count |
| ConfigParserYaml.Metadata.SetIsKey | dedisbench/benchcore/faults/configParserYaml.c:228-235 | only the key/value flag changes |
| ConfigParserYaml.Metadata.NextProcid | dedisbench/benchcore/faults/configParserYaml.c:292-296 | the current process advances as NextProcidOf says and is returned |
| ConfigParserYaml.Metadata.HandleScalarToken | dedisbench/benchcore/faults/configParserYaml.c:170-226 | a key is remembered; outside the fault sequence faults opens it, length_faults is skipped, other keys are pushed or end the program when the stack is full, and avoid_repeatable_faults sets its flag; inside the sequence a value is an attribute of the current fault |
| ConfigParserYaml.Metadata.HandleBlockEnd | dedisbench/benchcore/faults/configParserYaml.c:237-268 | a fault entry's end validates and files its configuration under the current process; otherwise the stack is popped (leaving the sequence when it empties) or the faults scalar is left |
| ConfigParserYaml.Metadata.HandleBlockSequence | dedisbench/benchcore/faults/configParserYaml.c:270-273 | a block sequence under the faults key starts the fault sequence |
| ConfigParserYaml.Metadata.HandleBlockEntry | dedisbench/benchcore/faults/configParserYaml.c:298-361 | an entry of the fault sequence starts a reset configuration for the next process seeded from the key stack; outside the sequence nothing but the flag changes |
| ConfigParserYaml.Metadata.EndFaultConf | dedisbench/benchcore/faults/configParserYaml.c:364-401 | every process's lists are sorted by when and handed with nprocs and the avoid-repeat flag to the fault runtime, in the shape it needs |
| ConfigParserYaml.InitAsWrittenFilesOutOfRange | dedisbench/benchcore/faults/configParserYaml.c:55-79 | with two or more processes the first entry goes to process 1, past the single list the as-written init leaves |
| ConfigParserYaml.ParseFaultsConfiguration | dedisbench/benchcore/faults/configParserYaml.c:405-451 | tokens go to their handlers; a finished parse met the stream end and produced a ready plan, and an early exit happened on a scalar |
| ConfigParserYaml.ApplyStack | dedisbench/benchcore/faults/configParserYaml.c:308-359 | the defaults of the whole key stack applied bottom to top, so deeper keys win (timing kept by `ConfigParserYaml.ApplyStackKeepsTiming`) |
| ConfigParserYaml.CompareWhenAsWritten | dedisbench/benchcore/faults/configParserYaml.c:82-86 | the comparison as written: the low 32 bits of the 64-bit difference, read as signed (see `ConfigParserYaml.CompareWhenMisorders`) |
| DedisFault.NextConf | dedisbench-private/benchcore/faults/fault.c:238-276 | while time faults remain the next one is returned once the elapsed time reaches its when, after them the next operation fault once the operation count reaches its when; only the cursor of the list used advances, and nothing changes when none is due |
| DedisFault.NextConfDelivers | dedisbench-private/benchcore/faults/fault.c:238-276 | the cursors never move back and each call hands out at most the fault right after those already handed out, so none is returned twice |
| DedisFault.Run | dedisbench-private/benchcore/faults/fault.c:238-276 | a run of calls keeps the cursors within the lists and the lists themselves unchanged |
| DedisFault.RunDelivers | dedisbench-private/benchcore/faults/fault.c:238-276 | a run hands out exactly the faults its cursors pass over |
| DedisFault.RunFromStartIsPrefix | dedisbench-private/benchcore/faults/fault.c:238-276 | from fresh cursors the faults returned are a prefix of the time faults followed by the operation faults, each at most once |
| DedisFault.FaultRuntime.constructor | dedisbench/benchcore/faults/configParserYaml.c:364-383 | the runtime holds the parsed per-process lists, the process count and the avoid-repeat flag, with no unique fault injected yet |
| DedisFault.NextFaultConf | dedisbench-private/benchcore/faults/fault.c:238-262 | nothing without a runtime; otherwise the result and the process's new cursors are those of NextConf and nothing else changes |
| DedisFault.GetNextBlock | dedisbench-private/benchcore/faults/fault.c:312-317 | nothing without a runtime |
| DedisFault.GetLastBlock | dedisbench-private/benchcore/faults/fault.c:320-325 | nothing without a runtime |
| DedisFault.SetBlockInfo | dedisbench-private/benchcore/faults/fault.c:304-309 | the latest block becomes the last one and bi the latest; the fault lists and counters do not change |
| DedisFault.InfoOf | dedisbench-private/benchcore/faults/dedupDegree.c:316-324 | the block information of a selected slot exists exactly when the slot holds a block |
| DedisFault.FirstFresh | dedisbench-private/benchcore/faults/fault.c:49-61 | the first rank from the most duplicated down whose content has no fault yet, every rank before it having one, or the length when all have one |
| DedisFault.TopDuplicate | dedisbench-private/benchcore/faults/fault.c:47-66 | without avoid-repeat the most duplicated block; with it the block at the first rank whose content has no fault yet |
| DedisFault.TopDuplicateAvoidsRepeats | dedisbench-private/benchcore/faults/fault.c:49-61 | with avoid-repeat a block whose content already has a fault is chosen only when every block has one |
| DedisFault.UniqueIndex | dedisbench-private/benchcore/faults/fault.c:72-79 | the corrected choice is always in range and is the next unused unique block while one remains |
| DedisFault.UniqueIndexReadsPastEnd | dedisbench-private/benchcore/faults/fault.c:73-76 | once every unique block has had a fault the choice as written reads past the end; the corrected one takes the first block |
| DedisFault.UniqueBlocksTakenInOrder | dedisbench-private/benchcore/faults/fault.c:72-80 | the first UNIQUE faults take the unique blocks in order, each once |
| DedisFault.NextFailure | dedisbench-private/benchcore/faults/fault.c:32-89 | DIST_GEN takes the process's last block, NEXT_GEN its latest, TOP_DUP and BOT_DUP the most and least duplicated, UNIQUE the next unique block and counts it; any other distribution exits |
| DedisFault.RequestFor | dedisbench-private/benchcore/faults/fault.c:104-132 | hash, block and dedup modes give a request with the fault's operation, type, persistence and block size, XXH3-128 hashing except by offset, and the delay as extra for a slow disk; the device and unknown modes give none |
| DedisFault.FaultStatistics.constructor | dedisbench-private/benchcore/faults/fault.c:28-30 | zero counters and no injected content |
| DedisFault.FaultStatistics.Record | dedisbench-private/benchcore/faults/fault.c:136-144 | a positive answer other than a duplicate records the content id and counts an injected fault, a duplicate counts an ignored fault, an error counts nothing |
| DedisFault.InjectFault | dedisbench-private/benchcore/faults/fault.c:91-151 | exits exactly for an unknown distribution; otherwise picks the block by the distribution's rule, sends exactly `RequestFor` of it, and on a positive answer adds that block to the injected set (or counts a duplicate), leaving everything unchanged when no request is sent or the answer is not positive |
| DedisFault.Pieces | dedisbench-private/benchcore/faults/fault.c:155-227 | at least one piece and no piece holds the separator |
| DedisFault.PiecesCount | dedisbench-private/benchcore/faults/fault.c:160-168 | a string has one more piece than separators |
| DedisFault.NonEmpty | dedisbench-private/benchcore/faults/fault.c:172-222 | the non-empty pieces, no more than the pieces |
| DedisFault.Tokens | dedisbench-private/benchcore/faults/fault.c:172-222 | strtok yields at most commas+1 tokens, each non-empty and without a comma |
| DedisFault.CountFaults | dedisbench-private/benchcore/faults/fault.c:160-168 | the count is the number of commas plus one, the number of pieces |
| DedisFault.Put | dedisbench-private/benchcore/faults/fault.c:189-199 | a write into a field buffer never grows it by more than one character |
| DedisFault.StepsAppend | dedisbench-private/benchcore/faults/fault.c:184-202 | reading two strings in a row is reading their concatenation |
| DedisFault.StepsField | dedisbench-private/benchcore/faults/fault.c:184-202 | a field without ':' read into an empty buffer fills exactly that buffer and no other field |
| DedisFault.FieldsOfThree | dedisbench-private/benchcore/faults/fault.c:184-202 | type:target:when splits into its three parts |
| DedisFault.TargetLeaksIntoWhen | dedisbench-private/benchcore/faults/fault.c:193-197 | as written the missing break lets a target longer than when leak its tail into when, so 1:25:3 fires at 35; with the break it fires at 3 |
| DedisFault.LeakPrefix | dedisbench-private/benchcore/faults/fault.c:193-197 | as written after 1:25: the when buffer already holds the target's 25 |
| DedisFault.LeakTarget | dedisbench-private/benchcore/faults/fault.c:193-197 | as written the target 25 goes into both the target and the when buffers |
| DedisFault.LeakTargetStart | dedisbench-private/benchcore/faults/fault.c:193-197 | the target's first digit lands in both buffers |
| DedisFault.LeakType | dedisbench-private/benchcore/faults/fault.c:189-192 | the type 1 and its separator fill only the type buffer |
| DedisFault.StepsSnoc | dedisbench-private/benchcore/faults/fault.c:184-202 | reading one more character is one more step of the loop |
| DedisFault.SplitFields | dedisbench-private/benchcore/faults/fault.c:184-202 | the character loop with the break after the target case yields the type, target and when of FieldsOf |
| DedisFault.ParseFaultFormatted | dedisbench-private/benchcore/faults/fault.c:204-216 | a fault written in decimal as type:target:when with a non-zero when, and not DIST_GEN in a read test, reads back as itself |
| DedisFault.ParseFaultOfFields | dedisbench-private/benchcore/faults/fault.c:204-216 | a token's checks and conversions depend only on its three fields |
| DedisFault.DigitsHaveNoColon | dedisbench-private/benchcore/faults/fault.c:184-202 | a decimal number holds no field separator |
| DedisFault.SplitOne | dedisbench-private/benchcore/faults/fault.c:177-220 | one turn of the token loop reads the fields, refuses a zero when and DIST_GEN in a read test, and converts the fields, as ParseFault says |
| DedisFault.ParseWithAccepts | dedisbench-private/benchcore/faults/fault.c:175-222 | an accepted list has one parsed fault per token, each the token's own |
| DedisFault.ParseWithRefuses | dedisbench-private/benchcore/faults/fault.c:175-222 | a list is refused iff one of its tokens is |
| DedisFault.ParseAllAccepts | dedisbench-private/benchcore/faults/fault.c:175-222 | the whole fault list is accepted only with every fault parsed in its place |
| DedisFault.ParseAllRefuses | dedisbench-private/benchcore/faults/fault.c:204-212 | the fault list is refused exactly when one of its faults is |
| DedisFault.ParseAllFrom | dedisbench-private/benchcore/faults/fault.c:175-222 | the list from position i is its first fault followed by the rest |
| DedisFault.PrefixedTwice | dedisbench-private/benchcore/faults/fault.c:214-220 | adding faults in front one at a time or together gives the same list |
| DedisFault.PrefixedNothing | dedisbench-private/benchcore/faults/fault.c:214-220 | adding no fault in front changes nothing |
| DedisFault.SplitAll | dedisbench-private/benchcore/faults/fault.c:172-222 | the token loop fails exactly when one fault is refused, and otherwise fills the faults ParseAll gives |
| DedisFault.FaultSplit | dedisbench-private/benchcore/faults/fault.c:155-227 | -1 exactly when one fault is refused; otherwise the count of commas plus one, with the parsed faults |
| DedisFault.UniqueIndexAsWritten | dedisbench-private/benchcore/faults/fault.c:72-76 | the unique block chosen as written: the next one while `len >= nunique`, which reaches `len` (see `DedisFault.UniqueIndexReadsPastEnd`) |
| DedisFault.FieldsAsWritten | dedisbench-private/benchcore/faults/fault.c:184-202 | the three fields as written, with the target case falling through into `when` (see `DedisFault.TargetLeaksIntoWhen`) |
| RamDrivers.RamDisk.constructor | bdus-master/examples/ram.c:20-29 | the contents buffer has the device's size in bytes, with unspecified initial bytes given as a parameter |
| RamDrivers.RamDisk.CopyIn | bdus-master/examples/ram.c:62 | the store becomes the old contents with the first n bytes of the buffer copied in at the offset |
| FbdStructs.FbdDevice.InjectHit | fbdd/fbd_structs.c:582-630 | once the request's first hit is range i, the registry, status, delays and data are those of Injected, and the invariants are kept |
| FspServer.AddedKeepsBlockOnly | fbdd/fsocket/fsp_server.c:45-58 | adding faults by block interval keeps every range of the registry keyed by a block interval |
| `DocsConf.ExtractVersion` | bdus/docs/conf.py:21-22 | the unpacking of the matches: the version when exactly one Makefile line matches, an error for none or several (stated by `DocsConf.ExtractVersionExact`) |
| `LibRwBackend.Serve` | bdus/libbdus/src/backends/rw.c:228-278 | the service loop over its rounds: the status it ends with and the replies written up to then (unfolded by `LibRwBackend.ServeUnfold`) |

## Left out

### Environment, concurrency and output

- Kernel plumbing. The model leaves out blk-mq tag sets and queues, gendisks, kthreads, `bdget`/flush, the debugfs branch of `find_unused_index_`, the LIFO completion hack in kbdus's `utilities.c`, and module registration in `main.c`. These are kernel glue with no local logic.
- Concurrency. Spinlocks, mutexes, completions and wait queues are dropped. Each locked section is one atomic method. A blocking wait becomes the state in which it ends. The wake-ups themselves are not modelled.
- kbdus allocation failures. The ENOMEM paths of device and instance creation are not modelled, and neither is index allocation through the kernel's idr. Where a failure changes the outcome, it is a parameter.
- kbdus composition. The inverter is not composed into the device model: the value it returns is a parameter of the device's ioctl. The device's ioctl semaphore is not counted.
- kbdus's `protocols/ioctl.c` and `protocols/rw.c`. They copy bio segments to and from user memory through kernel iterators. This is foreign code with little local logic.
- libbdus system calls. The model leaves out open/ioctl retry wrappers, fork and modprobe, daemonisation, `posix_memalign`/`mmap`, and pthread create/join. Their outcomes are parameters, and thread i's exchanges are a sequence given to its service loop.
- Driver callbacks. The value a callback returns is a parameter.
- fbdd's socket. The client, the accept/recv loop and the server thread's lock are not modelled. Each request is handled as one call, and the fault server's answer to DEDISbench is a parameter of `DedisFault.InjectFault`.
- Hashing. MD5, XXH3-128 and MurmurHash are not modelled. A digest is an opaque byte sequence compared by equality, and the digest of a block is a parameter.
- File and device I/O. `pread`, `pwrite`, `open`, `ioctl`, `fdatasync`, `readv` and `writev` are represented by the results they return. The fbdd sweeper, populate and pidstat tools, and the loop test driver, are not part of this model.
- Sleeping. `nanosleep`'s retries in `msleep` are a sequence of outcomes given as a parameter. The delay itself and `usleep` in the test drivers are not modelled.
- Randomness. `rand()` in fdevice.c is a parameter in 0..RAND_MAX, and DEDISbench's `genrand` is not modelled. `define_failure_per_process` (fault.c:230-236) is left out because it only draws random process ids.
- Containers and parsers. The libyaml tokenizer is an input sequence of tokens. GLib arrays, lists and hash tables are sequences and maps. `get_block_content` is not part of this model: a block is identified by its `BlockInfo`.
- Output. All printing and logging is left out, including `fbd_print_*`, `fsp_print_*`, `print_fault_*`, `dedup_degree_print_*` and libbdus's error messages beyond the errno they set.
- Memory allocation failure. `malloc`/`strdup` failures in fbdd and DEDISbench are not modelled, except where the source checks them. The RAM drivers' ENOMEM and exit status 1 are modelled.

### Integer widths

- KbdusInverter: seqnums are unbounded naturals. A 64-bit seqnum would need 2^64 uses of one slot to wrap.
- KbdusControl: `next_seqnum` is likewise an unbounded natural.
- ConfigParserYaml.WithAttribute: `atoi` on an out-of-range number is undefined in C. The model reads the whole digit run and then reduces it modulo 2^64 or 2^32 at the assignment.
- DedisFault.FaultSplit: the same applies to `atoi` on the three fields.
- DedisFault.NextFailure: `nunique_injected` is an unbounded natural. Its `int` overflow after 2^31 unique faults is not modelled.

### Behaviour outside the model

- ConfigParserYaml.Metadata.HandleScalarToken: the source dereferences a NULL `last_key` when a value comes before any key. The model ignores such a value.
- ConfigParserYaml.Reset: `persistent` carries over from the previous configuration. The first configuration's `persistent` field is uninitialised in C and is a parameter here.
- DedisFault.FaultRuntime.constructor: the per-process last and next blocks are uninitialised in C and start as none here.
- DedisFault.SplitFields: the source's 20-byte field buffers are uninitialised and never NUL-terminated. The model reads them as zero-filled, and it treats a field longer than 20 characters as growing its buffer rather than overrunning it.
- DedisFault.FaultSplit: `readTest` stands for `conf->iotype == READ`.
- DedisFault.TopDuplicate: the avoid-repeat scan uses the corrected selector `NthMore`. As written, the scan can ask for rank `len`, which reads past the end (see Findings).
- `faults_info` is folded into `DedisFault.FaultRuntime`, so a missing `faults_info` and a missing runtime are the same `null`.
- FbdStructs: a range whose mode is none of block, hash or dedup cannot be built, because the key is a datatype with three variants. So the FBD_STS_WRONG_MODE branch of the injection scan is unreachable in the model.
- FbdStructs.FbdDevice.CheckAndInject: the flipped block is written back with `pwrite` in the source. The model leaves that write out.
- LibBdus.IndexToPath: the EIO branch for a non-positive `snprintf` result is left out because it is unreachable: the path has at least 11 characters.
- KbdusDevice: `PAGE_SIZE` is fixed at 4096, and the block-device major number is a parameter.
- DedisFault.FaultStatistics.Record: the source adds the pointer `&(*bl)->cont_id` to the injected set (fault.c:139). For the last-block and next-block distributions that pointer points into the per-process `last_block`/`next_block` slots (fault.c:314, 322), which the next `finfo_set_block_info` overwrites (fault.c:306-307), so a stored key later reads as another block's content id. The model keys the set by the content id as a value, so it captures neither that aliasing nor the membership answers it changes.
- DedisFault.TopDuplicate: its avoid-repeat scan asks the same pointer-keyed set (fault.c:53, 59), so its answers inherit the aliasing above. The model asks the value-keyed set.
- DocsConf.ExtractVersionExact: `\d` is taken as the ASCII digits. Python's `\d` on a `str` also matches the other Unicode decimal digits, which the model does not accept.
- CScanf.ScanFromDigits: a sign that is not followed by a digit ends the scan as a matching failure and stores nothing. When that sign is the last character of the input and nothing was converted before it, C may report an input failure (EOF) instead of 0. The callers test only for a full count, so the difference does not reach them.
- FConsoleDevice.GenStrRandom: requires `len < s.Length`, so that the NUL after the letters fits. The `f_tests` driver, which is not part of this model, calls it with `len` equal to the size of its `aligned_alloc` buffer (fdevice.c:82, 110, 126), and the source then writes that NUL one byte past the end.
- FConsole.ArgWithOffsets: models the copy as covering `size` bytes from the start of the buffer. That is the corrected loop (see Findings). The `int` overflow of `len + i` near 2^31 and the `int` width of `sizecpy` are not modelled.
- FspStructs.Request.SetHash: `fsp_new_request_hash_ptr` copies `sizeof(union fsp_hash)` bytes from the 17-byte local `hash` (fsp_structs.c:50-58). That size is 24 on a 64-bit target, because `XXH128_hash_t` is 8-byte aligned, so the copy reads 7 bytes past the local. The model keeps the 17 bytes of `md5` and leaves the padding bytes out.
- DedisFault.NextFailure: for the top, bottom and unique choices over an empty duplicate array or unique list, the source indexes an empty array (undefined behaviour in C). The model answers no block (`None`) there, where C's behaviour is undefined.
- LibRwBackend.ServiceLoop: proved on its own against `LibRwBackend.Serve`. `BackendService.Run` runs every thread through the generic `BackendService.Context.ServiceLoop`, not through this read/write loop.

### Weaker contracts

- DedisFault.GetNextBlock: its own contract states only the case without a runtime. The case with one is stated by `DedisFault.SetBlockInfo`, whose contract ties both getters to the blocks it records.
- DedisFault.GetLastBlock: the same; `DedisFault.SetBlockInfo` states the case with a runtime.
- FspServer.DeviceFaultCoversDevice: stated only for devices smaller than 4 GiB. The source passes the device size through a `uint32_t` parameter (fsp_server.c:100-112, fbd_structs.c:297). The model keeps that truncation, and `FspServer.DeviceFaultTruncated` shows a larger device whose fault covers only its first block.
- DedupDegree.NthMoreAsWritten: states only that a returned element comes from the array. Reading past the end is the finding below.
- DedupDegree.NthLessAsWritten: the same.

- FConsole.ArgWithOffsets: requires `OffsetsWordFits`, which means the scanned word, a copy of `arg` and the `size` replicated bytes all fit the buffer. The source checks none of these. The `%s` conversion, the `strcpy` and the copy loop (fconsole.c:35, 42-45, 48) write into `content[MAX_BUF_SIZE]` (fconsole.c:56) or the 4096-byte `buf` (fconsole.c:172, 183), and a longer argument overruns that buffer. The model does not describe the overrun.
- FConsole.ArgReplicateContent: requires `ReplicateFits` for the same reason. The `%s` conversion, the copy loop and the `strcpy` of `arg_replicate_content` (fconsole.c:89-100) write into the 4096-byte `buf` (fconsole.c:172) without a check. The overrun is not modelled.
- FConsole.FillRepeating: requires `size <= buf.Length`. The loops it models (fconsole.c:42-45, 93-97) write `size` bytes whatever the buffer can hold.
- FConsole.WriteCString: requires that the string and its NUL fit the buffer. `strcpy` and `%s` (fconsole.c:35, 48, 89-90, 100) do not check that.
- FspStructs.Request.SetArgs: requires `argsSize <= 64`. `fsp_set_request_args` (fsp_structs.c:28-33) copies `args_size` bytes into the 64-byte `args` field (fsp_structs.h:46) without a check, so a larger size writes past the field. The model does not describe that write.
- FspStructs.NewBlockRequest: requires `argsSize <= 64` because it calls `fsp_set_request_args` (fsp_structs.c:103). The source's overrun for a larger size is not modelled.
- FspStructs.NewHashRequest: the same, through `fsp_set_request_args` (fsp_structs.c:75, 93).
- FspStructs.NewDeviceRequest: the same, through `fsp_set_request_args` (fsp_structs.c:111).
- KbdusDevice.Device.Deactivate: `kbdus_device_deactivate` (bdus-master/kbdus/src/device.c:1057-1066) swaps in INACTIVE whatever the old state was. Its `kbdus_assert` that the old state was ACTIVE only logs an alert (bdus/kbdus/include-private/kbdus/utilities.h:67-80). `KbdusDevice.Next` follows that for every state except TERMINATED: an INACTIVE device stays INACTIVE and an UNAVAILABLE one becomes INACTIVE. It refuses TERMINATED, which no caller passes (control.c:567, 971-977, 1419). The header in bdus/kbdus/include-private/kbdus/device.h:176-186 documents a different behaviour: an UNAVAILABLE device is terminated and a TERMINATED one is left alone. The model follows the implementation for UNAVAILABLE.
- FConsole.OffsetSpanAsWritten: counts with an unbounded counter. In C, `i += len` overflows once the counter passes INT_MAX, which is undefined behaviour, and the model does not capture that. For offsets of 2^32 or more, the span is the bound such a counter would have to reach. It is not what the compiled loop does.
- FConsole.OffsetCounterWraps: the `size + 2^32` it states is that unbounded counter's bound. The C loop overflows `int` before reaching it, and it has overrun the 8192-byte buffer long before that.
- CScanf.SignedValue: the numeral's value as an unbounded integer. C leaves a `%d` or `%lu` conversion undefined when the value does not fit the target type. glibc converts through `strtol`/`strtoul`, which saturate at the 64-bit bounds, and then narrows `%d` to `int`. The model's callers reduce the unbounded value modulo 2^32 or 2^64 instead. The two agree for numerals that fit in 64 bits, but not for longer ones.
- FConsole.OffsetsFromArg: inherits that reduction, so a size or offset numeral beyond 64 bits is stored modulo 2^32 or 2^64 rather than saturated.

## Findings

Each row names two members. The as-written member models the code as it stands and exhibits the discrepancy. The corrected member is what the rest of the model uses.

| source | as written | input that shows it | evidently intended | confidence | as-written member | corrected member |
|---|---|---|---|---|---|---|
| fbdd/fbd_structs.c:287-291 | `add_fault` appends to a block's fault array without checking MAX_FAULTS (3). | Four distinct faults on one block: a bit flip and a slow disk, each on writes and on reads. | A fourth fault on a full block is refused. | not executed | `FbdStructs.AddFaultOverflow` | `FbdStructs.AddedMeaning` |
| fbdd/fbd_structs.c:603-612 | After a fired one-shot fault is removed by shifting the array left, `j` still advances. | A one-shot medium error followed by a one-shot bit flip, both on writes. | Every matching fault fires once. | not executed | `FbdStructs.InjectionSkipsShiftedFault` | `FbdStructs.FireAllMeaning` |
| fbdd/fbd_structs.c:52-54 | MD5 digests are compared with `strcmp`, which stops at the first NUL byte. | Digests `00 01 00…` and `00 02 00…` compare equal. | All 16 bytes are compared. | not executed | `FbdStructs.Md5CompareStopsAtNul` | `FbdStructs.Md5CompareWithoutNul` |
| fbdd/fbd_structs.c:134-135 | `malloc(sizeof(args_size))` allocates one byte, the size of a `uint8_t`. | A slow-disk fault copies an 8-byte delay into it. | `args_size` bytes are allocated. | not executed | `FbdStructs.SlowDiskArgsOverrun` | `FbdStructs.ArgsAllocation` |
| fbdd/fconsole/fdevice.c:231-236 | `f_write` sets `lastOpFailed` when the write succeeded. | A `pwrite` that returns -1 is recorded as not failed. | The flag is set exactly when the write fails. | not executed | `FConsoleDevice.WriteFlagInverted` | `FConsoleDevice.FDevice.Write` |
| fbdd/fconsole/fdevice.c:53-55 | The 64-bit block count is passed to `gen_number(int, int)` (fdevice.c:31-33). | A 16 TiB disk with 4096-byte blocks has 2^32 blocks, which truncates to 0, so the code computes `rand() % 0`. | The count is kept 64 bits wide. | not executed | `FConsoleDevice.BlockCountTruncated` | `FConsoleDevice.RandomBlock` |
| fbdd/fconsole/fconsole.c:89-90 | The replicate branch is taken on any non-zero `sscanf` result. | `5(7)` with a delay to fill converts two numbers, and the copy loop never advances. | The replicate branch is taken only when the pattern was also read. | not executed | `FConsole.ReplicateStallsAsWritten` | `FConsole.ArgReplicateContent` |
| fbdd/fbdd.c:436 | `strcmp(optarg, "MURMUR_x86_128")` lacks `== 0`. | `-h SHA1` selects MurmurHash, and `-h MURMUR_x86_128` is rejected. | Each name selects its own hash. | not executed | `Fbdd.SetHashTypeSwapsMurmur` | `Fbdd.SetHashType` |
| fbdd/fbdd.c:99 | The read path stores the offset in a `uint32_t`. | A read at 4 GiB is checked against faults as a read at 0. | The 64-bit offset is used, as on the write path. | not executed | `Fbdd.ReadOffsetTruncated` | `Fbdd.DeviceRead` |
| bdus/libbdus/src/bdus.c:766-879 | On re-attach, a missing callback sets `errno` and the message, but the check still returns true. | A driver without `read` re-attaches to a device that supports reads. | The driver is refused. | not executed | `LibBdus.MissingCallbackAcceptedAsWritten` | `LibBdus.ValidateOpsRerun` |
| dedisbench-private/benchcore/faults/dedupDegree.c:172-188 | A new top bucket is created with size 1, and the shared `size++` then makes it 2. | Keys a and b are seen once, then b again. | The new bucket holds one element. | not executed | `DedupDegree.NewTopBucketOverCounted` | `DedupDegree.PromotedKeepsInv` |
| dedisbench-private/benchcore/faults/dedupDegree.c:316-339 | Only `nth > len` is clamped, so `nth == len` reads one slot past the end. | One element, with nth 1. | `nth >= len` is clamped. | not executed | `DedupDegree.SelectorsReadPastEnd` | `DedupDegree.NthMore` |
| dedisbench/benchcore/faults/configParserYaml.c:66-78 | The per-process array is re-created on every pass of the loop, so one pair of lists survives. | With nprocs 2, the first fault goes to process 1, which has no lists. | The array is created once with one pair of lists per process. | not executed | `ConfigParserYaml.Metadata.InitAsWritten`, `ConfigParserYaml.InitAsWrittenFilesOutOfRange` | `ConfigParserYaml.Metadata.Init` |
| dedisbench/benchcore/faults/configParserYaml.c:82-86 | The difference of two 64-bit `when` values is cast to `gint`. | When values 2^31 and 0 sort the larger first. | The values are compared, not subtracted. | not executed | `ConfigParserYaml.CompareWhenMisorders` | `ConfigParserYaml.SortByWhen` |
| dedisbench-private/benchcore/faults/fault.c:73-76 | `len >= nunique` lets the index reach `len`. | Every unique block has already had a fault. | The choice wraps back to the first unique block. | not executed | `DedisFault.UniqueIndexReadsPastEnd` | `DedisFault.UniqueBlocksTakenInOrder` |
| dedisbench-private/benchcore/faults/fault.c:193-197 | The target case has no `break`, so its characters also go into `when`. | `1:25:3` fires at 35. | The three fields are separate. | not executed | `DedisFault.TargetLeaksIntoWhen` | `DedisFault.FieldsOfThree` |
| fbdd/fconsole/fconsole.c:42 | The copy loop's counter is an `int` started at the 64-bit offset and compared with `offSet+size` as an unsigned 64-bit value. | `(4096:3221225472)abc`: the counter starts negative, widens to a value above the end, and nothing is copied though 4096 is returned. An offset of 2^32 or more starts the counter at the offset's low 32 bits, so the loop runs on until `i += len` overflows INT_MAX, which C leaves undefined, and it overruns the 8192-byte buffer on the way. | The loop covers `size` bytes, whatever the offset. | not executed | `FConsole.OffsetSpanAsWritten`, `FConsole.OffsetCounterSkipsCopy`, `FConsole.OffsetCounterWraps` | `FConsole.ArgWithOffsets` |
| bdus/kbdus/src/control.c:997-1005 | After waiting for the attached session to detach, the attacher clears `on_detach` through the wrapper pointer it took before the wait. | The release keeps the device for the waiter but without a session (control.c:571-590), and `KBDUS_IOCTL_REQUEST_DEVICE_DESTRUCTION` then frees the wrapper (control.c:1486-1491) before the attacher locks the mutex again. | The device is looked up again by its seqnum after the wait, and a device that is gone gives -ENODEV. | not executed | `KbdusControl.DestroyedDuringAttachWait` | `KbdusControl.Registry.AttachResume` |
