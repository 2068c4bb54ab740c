/**
 * fconsole's handle on the device under test (fbdd/fconsole/fdevice.c and fdevice.h): a file
 * descriptor with two cursors, `offSet` (where the next write goes) and `lastWrite` (where the
 * next read comes from), a writing mode and the outcome of the last operation; plus the helpers of
 * the randomised test loop (`gen_number`, `next_operation`, `check_counter`, `gen_random_block`,
 * `gen_str_random`).
 *
 * The system calls are parameters: `pwrite`, `pread` and `open` are represented by the value they
 * returned, and `rand()` by a number in 0..RAND_MAX.
 */
module FConsoleDevice {
  import opened CTypes
  import opened Bits

  const MODE_PREFIX: int := 0
  const MODE_APPEND: int := 1

  /** glibc's `RAND_MAX`. */
  const RAND_MAX: nat := 0x7FFF_FFFF

  const NUL: char := '\0'

  // ---------------------------------------------------------------------------------------------
  // The cursors

  /** The part of a device handle that decides where reads and writes go. */
  datatype Cursor = Cursor(offset: u64, lastWrite: u64, mode: int)

  /**
   * `updateOffSet_LastWrite` after a write of `size` bytes: in APPEND mode the write position
   * becomes the read position and the write position advances by `size` (a `uint64_t` sum);
   * in any other mode (PREFIX) the write position returns to the read position.
   */
  function AfterWrite(c: Cursor, size: i32): (d: Cursor)
    ensures d.mode == c.mode
  {
    if c.mode == MODE_APPEND then Cursor(ToU64(c.offset + size), c.offset, c.mode)
    else c.(offset := c.lastWrite)
  }

  /** Where a write at cursor `c` goes. */
  function WritePosition(c: Cursor): u64 { c.offset }

  /** Where a read at cursor `c` comes from. */
  function ReadPosition(c: Cursor): u64 { c.lastWrite }

  /** In APPEND mode a read after a write reads back exactly where that write went. */
  lemma AppendReadsLastWrite(c: Cursor, size: i32)
    requires c.mode == MODE_APPEND
    ensures ReadPosition(AfterWrite(c, size)) == WritePosition(c)
  {
  }

  /**
   * In APPEND mode successive writes follow each other: the second goes right after the first
   * (modulo 2^64) and afterwards the write position is past both.
   */
  lemma AppendWritesFollow(c: Cursor, w1: i32, w2: i32)
    requires c.mode == MODE_APPEND
    ensures WritePosition(AfterWrite(c, w1)) == ToU64(c.offset + w1)
    ensures ReadPosition(AfterWrite(AfterWrite(c, w1), w2)) == ToU64(c.offset + w1)
    ensures WritePosition(AfterWrite(AfterWrite(c, w1), w2)) == ToU64(c.offset + w1 + w2)
  {
    ModAddLeft(c.offset + w1, w2, 0x1_0000_0000_0000_0000);
  }

  /**
   * In PREFIX mode every write after the first goes to the read position: one write moves the
   * write position there and further writes change nothing.
   */
  lemma PrefixWritesStay(c: Cursor, w1: i32, w2: i32)
    requires c.mode != MODE_APPEND
    ensures WritePosition(AfterWrite(c, w1)) == ReadPosition(c)
    ensures ReadPosition(AfterWrite(c, w1)) == ReadPosition(c)
    ensures AfterWrite(AfterWrite(c, w1), w2) == AfterWrite(c, w1)
  {
  }

  // ---------------------------------------------------------------------------------------------
  // The outcome flag

  /** What `f_write` stores in `lastOpFailed` for a `pwrite` result `w`, as written. */
  function WriteFlagAsWritten(w: i32): bool { w >= 0 }

  /**
   * The flag is inverted: a failed write (-1) is recorded as not failed and a complete write as
   * failed, while `f_read` and the console's expected-error check read it as "failed".
   */
  lemma WriteFlagInverted()
    ensures !WriteFlagAsWritten(-1)
    ensures WriteFlagAsWritten(4096)
  {
  }

  // ---------------------------------------------------------------------------------------------
  // The device handle

  /** `struct F_Device`. */
  class FDevice {
    var socket: int
    var fd: int
    var offset: u64
    var lastWrite: u64
    var mode: int
    var lastOpFailed: bool

    function State(): Cursor
      reads this
    {
      Cursor(offset, lastWrite, mode)
    }

    /** `f_new_device`: both cursors at 0, PREFIX mode, no failure recorded. */
    constructor (fd: int, socket: int)
      ensures this.fd == fd && this.socket == socket
      ensures State() == Cursor(0, 0, MODE_PREFIX) && !lastOpFailed
    {
      this.socket := socket;
      this.fd := fd;
      offset := 0;
      lastWrite := 0;
      mode := MODE_PREFIX;
      lastOpFailed := false;
    }

    /** `updateOffSet_LastWrite`. */
    method UpdateOffsetLastWrite(size: i32)
      modifies this`offset, this`lastWrite
      ensures State() == AfterWrite(old(State()), size)
    {
      if mode == MODE_APPEND {
        if offset != lastWrite {
          lastWrite := offset;
        }
        offset := ToU64(offset + size);
      } else {
        offset := lastWrite;
      }
    }

    /**
     * `f_open`: the descriptor becomes what `open` returned (`openResult`); the process exits when
     * that is -1. Closing the previous descriptor is a system call outside this model.
     */
    method Open(openResult: int) returns (exited: bool)
      modifies this`fd
      ensures fd == openResult
      ensures exited <==> openResult == -1
    {
      fd := openResult;
      exited := fd == -1;
    }

    /**
     * `f_write` with the flag corrected: `pwrite` of `size` bytes at the write position returned
     * `written`. An invalid descriptor ends the process (`exited`) before anything changes;
     * otherwise the result is returned as an `int`, the flag records whether it is negative, and a
     * write that did not fail moves the cursors as `updateOffSet_LastWrite` says.
     */
    method Write(size: u32, written: int) returns (ret: i32, at: u64, exited: bool)
      requires written == -1 || 0 <= written <= size
      modifies this`offset, this`lastWrite, this`lastOpFailed
      ensures exited <==> fd < 0
      ensures exited ==> State() == old(State()) && lastOpFailed == old(lastOpFailed)
      ensures !exited ==> at == old(offset) && ret == ToI32(written) && (lastOpFailed <==> ret < 0)
      ensures !exited ==> State() == (if ret < 0 then old(State()) else AfterWrite(old(State()), ret))
    {
      at := offset;
      if fd < 0 {
        exited := true;
        ret := 0;
        return;
      }
      exited := false;
      ret := ToI32(written);
      if ret < 0 {
        lastOpFailed := true;
        return;
      }
      lastOpFailed := false;
      UpdateOffsetLastWrite(ret);
    }

    /** `f_write_block`: sets the write position to `newOffset`, then writes. */
    method WriteBlock(size: u32, newOffset: u64, written: int) returns (ret: i32, at: u64, exited: bool)
      requires written == -1 || 0 <= written <= size
      modifies this`offset, this`lastWrite, this`lastOpFailed
      ensures exited <==> fd < 0
      ensures exited ==> offset == newOffset && lastWrite == old(lastWrite)
      ensures !exited ==> at == newOffset && ret == ToI32(written) && (lastOpFailed <==> ret < 0)
      ensures !exited ==> State() == (if ret < 0 then old(State()).(offset := newOffset)
                                      else AfterWrite(old(State()).(offset := newOffset), ret))
    {
      offset := newOffset;
      ret, at, exited := Write(size, written);
    }

    /**
     * `f_read`: `pread` of `size` bytes at the read position returned `read`. An invalid
     * descriptor ends the process; otherwise the flag records whether the result is negative and
     * the cursors stay where they are.
     */
    method Read(size: u32, read: int) returns (ret: i32, at: u64, exited: bool)
      requires read == -1 || 0 <= read <= size
      modifies this`lastOpFailed
      ensures exited <==> fd < 0
      ensures exited ==> lastOpFailed == old(lastOpFailed)
      ensures !exited ==> at == lastWrite && ret == ToI32(read) && (lastOpFailed <==> ret < 0)
    {
      at := lastWrite;
      if fd < 0 {
        exited := true;
        ret := 0;
        return;
      }
      exited := false;
      ret := ToI32(read);
      if ret < 0 {
        lastOpFailed := true;
        return;
      }
      lastOpFailed := false;
    }

    /** `f_read_block`: sets the read position to `newLastWrite`, then reads. */
    method ReadBlock(size: u32, newLastWrite: u64, read: int) returns (ret: i32, at: u64, exited: bool)
      requires read == -1 || 0 <= read <= size
      modifies this`lastWrite, this`lastOpFailed
      ensures lastWrite == newLastWrite && offset == old(offset)
      ensures exited <==> fd < 0
      ensures !exited ==> at == newLastWrite && ret == ToI32(read) && (lastOpFailed <==> ret < 0)
    {
      lastWrite := newLastWrite;
      ret, at, exited := Read(size, read);
    }

    /** `f_last_operation_failed`. */
    function LastOperationFailed(): bool
      reads this
    {
      lastOpFailed
    }

    /** `f_setMode`. */
    method SetMode(newMode: int)
      modifies this`mode
      ensures State() == old(State()).(mode := newMode)
    {
      mode := newMode;
    }

    /** `f_setOffSet`. */
    method SetOffset(newOffset: u64)
      modifies this`offset
      ensures State() == old(State()).(offset := newOffset)
    {
      offset := newOffset;
    }

    /** `f_setLastWrite`. */
    method SetLastWrite(newLastWrite: u64)
      modifies this`lastWrite
      ensures State() == old(State()).(lastWrite := newLastWrite)
    {
      lastWrite := newLastWrite;
    }
  }

  /**
   * An APPEND-mode write that succeeds followed by a read reads back from where the write went,
   * and the flag reports the read's own outcome.
   */
  method WriteThenRead(d: FDevice, size: u32, written: nat, read: int) returns (wAt: u64, rAt: u64)
    requires d.fd >= 0 && d.mode == MODE_APPEND
    requires written <= size && written < 0x8000_0000
    requires read == -1 || (0 <= read <= size && read < 0x8000_0000)
    modifies d
    ensures wAt == rAt == old(d.offset)
    ensures d.LastOperationFailed() <==> read == -1
  {
    var ret, exited;
    ret, wAt, exited := d.Write(size, written);
    FitsUnchangedI32(written);
    AppendReadsLastWrite(old(d.State()), ret);
    ret, rAt, exited := d.Read(size, read);
    FitsUnchangedI32(read);
    assert ToI32(-1) == -1;
  }

  // ---------------------------------------------------------------------------------------------
  // Random choices of the test loop

  /** `gen_number`: `rand() % max + min` for a `rand()` result `rnd`. */
  function GenNumber(min: int, max: int, rnd: nat): (r: u64)
    requires 0 < max && 0 <= min && min + max <= 0x8000_0000 && rnd <= RAND_MAX
    ensures min <= r < min + max
  {
    FitsUnchanged(rnd % max + min);
    ToU64(rnd % max + min)
  }

  /** The 52 letters `gen_str_random` draws from. */
  const ALPHANUM: string := "ABCDEFGHIJKLMNOPQRSTUVWXYZabcdefghijklmnopqrstuvwxyz"

  /**
   * `gen_str_random`: `len` letters, the `i`-th drawn by the `i`-th `rand()` result, followed by
   * a NUL.
   */
  method GenStrRandom(s: array<char>, len: nat, rnds: seq<nat>)
    requires len < s.Length && len <= |rnds|
    modifies s
    ensures forall i :: 0 <= i < len ==> s[i] == ALPHANUM[rnds[i] % 52] && s[i] in ALPHANUM
    ensures s[len] == NUL
    ensures s[len + 1..] == old(s[len + 1..])
  {
    for i := 0 to len
      invariant forall j :: 0 <= j < i ==> s[j] == ALPHANUM[rnds[j] % 52]
      invariant s[len..] == old(s[len..])
    {
      s[i] := ALPHANUM[rnds[i] % 52];
    }
    s[len] := NUL;
  }

  /** Every value strictly before `v` on the cyclic walk from `x`, and how far `v` is. */
  function Dist(x: int, v: int, max: int): nat
    requires 0 <= v < max
  {
    if 0 <= x < max then (if x <= v then v - x else v + max - x) else max
  }

  /**
   * The walk `next_operation` performs from `x`: while the value is among the done operations it
   * moves to the next one modulo `max`; `fuel` bounds the number of steps.
   */
  function Walk(x: int, max: int, done: seq<int>, fuel: nat): int
    requires max > 0
    decreases fuel
  {
    if x !in done || fuel == 0 then x else Walk((x + 1) % max, max, done, fuel - 1)
  }

  /** One step of the walk from a done value brings a free value `v` one step closer. */
  lemma DistStep(x: int, v: int, max: int)
    requires 0 <= v < max && 0 <= x && x != v
    ensures 0 <= (x + 1) % max < max
    ensures Dist((x + 1) % max, v, max) < Dist(x, v, max)
  {
    if x + 1 < max {
      DivModUnique(x + 1, max, 0, x + 1);
    } else if x + 1 == max {
      DivModUnique(x + 1, max, 1, 0);
    }
  }

  /** With enough fuel to reach a free value, the walk ends on a value that is not done. */
  lemma {:induction false} WalkFindsFree(x: int, v: int, max: int, done: seq<int>, fuel: nat)
    requires 0 <= v < max && v !in done && 0 <= x && fuel > Dist(x, v, max)
    ensures Walk(x, max, done, fuel) !in done
    ensures Walk(x, max, done, fuel) == x || 0 <= Walk(x, max, done, fuel) < max
    decreases fuel
  {
    if x in done {
      DistStep(x, v, max);
      WalkFindsFree((x + 1) % max, v, max, done, fuel - 1);
    }
  }

  /**
   * `next_operation`: draws `gen_number(min, max)` and, while it equals one of the first `size`
   * done operations, moves to the next value modulo `max` and rescans from the start. The loop
   * ends only when some value below `max` is not done, which the caller guarantees; the result
   * is the first value on that walk that is not done.
   */
  method NextOperation(min: int, max: int, doneOps: array<int>, size: int, rnd: nat) returns (next: int)
    requires 0 < max && 0 <= min && min + max <= 0x8000_0000 && rnd <= RAND_MAX
    requires 0 <= size <= doneOps.Length
    requires exists v :: 0 <= v < max && v !in doneOps[..size]
    ensures next == Walk(GenNumber(min, max, rnd), max, doneOps[..size], max + 1)
    ensures next !in doneOps[..size]
    ensures next == GenNumber(min, max, rnd) || 0 <= next < max
    ensures min == 0 ==> 0 <= next < max
  {
    ghost var done := doneOps[..size];
    ghost var v :| 0 <= v < max && v !in done;
    var start := ToI32(GenNumber(min, max, rnd));
    FitsUnchangedI32(GenNumber(min, max, rnd));
    WalkFindsFree(start, v, max, done, max + 1);
    next := start;
    ghost var fuel: nat := max + 1;
    var i := 0;
    while i < size
      invariant 0 <= i <= size
      invariant 0 <= next && (next == start || next < max)
      invariant fuel > Dist(next, v, max)
      invariant Walk(next, max, done, fuel) == Walk(start, max, done, max + 1)
      invariant forall j :: 0 <= j < i ==> doneOps[j] != next
      decreases fuel, size - i
    {
      if next == doneOps[i] {
        assert next in done by { assert done[i] == doneOps[i]; }
        DistStep(next, v, max);
        next := (next + 1) % max;
        fuel := fuel - 1;
        i := 0;
      } else {
        i := i + 1;
      }
    }
    assert next !in done by {
      forall k | 0 <= k < size ensures done[k] != next { assert done[k] == doneOps[k]; }
    }
  }

  /**
   * `check_counter`: when the counter of operation `countIndex` has reached the threshold, the
   * operation is appended to the done list.
   */
  method CheckCounter(countIndex: int, counters: array<int>, threshold: int,
                      doneOps: array<int>, doneSize: nat) returns (newSize: nat)
    requires 0 <= countIndex < counters.Length && doneSize <= doneOps.Length
    requires counters[countIndex] >= threshold ==> doneSize < doneOps.Length
    modifies doneOps
    ensures newSize == doneSize + (if old(counters[countIndex]) >= threshold then 1 else 0)
    ensures newSize <= doneOps.Length
    ensures doneOps[..newSize] == old(doneOps[..doneSize])
                                  + (if old(counters[countIndex]) >= threshold then [countIndex] else [])
    ensures doneOps[newSize..] == old(doneOps[newSize..])
  {
    newSize := doneSize;
    if counters[countIndex] >= threshold {
      doneOps[doneSize] := countIndex;
      newSize := doneSize + 1;
    }
  }

  /** The `int` that `gen_random_block` passes as `max` to `gen_number`, as written. */
  function BlockCountAsWritten(diskSize: u64, blockSize: u32): i32
    requires blockSize > 0
  {
    ToI32(diskSize / blockSize)
  }

  /**
   * On a 16 TiB disk with 4 KiB blocks the block count, 2^32, becomes 0 as an `int`, and
   * `gen_number` then divides by zero.
   */
  lemma BlockCountTruncated()
    ensures 0x1000_0000_0000 / 4096 == 0x1_0000_0000
    ensures BlockCountAsWritten(0x1000_0000_0000, 4096) == 0
  {
  }

  /**
   * `gen_random_block` with the block count kept as a `uint64_t`: the `rnd`-th block modulo the
   * number of whole blocks, as a byte offset. It lies inside the disk and on a block boundary.
   */
  function RandomBlock(diskSize: u64, blockSize: u32, rnd: nat): (r: u64)
    requires 0 < blockSize <= diskSize
    ensures r % blockSize == 0
    ensures r + blockSize <= diskSize
  {
    var n := diskSize / blockSize;
    var k := rnd % n;
    assert diskSize == n * blockSize + diskSize % blockSize;
    assert (k + 1) * blockSize <= n * blockSize by { MulLe(k + 1, n, blockSize); }
    assert k * blockSize + blockSize == (k + 1) * blockSize;
    FitsUnchanged(k * blockSize);
    DivModUnique(k * blockSize, blockSize, k, 0);
    ToU64(k * blockSize)
  }

  lemma MulLe(a: nat, b: nat, c: nat)
    requires a <= b
    ensures a * c <= b * c
  {
  }
}
