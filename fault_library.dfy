/**
 * fbdd's fault library (fbdd/fault/fault.c): the three faults it can inject into a request —
 * flipping a bit of the data, sleeping before the request completes, and failing the request
 * with a medium error — and the millisecond sleep the second one uses.
 */
module FaultLibrary {
  import opened CTypes
  import opened FbdDefines
  import Bits

  /** C's `long`. */
  type i64 = x: int | -0x8000_0000_0000_0000 <= x < 0x8000_0000_0000_0000

  /** The implicit conversion of a `uint64_t` argument to a `long` parameter (two's complement). */
  function ToLong(x: u64): (r: i64)
    ensures r % 0x1_0000_0000_0000_0000 == x
    ensures r < 0 <==> x >= 0x8000_0000_0000_0000
  {
    if x < 0x8000_0000_0000_0000 then x else x - 0x1_0000_0000_0000_0000
  }

  /** C's `/` on integers, which truncates toward zero. */
  function TruncDiv(a: int, b: int): int
    requires b > 0
  {
    if a >= 0 then a / b else -((-a) / b)
  }

  /** C's `%` on integers: the remainder takes the sign of the dividend. */
  function TruncMod(a: int, b: int): int
    requires b > 0
  {
    a - b * TruncDiv(a, b)
  }

  /** A `struct timespec`. */
  datatype Timespec = Timespec(sec: int, nsec: int)

  /**
   * The request `msleep` hands to `nanosleep` for `tms` milliseconds: whole seconds plus the
   * remaining milliseconds in nanoseconds, each carrying the sign of `tms`.
   */
  function SleepRequest(tms: i64): (ts: Timespec)
    ensures ts.sec * 1000 + ts.nsec / 1_000_000 == tms
    ensures ts.nsec % 1_000_000 == 0 && -1_000_000_000 < ts.nsec < 1_000_000_000
    ensures tms >= 0 ==> ts.sec >= 0 && ts.nsec >= 0
    ensures tms <= 0 ==> ts.sec <= 0 && ts.nsec <= 0
  {
    var ts := Timespec(TruncDiv(tms, 1000), TruncMod(tms, 1000) * 1_000_000);
    SleepRequestParts(tms);
    ts
  }

  lemma SleepRequestParts(tms: int)
    ensures var q := TruncDiv(tms, 1000); var r := TruncMod(tms, 1000);
      q * 1000 + r == tms && -1000 < r < 1000 && (tms >= 0 ==> q >= 0 && r >= 0) && (tms <= 0 ==> q <= 0 && r <= 0)
      && (r * 1_000_000) / 1_000_000 == r && (r * 1_000_000) % 1_000_000 == 0
  {
    var r := TruncMod(tms, 1000);
    Bits.DivModUnique(r * 1_000_000, 1_000_000, r, 0);
  }

  /** What one call of `nanosleep` did: it slept the whole request, or it failed with an errno
    * and reported how much of the request was left. */
  datatype Nanosleep = Slept | Failed(errno: nat, remaining: Timespec)

  /** `msleep` calls `nanosleep` again only after a failure with EINTR. */
  predicate Retries(n: Nanosleep)
  {
    n.Failed? && n.errno == EINTR
  }

  /** The number of calls before the first one `msleep` does not retry. */
  function FirstStop(outcomes: seq<Nanosleep>): (i: nat)
    requires exists k :: 0 <= k < |outcomes| && !Retries(outcomes[k])
    ensures i < |outcomes| && !Retries(outcomes[i])
    ensures forall k :: 0 <= k < i ==> Retries(outcomes[k])
  {
    if !Retries(outcomes[0]) then 0
    else
      assert forall k :: 0 <= k < |outcomes| && !Retries(outcomes[k]) ==> k > 0;
      assert exists k :: 0 <= k < |outcomes[1..]| && !Retries(outcomes[1..][k]) by {
        var k :| 0 <= k < |outcomes| && !Retries(outcomes[k]);
        assert outcomes[1..][k - 1] == outcomes[k];
      }
      1 + FirstStop(outcomes[1..])
  }

  /**
   * `msleep`: sleeps `tms` milliseconds, calling `nanosleep` again with the time it reported as
   * left for as long as it is interrupted by a signal. `outcomes` are the successive results of
   * `nanosleep`; the source waits forever when every call is interrupted, so one must not be.
   * `requests` are the arguments of the successive calls.
   */
  method Msleep(tms: i64, outcomes: seq<Nanosleep>) returns (ret: int, requests: seq<Timespec>)
    requires exists k :: 0 <= k < |outcomes| && !Retries(outcomes[k])
    ensures |requests| == FirstStop(outcomes) + 1
    ensures requests[0] == SleepRequest(tms)
    ensures forall k :: 0 <= k < |requests| - 1 ==> requests[k + 1] == outcomes[k].remaining
    ensures ret == 0 <==> outcomes[|requests| - 1].Slept?
    ensures ret == 0 || ret == -1
  {
    var ts := SleepRequest(tms);
    var i: nat := 0;
    requests := [];
    ghost var stop := FirstStop(outcomes);
    while true
      invariant i <= stop && |requests| == i
      invariant i > 0 ==> requests[0] == SleepRequest(tms)
      invariant i == 0 ==> ts == SleepRequest(tms)
      invariant i > 0 ==> ts == outcomes[i - 1].remaining
      invariant forall k :: 0 <= k < i - 1 ==> requests[k + 1] == outcomes[k].remaining
      decreases stop - i
    {
      requests := requests + [ts];
      var outcome := outcomes[i];
      ret := if outcome.Slept? then 0 else -1;
      if !Retries(outcome) {
        break;
      }
      ts := outcome.remaining;
      i := i + 1;
    }
  }

  /** Flipping the lowest bit of a byte: C's `b ^ 1`. */
  function FlipLowBit(b: u8): (r: u8)
    ensures r / 2 == b / 2 && r % 2 != b % 2
  {
    if b % 2 == 0 then b + 1 else b - 1
  }

  /** Flipping the bit again restores the byte, and no byte is left unchanged by a flip. */
  lemma FlipLowBitInvolution(b: u8)
    ensures FlipLowBit(FlipLowBit(b)) == b && FlipLowBit(b) != b
  {
    var r := FlipLowBit(b);
    Bits.DivModUnique(b, 2, r / 2, b % 2);
  }

  /**
   * `fl_inject_bit_flip_fault_buffer`: flips the lowest bit of the first byte of the buffer,
   * which starts at index `at` of `buffer`; no other byte changes.
   */
  method InjectBitFlip(buffer: array<u8>, at: nat, size: u32) returns (sts: int)
    requires at < buffer.Length
    modifies buffer
    ensures buffer[..] == old(buffer[..])[at := FlipLowBit(old(buffer[at]))]
    ensures sts == FBD_STS_OK
  {
    buffer[at] := FlipLowBit(buffer[at]);
    sts := FBD_STS_OK;
  }

  /**
   * `fl_inject_slow_disk_fault`: sleeps `ms` milliseconds and succeeds whatever the sleep did.
   * The delay goes through `msleep`'s `long` parameter, so one of 2^63 ms or more becomes a
   * negative request, which `nanosleep` refuses without sleeping.
   */
  method InjectSlowDisk(ms: u64, outcomes: seq<Nanosleep>) returns (sts: int, requests: seq<Timespec>)
    requires exists k :: 0 <= k < |outcomes| && !Retries(outcomes[k])
    ensures |requests| == FirstStop(outcomes) + 1
    ensures requests[0] == SleepRequest(ToLong(ms))
    ensures ms >= 0x8000_0000_0000_0000 ==> requests[0].sec <= 0 && requests[0].nsec <= 0 && requests[0] != Timespec(0, 0)
    ensures sts == FBD_STS_OK
  {
    var ret;
    ret, requests := Msleep(ToLong(ms), outcomes);
    sts := FBD_STS_OK;
  }

  /** `fl_inject_medium_disk_fault`: the request fails with a medium error. */
  function InjectMedium(): (sts: int)
    ensures sts == FBD_STS_MEDIUM_ERROR && sts < 0
  {
    FBD_STS_MEDIUM_ERROR
  }
}
