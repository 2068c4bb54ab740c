/**
 * The option arguments of fbdd's console (fbdd/fconsole/fconsole.c). A block interval is written
 * `(size:offset)`; a content argument may ask for a word to be replicated over a number of bytes,
 * as in `(size:offset)word`, `(size)word` or `time(size)word`; a flag argument is `true` or
 * `false`.
 */
module FConsole {
  import opened CTypes
  import opened Wrappers
  import opened Decimal
  import opened CScanf
  import Bits

  /** The size of the content buffer `arg_check_content` hands to `arg_with_offSets`. */
  const MAX_BUF_SIZE: nat := 8192
  /** The size of the console's I/O buffer. */
  const BLOCK_SIZE: nat := 4096

  const NUL: char := '\0'

  /** A C string holds no NUL before its end. */
  predicate CString(s: string)
  {
    NUL !in s
  }

  /** `"(%d:%lu)"`, followed by the rest of a format. */
  function IntervalThen(tail: Fmt): Fmt
  {
    Lit('(', Num(Lit(':', Num(Lit(')', tail)))))
  }

  /** `"(%d:%lu)"` */
  const OFFSETS_FORMAT: Fmt := IntervalThen(End)
  /** `"(%d:%lu)%s"` */
  const OFFSETS_WORD_FORMAT: Fmt := IntervalThen(Word(End))
  /** `"(%d:%lu)%lu"` */
  const OFFSETS_TIME_FORMAT: Fmt := IntervalThen(Num(End))
  /** `"(%d)%s"` */
  const SIZE_WORD_FORMAT: Fmt := Lit('(', Num(Lit(')', Word(End))))
  /** `"%d(%d)%s"` */
  const TIME_SIZE_WORD_FORMAT: Fmt := Num(Lit('(', Num(Lit(')', Word(End)))))

  /** A block interval: `size` bytes at byte `offset`. */
  datatype Interval = Interval(size: u32, offset: u64)

  /** How a user writes an interval. */
  function IntervalArg(iv: Interval): string
  {
    "(" + Format(iv.size) + ":" + Format(iv.offset) + ")"
  }

  /** A printed number followed by the character the format expects next. */
  lemma StepNumLit(c: char, next: Fmt, n: nat, t: string, count: nat, nums: seq<string>)
    requires !IsDigit(c)
    ensures ScanFrom(Num(Lit(c, next)), Format(n) + ([c] + t), count, nums, "")
         == ScanFrom(next, t, count + 1, nums + [Format(n)], "")
  {
    StepNum(Lit(c, next), n, [c] + t, count, nums, "");
    StepLit(c, next, t, count + 1, nums + [Format(n)], "");
  }

  /** An interval written by `IntervalArg` is scanned back, whatever follows its `)`. */
  lemma ScanInterval(tail: Fmt, iv: Interval, rest: string)
    ensures ScanFrom(IntervalThen(tail), IntervalArg(iv) + rest, 0, [], "")
         == ScanFrom(tail, rest, 2, [Format(iv.size), Format(iv.offset)], "")
  {
    SignedValueFormat(iv.size);
    SignedValueFormat(iv.offset);
    IntervalShape(Format(iv.size), Format(iv.offset), rest);
    ScanIntervalOf(tail, Format(iv.size), Format(iv.offset), rest);
  }

  /** Two numerals between the interval's punctuation are both converted. */
  lemma ScanIntervalOf(tail: Fmt, a: string, b: string, rest: string)
    requires Numeral(a) && Numeral(b)
    ensures ScanFrom(IntervalThen(tail), ['('] + (a + ([':'] + (b + ([')'] + rest)))), 0, [], "")
         == ScanFrom(tail, rest, 2, [a, b], "")
  {
    ScanIntervalHead(tail, a, b + ([')'] + rest));
    StepNumeralLit(')', tail, b, rest, 1, [a]);
    assert [a] + [b] == [a, b];
  }

  /** The first half of an interval: the `(`, the size and the `:` after it. */
  lemma ScanIntervalHead(tail: Fmt, a: string, t: string)
    requires Numeral(a)
    ensures ScanFrom(IntervalThen(tail), ['('] + (a + ([':'] + t)), 0, [], "")
         == ScanFrom(Num(Lit(')', tail)), t, 1, [a], "")
  {
    StepLit('(', Num(Lit(':', Num(Lit(')', tail)))), a + ([':'] + t), 0, [], "");
    StepNumeralLit(':', Num(Lit(')', tail)), a, t, 0, []);
    assert [] + [a] == [a];
  }

  /** A numeral followed by the character the format expects next. */
  lemma StepNumeralLit(c: char, next: Fmt, d: string, t: string, count: nat, nums: seq<string>)
    requires Numeral(d) && !IsDigit(c)
    ensures ScanFrom(Num(Lit(c, next)), d + ([c] + t), count, nums, "")
         == ScanFrom(next, t, count + 1, nums + [d], "")
  {
    StepNumeral(Lit(c, next), d, [c] + t, count, nums, "");
    StepLit(c, next, t, count + 1, nums + [d], "");
  }

  lemma IntervalShape(a: string, b: string, rest: string)
    ensures "(" + a + ":" + b + ")" + rest == ['('] + (a + ([':'] + (b + ([')'] + rest))))
  {
  }

  // ---------------------------------------------------------------------------------------------
  // Intervals

  /** `offSets_from_arg`: an interval when `sscanf` fills both numbers. */
  function OffsetsFromArg(arg: string): Option<Interval>
  {
    var r := Scanf(OFFSETS_FORMAT, arg);
    if r.ret == 2 then
      ScanFromCounts(OFFSETS_FORMAT, arg, 0, [], "");
      var v := ScanNumbers(OFFSETS_FORMAT, arg);
      Some(Interval(ToU32(v[0]), ToU64(v[1])))
    else None
  }

  /** An interval as a user writes it is read back unchanged. */
  lemma OffsetsRoundTrip(iv: Interval)
    ensures OffsetsFromArg(IntervalArg(iv)) == Some(iv)
  {
    var s := IntervalArg(iv);
    var n2 := [Format(iv.size), Format(iv.offset)];
    assert Scanf(OFFSETS_FORMAT, s) == ScanOut(2, n2, "") by {
      ScanInterval(End, iv, "");
      assert s + "" == s;
    }
    var v := ScanNumbers(OFFSETS_FORMAT, s);
    assert v[0] == iv.size && v[1] == iv.offset;
    FitsUnchanged(iv.size);
    FitsUnchanged(iv.offset);
  }

  /**
   * `%d` takes a sign: `(-n:offset)` is an interval whose size is -n stored into the `uint32_t`,
   * that is 2^32 - n.
   */
  lemma OffsetsNegativeSize(n: nat, off: u64)
    ensures OffsetsFromArg("(-" + Format(n) + ":" + Format(off) + ")") == Some(Interval(ToU32(-(n as int)), off))
  {
    var s := "(-" + Format(n) + ":" + Format(off) + ")";
    ScanNegativeInterval(n, off);
    var v := ScanNumbers(OFFSETS_FORMAT, s);
    StepNegativeNum(End, n, "", 0, [], "");
    SignedValueFormat(off);
    assert v[0] == -(n as int) && v[1] == off;
    FitsUnchanged(off);
  }

  /** The scan behind `OffsetsNegativeSize`: two conversions, the first with its sign. */
  lemma ScanNegativeInterval(n: nat, off: u64)
    ensures Scanf(OFFSETS_FORMAT, "(-" + Format(n) + ":" + Format(off) + ")")
         == ScanOut(2, [['-'] + Format(n), Format(off)], "")
  {
    NegatedFormat(n);
    SignedValueFormat(off);
    NegativeIntervalShape(Format(n), Format(off));
    ScanIntervalOf(End, ['-'] + Format(n), Format(off), "");
  }

  lemma NegativeIntervalShape(a: string, b: string)
    ensures "(-" + a + ":" + b + ")" == ['('] + ((['-'] + a) + ([':'] + (b + ([')'] + ""))))
  {
  }

  /** Without an opening parenthesis nothing is read: EOF on empty input, no match otherwise. */
  lemma OffsetsNeedParenthesis(arg: string)
    requires arg == [] || arg[0] != '('
    ensures OffsetsFromArg(arg) == None
    ensures Scanf(OFFSETS_FORMAT, arg).ret == (if arg == [] then -1 else 0)
  {
  }

  /** `arg_with_offSet_timeMS` as its callers use it: an interval and a delay in milliseconds. */
  function OffsetsTimeFromArg(arg: string): Option<(Interval, u64)>
  {
    var r := Scanf(OFFSETS_TIME_FORMAT, arg);
    if r.ret == 3 then
      ScanFromCounts(OFFSETS_TIME_FORMAT, arg, 0, [], "");
      var v := ScanNumbers(OFFSETS_TIME_FORMAT, arg);
      Some((Interval(ToU32(v[0]), ToU64(v[1])), ToU64(v[2])))
    else None
  }

  /** An interval followed by a delay is read back unchanged. */
  lemma OffsetsTimeRoundTrip(iv: Interval, ms: u64)
    ensures OffsetsTimeFromArg(IntervalArg(iv) + Format(ms)) == Some((iv, ms))
  {
    var s := IntervalArg(iv) + Format(ms);
    var n2 := [Format(iv.size), Format(iv.offset)];
    var n3 := n2 + [Format(ms)];
    assert Scanf(OFFSETS_TIME_FORMAT, s) == ScanOut(3, n3, "") by {
      ScanInterval(Num(End), iv, Format(ms));
      assert Format(ms) + "" == Format(ms);
      StepNum(End, ms, "", 2, n2, "");
    }
    var v := ScanNumbers(OFFSETS_TIME_FORMAT, s);
    assert v[0] == iv.size && v[1] == iv.offset && v[2] == ms;
    FitsUnchanged(iv.size);
    FitsUnchanged(iv.offset);
    FitsUnchanged(ms);
  }

  // ---------------------------------------------------------------------------------------------
  // Replicating a word

  /** `n` bytes filled with copies of `pattern`, the last one cut short. */
  function Replicate(pattern: string, n: nat): (r: string)
    requires |pattern| > 0
    ensures |r| == n
  {
    seq(n, k requires 0 <= k => pattern[k % |pattern|])
  }

  /** `m` whole copies of `pattern`. */
  function Repeat(pattern: string, m: nat): (r: string)
    ensures |r| == m * |pattern|
  {
    if m == 0 then [] else Repeat(pattern, m - 1) + pattern
  }

  lemma {:induction false} RepeatAt(pattern: string, m: nat, k: nat)
    requires |pattern| > 0 && k < m * |pattern|
    ensures Repeat(pattern, m)[k] == pattern[k % |pattern|]
  {
    var l := |pattern|;
    assert (m - 1) * l + l == m * l;
    if k < (m - 1) * l {
      RepeatAt(pattern, m - 1, k);
    } else {
      Bits.DivModUnique(k, l, m - 1, k - (m - 1) * l);
    }
  }

  /** Replicating over `n` bytes gives the whole copies that fit, then a prefix of one more. */
  lemma ReplicateIsCopies(pattern: string, n: nat)
    requires |pattern| > 0
    ensures Replicate(pattern, n) == Repeat(pattern, n / |pattern|) + pattern[..n % |pattern|]
  {
    var l := |pattern|;
    var m := n / l;
    var whole := Repeat(pattern, m);
    var r := Replicate(pattern, n);
    var c := whole + pattern[..n % l];
    assert |c| == n;
    forall k | 0 <= k < n
      ensures r[k] == c[k]
    {
      if k < m * l {
        RepeatAt(pattern, m, k);
      } else {
        Bits.DivModUnique(k, l, m, k - m * l);
      }
    }
  }

  /** `dst` with its first bytes replaced by `data`: what `memcpy`/`strcpy` to its start leave. */
  function Overlay(dst: string, data: string): (r: string)
    requires |data| <= |dst|
    ensures |r| == |dst|
  {
    data + dst[|data|..]
  }

  /** Replicating `c` more bytes after `m` whole copies appends the first `c` bytes of the pattern. */
  lemma ReplicateExtend(pattern: string, m: nat, c: nat)
    requires 0 < |pattern| && c <= |pattern|
    ensures Replicate(pattern, m * |pattern| + c) == Replicate(pattern, m * |pattern|) + pattern[..c]
  {
    var l := |pattern|;
    var i := m * l;
    var r := Replicate(pattern, i + c);
    var q := Replicate(pattern, i) + pattern[..c];
    forall j | 0 <= j < i + c
      ensures r[j] == q[j]
    {
      if j >= i {
        Bits.DivModUnique(j, l, m, j - i);
      }
    }
  }

  /** `memcpy(buf + at, pattern, c)`. */
  method CopyChunk(buf: array<char>, at: nat, pattern: string, c: nat)
    requires c <= |pattern| && at + c <= buf.Length
    modifies buf
    ensures buf[..] == old(buf[..])[..at] + pattern[..c] + old(buf[..])[at + c..]
  {
    forall k | 0 <= k < c {
      buf[at + k] := pattern[k];
    }
  }

  /**
   * The copying loop of `arg_with_offSets` and `arg_replicate_content`: chunks of `pattern`, the
   * last one cut short, until `size` bytes are written. A `size` of zero or less writes nothing.
   */
  method FillRepeating(buf: array<char>, pattern: string, size: int)
    requires |pattern| > 0 && size <= buf.Length
    modifies buf
    ensures buf[..] == Overlay(old(buf[..]), Replicate(pattern, if size > 0 then size else 0))
  {
    var len := |pattern|;
    var i := 0;
    ghost var m: nat := 0;
    ghost var before := buf[..];
    ghost var full := Replicate(pattern, if size > 0 then size else 0);
    while i < size
      invariant 0 <= i && i == m * len
      invariant buf[..] == Overlay(before, full[..Clamp(i, size)])
      decreases size - i
    {
      var cpylen := if i + len >= size then size - i else len;
      FillOne(buf, pattern, size, i, cpylen, m, before, full);
      MulSucc(m, len);
      i := i + len;
      m := m + 1;
    }
    assert full[..Clamp(i, size)] == full;
  }

  lemma MulSucc(m: nat, len: nat)
    ensures (m + 1) * len == m * len + len
  {
  }

  /** The bytes written when the loop has reached `i` of `size`. */
  function Clamp(i: nat, size: int): nat
  {
    if i <= size then i else if size > 0 then size else 0
  }

  /** One turn of `FillRepeating`'s loop. */
  method FillOne(buf: array<char>, pattern: string, size: int, i: nat, cpylen: int,
                 ghost m: nat, ghost before: seq<char>, ghost full: seq<char>)
    requires |pattern| > 0 && size <= buf.Length && |before| == buf.Length
    requires full == Replicate(pattern, if size > 0 then size else 0)
    requires i < size && i == m * |pattern| && cpylen == (if i + |pattern| >= size then size - i else |pattern|)
    requires buf[..] == Overlay(before, full[..i])
    modifies buf
    ensures buf[..] == Overlay(before, full[..Clamp(i + |pattern|, size)])
  {
    ghost var prev := buf[..];
    CopyChunk(buf, i, pattern, cpylen);
    ReplicatePrefix(pattern, size, i);
    ReplicatePrefix(pattern, size, i + cpylen);
    ReplicateExtend(pattern, m, cpylen);
    assert prev[..i] == full[..i] && prev[i + cpylen..] == before[i + cpylen..];
    assert Clamp(i + |pattern|, size) == i + cpylen;
  }

  /** A prefix of a replication is the shorter replication. */
  lemma ReplicatePrefix(pattern: string, size: int, n: nat)
    requires |pattern| > 0 && n <= size
    ensures Replicate(pattern, size)[..n] == Replicate(pattern, n)
  {
  }

  /** The argument `arg_with_offSets` replicates: an interval and the word after it. */
  datatype Replication = Replication(interval: Interval, word: string)

  /** `sscanf(arg, "(%d:%lu)%s", ...)` filling all three. */
  function ScanOffsetsWord(arg: string): (p: Option<Replication>)
    ensures CString(arg) && p.Some? ==> PlainWord(p.value.word) && CString(p.value.word) && |p.value.word| <= |arg|
  {
    var r := Scanf(OFFSETS_WORD_FORMAT, arg);
    if r.ret == 3 then
      ScanFromCounts(OFFSETS_WORD_FORMAT, arg, 0, [], "");
      ScanFromWord(OFFSETS_WORD_FORMAT, arg, 0, [], "");
      ScanFromStoresWord(OFFSETS_WORD_FORMAT, arg, 0, [], "");
      var v := ScanNumbers(OFFSETS_WORD_FORMAT, arg);
      Some(Replication(Interval(ToU32(v[0]), ToU64(v[1])), r.word))
    else None
  }

  /** An interval followed by a plain word is read back as both. */
  lemma OffsetsWordRoundTrip(iv: Interval, w: string)
    requires PlainWord(w)
    ensures ScanOffsetsWord(IntervalArg(iv) + w) == Some(Replication(iv, w))
  {
    var s := IntervalArg(iv) + w;
    var n2 := [Format(iv.size), Format(iv.offset)];
    assert Scanf(OFFSETS_WORD_FORMAT, s) == ScanOut(3, n2, w) by {
      ScanInterval(Word(End), iv, w);
      StepWord(End, w, 2, n2, "");
    }
    var v := ScanNumbers(OFFSETS_WORD_FORMAT, s);
    assert v[0] == iv.size && v[1] == iv.offset;
    FitsUnchanged(iv.size);
    FitsUnchanged(iv.offset);
  }

  /** Room in the caller's buffer for what `arg_with_offSets` writes, which the source does not check. */
  predicate OffsetsWordFits(arg: string, bufLength: nat)
  {
    |arg| < bufLength && (ScanOffsetsWord(arg).Some? ==> ScanOffsetsWord(arg).value.interval.size <= bufLength)
  }

  /**
   * `arg_with_offSets`: for `(size:offset)word`, the word is replicated over `size` bytes of
   * `buf` (after `sscanf` stored it there with its NUL), `offset` becomes the default offset, and
   * the size is returned; any other argument is copied as it is and its length returned.
   */
  method ArgWithOffsets(arg: string, buf: array<char>, defaultOffset: u64) returns (len: u32, newDefault: u64)
    requires CString(arg) && OffsetsWordFits(arg, buf.Length)
    modifies buf
    ensures match ScanOffsetsWord(arg)
      case Some(p) =>
        && len == p.interval.size && newDefault == p.interval.offset
        && buf[..] == Overlay(Overlay(old(buf[..]), p.word + [NUL]), Replicate(p.word, len))
      case None =>
        && len == ToU32(|arg|) && newDefault == defaultOffset
        && buf[..] == Overlay(old(buf[..]), arg + [NUL])
  {
    var parsed := ScanOffsetsWord(arg);
    if parsed.Some? {
      var w := parsed.value.word;
      WriteCString(buf, w);
      newDefault := parsed.value.interval.offset;
      FillRepeating(buf, w, parsed.value.interval.size);
      len := parsed.value.interval.size;
    } else {
      WriteCString(buf, arg);
      newDefault := defaultOffset;
      len := ToU32(|arg|);
    }
  }

  /**
   * The span of counter values the loop of `arg_with_offSets` covers as written, for a counter
   * that never overflows: the counter is an `int` set from the 64-bit offset (its low 32 bits,
   * sign-extended, as GCC converts), and each test converts it back to `uint64_t` to compare it
   * with `offSet + size`. A counter that would pass INT_MAX is an `int` overflow in `i += len`,
   * which C leaves undefined; this span does not model that. The corrected loop of
   * `ArgWithOffsets` always covers `size` bytes.
   */
  function OffsetSpanAsWritten(iv: Interval): (span: int)
    ensures span >= 0
    ensures span == 0 <==> ToU64(iv.offset + iv.size) <= ToU64(ToI32(iv.offset))
  {
    var start := ToU64(ToI32(iv.offset));
    var end := ToU64(iv.offset + iv.size);
    if start < end then end - start else 0
  }

  /** While offset and size stay below 2^31 the `int` counter is harmless: the span is the size. */
  lemma OffsetSpanBelow2to31(iv: Interval)
    requires iv.offset + iv.size < 0x8000_0000
    ensures OffsetSpanAsWritten(iv) == iv.size
  {
    FitsUnchangedI32(iv.offset);
    FitsUnchanged(iv.offset);
    FitsUnchanged(iv.offset + iv.size);
  }

  /**
   * An offset from 2^31 to below 2^32, as in `(4096:3221225472)abc`: the argument is accepted and
   * its size returned, but the counter starts negative, reads as a huge unsigned value, and the
   * loop as written copies nothing, where the intended loop replicates the word over `size` bytes.
   */
  lemma OffsetCounterSkipsCopy(iv: Interval, w: string)
    requires PlainWord(w) && iv.size > 0
    requires 0x8000_0000 <= iv.offset && iv.offset + iv.size < 0x1_0000_0000
    ensures ScanOffsetsWord(IntervalArg(iv) + w) == Some(Replication(iv, w))
    ensures OffsetSpanAsWritten(iv) == 0
    ensures |Replicate(w, iv.size)| == iv.size
  {
    OffsetsWordRoundTrip(iv, w);
    OffsetSpanNegative(iv);
  }

  lemma OffsetSpanNegative(iv: Interval)
    requires 0x8000_0000 <= iv.offset && iv.offset + iv.size < 0x1_0000_0000
    ensures OffsetSpanAsWritten(iv) == 0
  {
    FitsUnchanged(iv.offset + iv.size);
    assert ToI32(iv.offset) == iv.offset - 0x1_0000_0000;
  }

  /**
   * An offset from 2^32 to below 2^32 + 2^31: the counter starts at the offset's low 32 bits, so
   * the bound as written lies `size + 2^32` counter steps away rather than `size`. A C counter
   * cannot get there: `i += len` overflows INT_MAX first, which is undefined, and the copy has
   * overrun the 8192-byte buffer long before.
   */
  lemma OffsetCounterWraps(iv: Interval)
    requires 0x1_0000_0000 <= iv.offset < 0x1_8000_0000
    ensures OffsetSpanAsWritten(iv) == iv.size + 0x1_0000_0000
  {
    assert ToI32(iv.offset) == iv.offset - 0x1_0000_0000;
    FitsUnchanged(iv.offset - 0x1_0000_0000);
    FitsUnchanged(iv.offset + iv.size);
  }

  /** `strcpy(buf, s)`, and what `sscanf`'s `%s` does with the word it stores. */
  method WriteCString(buf: array<char>, s: string)
    requires |s| < buf.Length
    modifies buf
    ensures buf[..] == Overlay(old(buf[..]), s + [NUL])
  {
    forall k | 0 <= k < |s| {
      buf[k] := s[k];
    }
    buf[|s|] := NUL;
  }

  /** The content an interval argument asks for reaches the buffer as whole copies of the word. */
  lemma ArgWithOffsetsContent(iv: Interval, w: string, old_buf: string)
    requires PlainWord(w) && iv.size as int <= |old_buf| && |w| < |old_buf|
    ensures var after := Overlay(Overlay(old_buf, w + [NUL]), Replicate(w, iv.size));
      after[..iv.size] == Repeat(w, iv.size as nat / |w|) + w[..iv.size as nat % |w|]
  {
    ReplicateIsCopies(w, iv.size);
  }

  // ---------------------------------------------------------------------------------------------
  // arg_replicate_content

  /**
   * What `sscanf` stores for `arg_replicate_content`: with a delay to fill, `"%d(%d)%s"` (the
   * delay, the size, the word); without, `"(%d)%s"` (the size, the word). A number is stored only
   * when its conversion succeeded; `size` starts at 0.
   */
  datatype ReplicateScan = ReplicateScan(ret: int, timeMs: Option<u32>, size: i32, word: string)

  function ScanReplicate(optarg: string, timeMs: Option<u32>): (p: ReplicateScan)
    ensures CString(optarg) && p.ret == (if timeMs.Some? then 3 else 2) ==> PlainWord(p.word) && CString(p.word) && |p.word| <= |optarg|
  {
    var timed := timeMs.Some?;
    var fmt := if timed then TIME_SIZE_WORD_FORMAT else SIZE_WORD_FORMAT;
    var r := Scanf(fmt, optarg);
    var sizeIndex := if timed then 1 else 0;
    var v := ScanNumbers(fmt, optarg);
    ScanFromWord(fmt, optarg, 0, [], "");
    ScanFromStoresWord(fmt, optarg, 0, [], "");
    assert Conversions(fmt) == (if timed then 3 else 2) && HasWord(fmt);
    ReplicateScan(
      r.ret,
      if timed && |v| >= 1 then Some(ToU32(v[0])) else timeMs,
      if |v| > sizeIndex then ToI32(v[sizeIndex]) else 0,
      r.word)
  }

  /** The condition as written: without a delay, both conversions; with one, any non-zero count. */
  predicate ReplicateTakenAsWritten(timed: bool, ret: int)
  {
    (!timed && ret == 2) || (timed && ret != 0)
  }

  /** The condition as intended: every conversion, so that the word was stored. */
  predicate ReplicateTaken(timed: bool, ret: int)
  {
    ret == (if timed then 3 else 2)
  }

  /** The C string at the start of a buffer: what `strdup` copies. */
  function CStringAt(buf: string): (s: string)
    ensures |s| <= |buf| && CString(s)
  {
    if buf == [] || buf[0] == NUL then [] else [buf[0]] + CStringAt(buf[1..])
  }

  /**
   * The pattern the source replicates: the word `sscanf` stored, or, when it took the branch
   * without storing one, whatever C string the buffer already held.
   */
  function PatternAsWritten(p: ReplicateScan, timed: bool, oldBuf: string): string
  {
    if ReplicateTaken(timed, p.ret) then p.word else CStringAt(oldBuf)
  }

  /**
   * With a delay to fill, `5(7)` converts only two numbers, yet the source replicates: its pattern
   * is whatever the buffer held, and when that is empty the loop `i += len` stays at 0 below the
   * size 7 and never ends. The intended condition sends the argument to the plain copy instead.
   */
  lemma ReplicateStallsAsWritten(oldBuf: string, steps: nat)
    requires oldBuf != [] && oldBuf[0] == NUL
    ensures var p := ScanReplicate("5(7)", Some(0));
      && p.ret == 2 && p.size == 7 && p.timeMs == Some(5)
      && ReplicateTakenAsWritten(true, p.ret)
      && PatternAsWritten(p, true, oldBuf) == []
      && steps * |PatternAsWritten(p, true, oldBuf)| < p.size
      && !ReplicateTaken(true, p.ret)
  {
    var s := "5(7)";
    ScanFiveSeven();
    var v := ScanNumbers(TIME_SIZE_WORD_FORMAT, s);
    assert v[0] == 5 && v[1] == 7;
    FitsUnchanged(5);
    FitsUnchangedI32(7);
  }

  /** `"5(7)"` against `"%d(%d)%s"`: two numbers, and the input ends before the word. */
  lemma ScanFiveSeven()
    ensures Scanf(TIME_SIZE_WORD_FORMAT, "5(7)") == ScanOut(2, [Format(5), Format(7)], "")
  {
    var f5, f7 := Format(5), Format(7);
    var n1: seq<string> := [f5];
    var r := ScanOut(2, [f5, f7], "");
    assert ScanFrom(Word(End), "", 2, [f5, f7], "") == r;
    assert ScanFrom(Num(Lit(')', Word(End))), f7 + ([')'] + ""), 1, n1, "") == r by {
      assert n1 + [f7] == [f5, f7];
      StepNumLit(')', Word(End), 7, "", 1, n1);
    }
    assert ScanFrom(TIME_SIZE_WORD_FORMAT, f5 + (['('] + (f7 + ([')'] + ""))), 0, [], "") == r by {
      assert [] + [f5] == n1;
      StepNumLit('(', Num(Lit(')', Word(End))), 5, f7 + ([')'] + ""), 0, []);
    }
    assert f5 == "5" && f7 == "7";
    assert "5(7)" == f5 + (['('] + (f7 + ([')'] + "")));
  }

  /** Room for what `arg_replicate_content` writes, which the source does not check. */
  predicate ReplicateFits(arg: string, optarg: string, timeMs: Option<u32>, bufLength: nat)
  {
    |arg| < bufLength && |optarg| < bufLength && ScanReplicate(optarg, timeMs).size <= bufLength
  }

  /**
   * `arg_replicate_content`, with the condition corrected to require every conversion: the
   * word is replicated over `size` bytes and the size returned; otherwise `arg` is copied and its
   * length returned. A delay the scan stored is written back either way.
   */
  method ArgReplicateContent(arg: string, optarg: string, buf: array<char>, timeMs: Option<u32>)
    returns (len: int, timeMs': Option<u32>)
    requires CString(arg) && CString(optarg) && ReplicateFits(arg, optarg, timeMs, buf.Length)
    modifies buf
    ensures var p := ScanReplicate(optarg, timeMs);
      && timeMs' == p.timeMs
      && (ReplicateTaken(timeMs.Some?, p.ret) ==>
            && len == p.size
            && buf[..] == Overlay(Overlay(old(buf[..]), p.word + [NUL]),
                                  Replicate(p.word, if p.size > 0 then p.size else 0)))
      && (!ReplicateTaken(timeMs.Some?, p.ret) ==>
            len == |arg| && buf[..] == Overlay(old(buf[..]), arg + [NUL]))
  {
    var p := ScanReplicate(optarg, timeMs);
    timeMs' := p.timeMs;
    if ReplicateTaken(timeMs.Some?, p.ret) {
      WriteCString(buf, p.word);
      FillRepeating(buf, p.word, p.size);
      len := p.size;
    } else {
      WriteCString(buf, arg);
      len := |arg|;
    }
  }

  /** A size-and-word argument is read back as both, and its word is replicated. */
  lemma ReplicateRoundTrip(size: nat, w: string)
    requires size < 0x8000_0000 && PlainWord(w)
    ensures var p := ScanReplicate("(" + Format(size) + ")" + w, None);
      ReplicateTaken(false, p.ret) && p.size == size && p.word == w && p.timeMs == None
  {
    var s := "(" + Format(size) + ")" + w;
    ScanSizeWord(size, w);
    var v := ScanNumbers(SIZE_WORD_FORMAT, s);
    assert v[0] == size;
    FitsUnchangedI32(size);
  }

  lemma ScanSizeWord(size: nat, w: string)
    requires PlainWord(w)
    ensures Scanf(SIZE_WORD_FORMAT, "(" + Format(size) + ")" + w) == ScanOut(2, [Format(size)], w)
  {
    var f := Format(size);
    ScanSizeWordTail(size, w);
    SizeWordShape(f, w);
    StepLit('(', Num(Lit(')', Word(End))), f + ([')'] + w), 0, [], "");
  }

  /** The part of `ScanSizeWord` after the `(`. */
  lemma ScanSizeWordTail(size: nat, w: string)
    requires PlainWord(w)
    ensures ScanFrom(Num(Lit(')', Word(End))), Format(size) + ([')'] + w), 0, [], "")
         == ScanOut(2, [Format(size)], w)
  {
    var n1: seq<string> := [Format(size)];
    assert [] + n1 == n1;
    StepNumLit(')', Word(End), size, w, 0, []);
    StepWord(End, w, 1, n1, "");
  }

  lemma SizeWordShape(f: string, w: string)
    ensures "(" + f + ")" + w == ['('] + (f + ([')'] + w))
  {
  }

  // ---------------------------------------------------------------------------------------------
  // Flags

  /** `arg_true_or_false`: the words `true` and `false`, and the default for anything else. */
  function ArgTrueOrFalse(arg: string, default: bool): (b: bool)
    ensures arg == "true" ==> b
    ensures arg == "false" ==> !b
    ensures arg != "true" && arg != "false" ==> b == default
  {
    if arg == "true" then true
    else if arg == "false" then false
    else default
  }
}
