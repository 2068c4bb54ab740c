/**
 * The part of C's `sscanf` that fbdd's console uses to read its option arguments: literal
 * characters, decimal numbers with an optional sign (`%d`, `%lu`) and words (`%s`). The result counts the
 * conversions made; it is -1 (EOF) when the input ends before the first conversion.
 */
module CScanf {
  import opened Decimal

  /** A format string, one directive at a time. */
  datatype Fmt =
    | End
    | Lit(c: char, next: Fmt)  // an ordinary character of the format, matched exactly
    | Num(next: Fmt)           // %d or %lu: optional white space, an optional sign, then a run of digits
    | Word(next: Fmt)          // %s: optional white space, then a run of non-white-space characters

  /**
   * What `sscanf` returns and stores: the text of each number converted, in order (their
   * values are `SignedValue` of them), and the word if one was read.
   */
  datatype ScanOut = ScanOut(ret: int, nums: seq<string>, word: string)

  predicate IsSpace(c: char)
  {
    c == ' ' || c == '\t' || c == '\n' || c == '\r' || c == '\U{B}' || c == '\U{C}'
  }

  /** A word that `%s` reads whole: non-empty and without white space. */
  predicate PlainWord(w: string)
  {
    |w| > 0 && forall k :: 0 <= k < |w| ==> !IsSpace(w[k])
  }

  /** The input after its leading white space. */
  function SkipSpace(s: string): (t: string)
    ensures |t| <= |s|
    ensures t == [] || !IsSpace(t[0])
  {
    if s != [] && IsSpace(s[0]) then SkipSpace(s[1..]) else s
  }

  /** The length of the run of digits the input starts with. */
  function DigitRun(s: string): (n: nat)
    ensures n <= |s| && AllDigits(s[..n]) && (n < |s| ==> !IsDigit(s[n]))
  {
    if s != [] && IsDigit(s[0]) then
      var n := 1 + DigitRun(s[1..]);
      assert s[..n] == [s[0]] + s[1..][..n - 1];
      n
    else 0
  }

  /** The length of the optional sign a number starts with. */
  function SignRun(s: string): (k: nat)
    ensures k <= 1 && k <= |s|
  {
    if s != [] && (s[0] == '+' || s[0] == '-') then 1 else 0
  }

  /** The text of a number `%d` or `%lu` converts: an optional sign, then at least one digit. */
  predicate Numeral(s: string)
  {
    SignRun(s) < |s| && AllDigits(s[SignRun(s)..])
  }

  /**
   * The value of a numeral as an unbounded integer: negated after a minus sign. C leaves the
   * result undefined when this value does not fit the conversion's type (glibc saturates it);
   * the callers reduce it modulo 2^32 or 2^64 to the width of their variables.
   */
  function SignedValue(s: string): int
    requires Numeral(s)
  {
    var v: int := Value(s[SignRun(s)..]);
    if s[0] == '-' then -v else v
  }

  /** The length of the run of non-white-space characters the input starts with. */
  function WordRun(s: string): (n: nat)
    ensures n <= |s| && (n < |s| ==> IsSpace(s[n]))
    ensures forall k :: 0 <= k < n ==> !IsSpace(s[k])
  {
    if s != [] && !IsSpace(s[0]) then 1 + WordRun(s[1..]) else 0
  }

  /** The result when the input runs out: EOF if nothing was converted yet. */
  function InputFailure(count: nat, nums: seq<string>, word: string): (r: ScanOut)
    ensures r.ret == -1 <==> count == 0
    ensures r.ret == -1 || r.ret == count
  {
    ScanOut(if count == 0 then -1 else count, nums, word)
  }

  /** Scanning the rest `s` of the input against the rest of the format. */
  function ScanFrom(fmt: Fmt, s: string, count: nat, nums: seq<string>, word: string): (r: ScanOut)
    ensures r.ret == -1 ==> count == 0
    ensures r.ret >= -1
  {
    match fmt
    case End => ScanOut(count, nums, word)
    case Lit(c, next) =>
      if s == [] then InputFailure(count, nums, word)
      else if s[0] == c then ScanFrom(next, s[1..], count, nums, word)
      else ScanOut(count, nums, word)
    case Num(next) =>
      var t := SkipSpace(s);
      if t == [] then InputFailure(count, nums, word)
      else
        var k := SignRun(t);
        var n := DigitRun(t[k..]);
        if n == 0 then ScanOut(count, nums, word)
        else ScanFrom(next, t[k + n..], count + 1, nums + [t[..k + n]], word)
    case Word(next) =>
      var t := SkipSpace(s);
      if t == [] then InputFailure(count, nums, word)
      else
        var n := WordRun(t);
        ScanFrom(next, t[n..], count + 1, nums, t[..n])
  }

  /** `sscanf(s, fmt, ...)`. */
  function Scanf(fmt: Fmt, s: string): ScanOut
  {
    ScanFrom(fmt, s, 0, [], "")
  }

  /** The number of conversions a format asks for. */
  function Conversions(fmt: Fmt): nat
  {
    match fmt
    case End => 0
    case Lit(_, next) => Conversions(next)
    case Num(next) => 1 + Conversions(next)
    case Word(next) => 1 + Conversions(next)
  }

  /** The number of `%d`/`%lu` directives of a format. */
  function NumCount(fmt: Fmt): nat
  {
    match fmt
    case End => 0
    case Lit(_, next) => NumCount(next)
    case Num(next) => 1 + NumCount(next)
    case Word(next) => NumCount(next)
  }

  predicate HasWord(fmt: Fmt)
  {
    match fmt
    case End => false
    case Lit(_, next) => HasWord(next)
    case Num(next) => HasWord(next)
    case Word(_) => true
  }

  lemma {:induction false} NumCountBound(fmt: Fmt)
    ensures NumCount(fmt) <= Conversions(fmt)
  {
    match fmt
    case End =>
    case Lit(_, next) => NumCountBound(next);
    case Num(next) => NumCountBound(next);
    case Word(next) => NumCountBound(next);
  }

  /**
   * The conversion count and the numbers stored agree: no scan converts more than the format
   * asks for, and a scan that converts everything stores one number per `%d`/`%lu`.
   */
  lemma ScanFromCounts(fmt: Fmt, s: string, count: nat, nums: seq<string>, word: string)
    ensures var r := ScanFrom(fmt, s, count, nums, word);
      && r.ret <= count + Conversions(fmt)
      && (r.ret == count + Conversions(fmt) ==> |r.nums| == |nums| + NumCount(fmt))
      && |nums| <= |r.nums|
  {
    ScanFromBound(fmt, s, count, nums, word);
    ScanFromFull(fmt, s, count, nums, word);
  }

  /** The count never passes the conversions asked for, and numbers are only ever appended. */
  lemma {:induction false} ScanFromBound(fmt: Fmt, s: string, count: nat, nums: seq<string>, word: string)
    ensures var r := ScanFrom(fmt, s, count, nums, word);
      r.ret <= count + Conversions(fmt) && |nums| <= |r.nums|
  {
    match fmt
    case End =>
    case Lit(c, next) =>
      if s != [] && s[0] == c {
        ScanFromBound(next, s[1..], count, nums, word);
      }
    case Num(next) =>
      var t := SkipSpace(s);
      if t != [] && DigitRun(t[SignRun(t)..]) != 0 {
        var m := SignRun(t) + DigitRun(t[SignRun(t)..]);
        ScanFromBound(next, t[m..], count + 1, nums + [t[..m]], word);
      }
    case Word(next) =>
      var t := SkipSpace(s);
      if t != [] {
        var n := WordRun(t);
        ScanFromBound(next, t[n..], count + 1, nums, t[..n]);
      }
  }

  /** A scan that converts everything stores one number per `%d`/`%lu`. */
  lemma {:induction false} ScanFromFull(fmt: Fmt, s: string, count: nat, nums: seq<string>, word: string)
    ensures var r := ScanFrom(fmt, s, count, nums, word);
      r.ret == count + Conversions(fmt) ==> |r.nums| == |nums| + NumCount(fmt)
    decreases fmt, 1
  {
    NumCountBound(fmt);
    var r := ScanFrom(fmt, s, count, nums, word);
    match fmt
    case End =>
    case Lit(c, next) =>
      if s != [] && s[0] == c {
        ScanFromFull(next, s[1..], count, nums, word);
      }
    case Num(next) =>
      ScanFromFullNum(fmt, s, count, nums, word);
    case Word(next) =>
      var t := SkipSpace(s);
      if t != [] {
        var n := WordRun(t);
        ScanFromFull(next, t[n..], count + 1, nums, t[..n]);
      } else {
        assert r.ret == -1 || r.ret == count;
      }
  }

  /** The `%d` step of `ScanFromFull`. */
  lemma {:induction false} ScanFromFullNum(fmt: Fmt, s: string, count: nat, nums: seq<string>, word: string)
    requires fmt.Num?
    ensures var r := ScanFrom(fmt, s, count, nums, word);
      r.ret == count + Conversions(fmt) ==> |r.nums| == |nums| + NumCount(fmt)
    decreases fmt, 0
  {
    var r := ScanFrom(fmt, s, count, nums, word);
    var t := SkipSpace(s);
    if t == [] {
      assert r.ret == -1 || r.ret == count;
    } else {
      var k := SignRun(t);
      var n := DigitRun(t[k..]);
      if n == 0 {
        assert r.ret == count;
      } else {
        assert r == ScanFrom(fmt.next, t[k + n..], count + 1, nums + [t[..k + n]], word);
        ScanFromFull(fmt.next, t[k + n..], count + 1, nums + [t[..k + n]], word);
      }
    }
  }

  lemma {:induction false} HasWordConverts(fmt: Fmt)
    requires HasWord(fmt)
    ensures Conversions(fmt) >= 1
  {
    match fmt
    case Lit(_, next) => HasWordConverts(next);
    case Num(next) =>
    case Word(_) =>
  }

  /**
   * The word a `%s` stores is a piece of the input: a plain word no longer than the input, made
   * only of characters the input holds.
   */
  lemma {:induction false} ScanFromWord(fmt: Fmt, s: string, count: nat, nums: seq<string>, word: string)
    ensures var r := ScanFrom(fmt, s, count, nums, word);
      r.word == word || (PlainWord(r.word) && |r.word| <= |s| && forall c :: c in r.word ==> c in s)
  {
    var r := ScanFrom(fmt, s, count, nums, word);
    match fmt
    case End =>
    case Lit(c, next) =>
      if s != [] && s[0] == c {
        assert r == ScanFrom(next, s[1..], count, nums, word);
        ScanFromWord(next, s[1..], count, nums, word);
      } else {
        assert r.word == word;
      }
    case Num(next) =>
      var t := SkipSpace(s);
      if t == [] {
        assert r.word == word;
      } else {
        var k := SignRun(t);
        var n := DigitRun(t[k..]);
        if n == 0 {
          assert r.word == word;
        } else {
          var m := k + n;
          assert r == ScanFrom(next, t[m..], count + 1, nums + [t[..m]], word);
          ScanFromWord(next, t[m..], count + 1, nums + [t[..m]], word);
          SuffixChars(s, t);
        }
      }
    case Word(next) =>
      var t := SkipSpace(s);
      if t != [] {
        var n := WordRun(t);
        assert r == ScanFrom(next, t[n..], count + 1, nums, t[..n]);
        assert !IsSpace(t[0]);
        ScanFromWord(next, t[n..], count + 1, nums, t[..n]);
        SuffixChars(s, t);
      } else {
        assert r.word == word;
      }
  }

  /** A scan that converts everything of a format with a `%s` has stored a word. */
  lemma {:induction false} ScanFromStoresWord(fmt: Fmt, s: string, count: nat, nums: seq<string>, word: string)
    requires HasWord(fmt)
    ensures var r := ScanFrom(fmt, s, count, nums, word);
      r.ret == count + Conversions(fmt) ==> r.word != []
  {
    HasWordConverts(fmt);
    var r := ScanFrom(fmt, s, count, nums, word);
    match fmt
    case Lit(c, next) =>
      if s != [] && s[0] == c {
        assert r == ScanFrom(next, s[1..], count, nums, word);
        ScanFromStoresWord(next, s[1..], count, nums, word);
      } else {
        assert r.ret == -1 || r.ret == count;
      }
    case Num(next) =>
      var t := SkipSpace(s);
      if t != [] && DigitRun(t[SignRun(t)..]) != 0 {
        var m := SignRun(t) + DigitRun(t[SignRun(t)..]);
        assert r == ScanFrom(next, t[m..], count + 1, nums + [t[..m]], word);
        ScanFromStoresWord(next, t[m..], count + 1, nums + [t[..m]], word);
      } else {
        assert r.ret == -1 || r.ret == count;
      }
    case Word(next) =>
      var t := SkipSpace(s);
      if t != [] {
        var n := WordRun(t);
        assert r == ScanFrom(next, t[n..], count + 1, nums, t[..n]);
        ScanFromWord(next, t[n..], count + 1, nums, t[..n]);
        assert !IsSpace(t[0]);
      } else {
        assert r.ret == -1 || r.ret == count;
      }
  }

  predicate AllRuns(nums: seq<string>)
  {
    forall k :: 0 <= k < |nums| ==> Numeral(nums[k])
  }

  /** Every number stored is an optional sign followed by a non-empty run of digits. */
  lemma {:induction false} ScanFromDigits(fmt: Fmt, s: string, count: nat, nums: seq<string>, word: string)
    requires AllRuns(nums)
    ensures AllRuns(ScanFrom(fmt, s, count, nums, word).nums)
  {
    var r := ScanFrom(fmt, s, count, nums, word);
    match fmt
    case End =>
    case Lit(c, next) =>
      if s != [] && s[0] == c {
        assert r == ScanFrom(next, s[1..], count, nums, word);
        ScanFromDigits(next, s[1..], count, nums, word);
      } else {
        assert r.nums == nums;
      }
    case Num(next) =>
      var t := SkipSpace(s);
      if t != [] && DigitRun(t[SignRun(t)..]) != 0 {
        var k := SignRun(t);
        var n := DigitRun(t[k..]);
        var m := k + n;
        assert r == ScanFrom(next, t[m..], count + 1, nums + [t[..m]], word);
        assert Numeral(t[..m]) by {
          assert SignRun(t[..m]) == k;
          assert t[..m][k..] == t[k..][..n];
        }
        assert AllRuns(nums + [t[..m]]) by {
          assert forall j :: 0 <= j < |nums| ==> (nums + [t[..m]])[j] == nums[j];
        }
        ScanFromDigits(next, t[m..], count + 1, nums + [t[..m]], word);
      } else {
        assert r.nums == nums;
      }
    case Word(next) =>
      var t := SkipSpace(s);
      if t != [] {
        var n := WordRun(t);
        assert r == ScanFrom(next, t[n..], count + 1, nums, t[..n]);
        ScanFromDigits(next, t[n..], count + 1, nums, t[..n]);
      } else {
        assert r.nums == nums;
      }
  }

  /** The values of the numbers `sscanf(s, fmt, ...)` stores, in order. */
  function ScanNumbers(fmt: Fmt, s: string): (vs: seq<int>)
    ensures |vs| == |Scanf(fmt, s).nums|
  {
    var r := Scanf(fmt, s);
    ScanFromDigits(fmt, s, 0, [], "");
    assert AllRuns(r.nums);
    seq(|r.nums|, k requires 0 <= k < |r.nums| => SignedValue(r.nums[k]))
  }

  /** A number printed in decimal is a numeral of its own value. */
  lemma SignedValueFormat(n: nat)
    ensures Numeral(Format(n)) && SignedValue(Format(n)) == n
  {
    var f := Format(n);
    assert IsDigit(f[0]) && SignRun(f) == 0 && f[0..] == f;
  }

  /** What `SkipSpace` leaves is a piece of the input. */
  lemma {:induction false} SuffixChars(s: string, t: string)
    requires t == SkipSpace(s)
    ensures forall c :: c in t ==> c in s
  {
    if s != [] && IsSpace(s[0]) {
      SuffixChars(s[1..], t);
    }
  }

  // ---------------------------------------------------------------------------------------------
  // Reading back what printf wrote

  lemma StepLit(c: char, next: Fmt, t: string, count: nat, nums: seq<string>, word: string)
    ensures ScanFrom(Lit(c, next), [c] + t, count, nums, word) == ScanFrom(next, t, count, nums, word)
  {
    assert ([c] + t)[1..] == t;
  }

  /** A number written by `printf("%u")` and followed by a non-digit is converted whole. */
  lemma StepNum(next: Fmt, n: nat, t: string, count: nat, nums: seq<string>, word: string)
    requires t == [] || !IsDigit(t[0])
    ensures ScanFrom(Num(next), Format(n) + t, count, nums, word) == ScanFrom(next, t, count + 1, nums + [Format(n)], word)
  {
    var f := Format(n);
    var s := f + t;
    assert s[0] == f[0] && IsDigit(f[0]);
    assert SkipSpace(s) == s;
    assert SignRun(s) == 0 && s[0..] == s;
    DigitRunOf(s, |f|);
    assert s[..|f|] == f && s[|f|..] == t;
  }

  /** A number printed with a minus sign and followed by a non-digit is converted whole, negated. */
  lemma StepNegativeNum(next: Fmt, n: nat, t: string, count: nat, nums: seq<string>, word: string)
    requires t == [] || !IsDigit(t[0])
    ensures ScanFrom(Num(next), ['-'] + Format(n) + t, count, nums, word)
         == ScanFrom(next, t, count + 1, nums + [['-'] + Format(n)], word)
    ensures Numeral(['-'] + Format(n)) && SignedValue(['-'] + Format(n)) == -(n as int)
  {
    NegatedFormat(n);
    StepNumeral(next, ['-'] + Format(n), t, count, nums, word);
  }

  /** A number printed with a minus sign is a numeral of the negated value. */
  lemma NegatedFormat(n: nat)
    ensures Numeral(['-'] + Format(n)) && SignedValue(['-'] + Format(n)) == -(n as int)
  {
    var f := Format(n);
    assert (['-'] + f)[1..] == f;
  }

  /** Any numeral followed by a non-digit is converted whole. */
  lemma StepNumeral(next: Fmt, d: string, t: string, count: nat, nums: seq<string>, word: string)
    requires Numeral(d) && (t == [] || !IsDigit(t[0]))
    ensures ScanFrom(Num(next), d + t, count, nums, word) == ScanFrom(next, t, count + 1, nums + [d], word)
  {
    var s := d + t;
    var k := SignRun(d);
    var e := |d| - k;
    assert s[0] == d[0] && !IsSpace(d[0]) by {
      assert d[0] == '+' || d[0] == '-' || IsDigit(d[k..][0]);
    }
    assert SkipSpace(s) == s && SignRun(s) == k;
    assert s[k..][..e] == d[k..];
    assert e < |s[k..]| ==> s[k..][e] == t[0];
    DigitRunOf(s[k..], e);
    assert s[..k + e] == d && s[k + e..] == t;
  }

  lemma {:induction false} DigitRunOf(s: string, e: nat)
    requires e <= |s| && AllDigits(s[..e]) && (e < |s| ==> !IsDigit(s[e]))
    ensures DigitRun(s) == e
  {
    if e > 0 {
      assert IsDigit(s[..e][0]);
      assert s[1..][..e - 1] == s[..e][1..];
      DigitRunOf(s[1..], e - 1);
    }
  }

  /** A plain word that ends the input is converted whole. */
  lemma StepWord(next: Fmt, w: string, count: nat, nums: seq<string>, word: string)
    requires PlainWord(w)
    ensures ScanFrom(Word(next), w, count, nums, word) == ScanFrom(next, [], count + 1, nums, w)
  {
    assert SkipSpace(w) == w;
    WordRunOf(w);
    assert w[..|w|] == w && w[|w|..] == [];
  }

  lemma {:induction false} WordRunOf(w: string)
    requires forall k :: 0 <= k < |w| ==> !IsSpace(w[k])
    ensures WordRun(w) == |w|
  {
    if w != [] {
      WordRunOf(w[1..]);
    }
  }
}
