/**
 * The Sphinx configuration of the BDUS documentation (bdus/docs/conf.py): the
 * version token taken from the Makefile, Python's `str.format` as the file
 * uses it, and the values derived from the version.
 */
module DocsConf {
  import opened Wrappers
  import Decimal

  // ---------------------------------------------------------------------------
  // Strings

  /** Number of occurrences of c in s. */
  function Count(s: string, c: char): nat
  {
    if s == [] then 0 else (if s[0] == c then 1 else 0) + Count(s[1..], c)
  }

  lemma {:induction false} CountAppend(a: string, b: string, c: char)
    ensures Count(a + b, c) == Count(a, c) + Count(b, c)
  {
    if a != [] {
      assert (a + b)[0] == a[0];
      assert (a + b)[1..] == a[1..] + b;
      CountAppend(a[1..], b, c);
    } else {
      assert a + b == b;
    }
  }

  lemma {:induction false} CountAbsent(s: string, c: char)
    requires c !in s
    ensures Count(s, c) == 0
  {
    if s != [] {
      assert c !in s[1..];
      CountAbsent(s[1..], c);
    }
  }

  /** First position of c in s. */
  function IndexOf(s: string, c: char): (r: Option<nat>)
    ensures r.Some? ==> r.value < |s| && s[r.value] == c && c !in s[..r.value]
    ensures r.None? ==> c !in s
  {
    if s == [] then None
    else if s[0] == c then Some(0)
    else
      match IndexOf(s[1..], c)
      case None => None
      case Some(j) => assert s[..j + 1] == [s[0]] + s[1..][..j]; Some(j + 1)
  }

  /** Python's `s.split(sep)`: the pieces between separators, empty pieces kept. */
  function Split(s: string, sep: char): (r: seq<string>)
    ensures |r| >= 1
    ensures forall k :: 0 <= k < |r| ==> sep !in r[k]
  {
    match IndexOf(s, sep)
    case None => [s]
    case Some(j) => [s[..j]] + Split(s[j + 1..], sep)
  }

  predicate BraceFree(s: string) { '{' !in s && '}' !in s }

  // ---------------------------------------------------------------------------
  // str.format

  datatype FormatError =
    | SingleOpenBrace        // '{' with no closing '}'
    | SingleCloseBrace       // '}' that is neither doubled nor closes a field
    | OpenBraceInField       // '{' inside a field name
    | MissingKey(name: string)
    | MissingPositional

  function Prepend(p: string, r: Result<string, FormatError>): Result<string, FormatError>
  {
    if r.Ok? then Ok(p + r.value) else r
  }

  /**
   * `template.format(*positional, **named)` for the forms conf.py uses: `{{` and
   * `}}` escapes, named fields `{name}` and automatically numbered fields `{}`;
   * `next` is the number of automatic fields already consumed.
   */
  function FormatFrom(t: string, named: map<string, string>, positional: seq<string>, next: nat): Result<string, FormatError>
    decreases |t|
  {
    if t == [] then Ok([])
    else if t[0] == '{' then
      if |t| > 1 && t[1] == '{' then Prepend("{", FormatFrom(t[2..], named, positional, next))
      else
        match IndexOf(t[1..], '}')
        case None => Err(SingleOpenBrace)
        case Some(j) =>
          var name := t[1..j + 1];
          if '{' in name then Err(OpenBraceInField)
          else if name == "" then
            if next < |positional| then Prepend(positional[next], FormatFrom(t[j + 2..], named, positional, next + 1))
            else Err(MissingPositional)
          else if name in named then Prepend(named[name], FormatFrom(t[j + 2..], named, positional, next))
          else Err(MissingKey(name))
    else if t[0] == '}' then
      if |t| > 1 && t[1] == '}' then Prepend("}", FormatFrom(t[2..], named, positional, next))
      else Err(SingleCloseBrace)
    else Prepend([t[0]], FormatFrom(t[1..], named, positional, next))
  }

  function Format(t: string, named: map<string, string>, positional: seq<string>): Result<string, FormatError>
  {
    FormatFrom(t, named, positional, 0)
  }

  /** Text without braces is copied unchanged. */
  lemma {:induction false} FormatPlain(p: string, rest: string, named: map<string, string>, positional: seq<string>, next: nat)
    requires BraceFree(p)
    ensures FormatFrom(p + rest, named, positional, next) == Prepend(p, FormatFrom(rest, named, positional, next))
  {
    var r := FormatFrom(rest, named, positional, next);
    if p != [] {
      assert p[0] in p;
      assert (p + rest)[0] == p[0];
      assert (p + rest)[1..] == p[1..] + rest;
      assert BraceFree(p[1..]);
      FormatPlain(p[1..], rest, named, positional, next);
      PrependAssoc([p[0]], p[1..], r);
      assert [p[0]] + p[1..] == p;
    } else {
      assert p + rest == rest;
      assert r.Ok? ==> [] + r.value == r.value;
    }
  }

  /** A named field is replaced by its value. */
  lemma FormatNamedField(name: string, rest: string, named: map<string, string>, positional: seq<string>, next: nat)
    requires name != "" && BraceFree(name) && name in named
    ensures FormatFrom("{" + name + "}" + rest, named, positional, next)
         == Prepend(named[name], FormatFrom(rest, named, positional, next))
  {
    var t := "{" + name + "}" + rest;
    assert t[0] == '{' && t[1] == name[0] && name[0] in name;
    assert t[1..] == name + "}" + rest;
    IndexOfAfter(name, rest);
    assert t[1..|name| + 1] == name;
    assert t[|name| + 2..] == rest;
  }

  /** A named field whose name is not supplied raises KeyError. */
  lemma FormatMissingField(name: string, rest: string, named: map<string, string>, positional: seq<string>, next: nat)
    requires name != "" && BraceFree(name) && name !in named
    ensures FormatFrom("{" + name + "}" + rest, named, positional, next) == Err(MissingKey(name))
  {
    var t := "{" + name + "}" + rest;
    assert t[0] == '{' && t[1] == name[0] && name[0] in name;
    assert t[1..] == name + "}" + rest;
    IndexOfAfter(name, rest);
    assert t[1..|name| + 1] == name;
  }

  /** An automatically numbered field takes the next positional argument. */
  lemma FormatAutoField(rest: string, named: map<string, string>, positional: seq<string>, next: nat)
    requires next < |positional|
    ensures FormatFrom("{}" + rest, named, positional, next)
         == Prepend(positional[next], FormatFrom(rest, named, positional, next + 1))
  {
    var t := "{}" + rest;
    assert t[1..] == "}" + rest;
    assert t[1..1] == "";
    assert t[2..] == rest;
  }

  lemma FormatEscapedBraces(rest: string, named: map<string, string>, positional: seq<string>, next: nat)
    ensures FormatFrom("{{" + rest, named, positional, next) == Prepend("{", FormatFrom(rest, named, positional, next))
    ensures FormatFrom("}}" + rest, named, positional, next) == Prepend("}", FormatFrom(rest, named, positional, next))
  {
    assert ("{{" + rest)[2..] == rest;
    assert ("}}" + rest)[2..] == rest;
  }

  lemma {:induction false} IndexOfAfter(name: string, rest: string)
    requires '}' !in name
    ensures IndexOf(name + "}" + rest, '}') == Some(|name|)
  {
    var s := name + "}" + rest;
    if name == [] {
      assert s[0] == '}';
    } else {
      assert s[0] == name[0];
      assert s[1..] == name[1..] + "}" + rest;
      IndexOfAfter(name[1..], rest);
    }
  }

  lemma PrependAssoc(a: string, b: string, r: Result<string, FormatError>)
    ensures Prepend(a, Prepend(b, r)) == Prepend(a + b, r)
  {
    if r.Ok? {
      assert a + (b + r.value) == (a + b) + r.value;
    }
  }

  // ---------------------------------------------------------------------------
  // Project information (conf.py lines 14-24)

  const PROJECT := "BDUS"
  const AUTHOR := "Alberto Faria"
  const COPYRIGHT_TEMPLATE := "{year}, {author}"

  /** The copyright line for a build in the given calendar year. */
  function Copyright(year: nat): Result<string, FormatError>
  {
    Format(COPYRIGHT_TEMPLATE, map["year" := Decimal.Format(year), "author" := AUTHOR], [])
  }

  lemma CopyrightTemplateShape()
    ensures COPYRIGHT_TEMPLATE == "{" + "year" + "}" + ", " + "{" + "author" + "}"
    ensures BraceFree("year") && BraceFree("author") && BraceFree(", ")
  {
  }

  lemma CopyrightTemplateFields(env: map<string, string>)
    requires "year" in env && "author" in env
    ensures Format(COPYRIGHT_TEMPLATE, env, []) == Ok(env["year"] + ", " + env["author"])
  {
    CopyrightTemplateShape();
    FormatTwoFields("year", ", ", "author", env);
  }

  lemma CopyrightIsYearAndAuthor(year: nat)
    ensures Copyright(year) == Ok(Decimal.Format(year) + ", " + AUTHOR)
  {
    CopyrightTemplateFields(map["year" := Decimal.Format(year), "author" := AUTHOR]);
  }

  lemma FormatTwoFields(a: string, sep: string, b: string, named: map<string, string>)
    requires a != "" && BraceFree(a) && a in named
    requires b != "" && BraceFree(b) && b in named
    requires BraceFree(sep)
    ensures Format("{" + a + "}" + sep + "{" + b + "}", named, []) == Ok(named[a] + sep + named[b])
  {
    assert "{" + a + "}" + sep + "{" + b + "}" == "{" + a + "}" + (sep + ("{" + b + "}" + ""));
    FormatNamedField(a, sep + ("{" + b + "}" + ""), named, [], 0);
    FormatPlain(sep, "{" + b + "}" + "", named, [], 0);
    FormatNamedField(b, "", named, [], 0);
    assert FormatFrom("", named, [], 0) == Ok("");
    assert named[b] + "" == named[b];
    assert named[a] + (sep + named[b]) == named[a] + sep + named[b];
  }

  /** A template with one named field between brace-free text. */
  lemma FormatOneField(head: string, name: string, tail: string, named: map<string, string>)
    requires BraceFree(head) && BraceFree(tail) && name != "" && BraceFree(name)
    ensures name in named ==> Format(head + "{" + name + "}" + tail, named, []) == Ok(head + named[name] + tail)
    ensures name !in named ==> Format(head + "{" + name + "}" + tail, named, []) == Err(MissingKey(name))
  {
    assert head + "{" + name + "}" + tail == head + ("{" + name + "}" + (tail + ""));
    FormatPlain(head, "{" + name + "}" + (tail + ""), named, [], 0);
    if name in named {
      FormatNamedField(name, tail + "", named, [], 0);
      FormatPlain(tail, "", named, [], 0);
      assert FormatFrom("", named, [], 0) == Ok("");
      assert head + (named[name] + (tail + "")) == head + named[name] + tail;
    } else {
      FormatMissingField(name, tail + "", named, [], 0);
    }
  }

  /** A named field followed by a doubled-brace field: the first is filled, the second becomes `{slot}`. */
  lemma FormatFieldThenEscaped(head: string, name: string, middle: string, slot: string, tail: string, named: map<string, string>)
    requires BraceFree(head) && BraceFree(middle) && BraceFree(slot) && BraceFree(tail)
    requires name != "" && BraceFree(name) && name in named
    ensures Format(head + "{" + name + "}" + middle + "{{" + slot + "}}" + tail, named, [])
         == Ok(head + named[name] + middle + "{" + slot + "}" + tail)
  {
    var escaped := "{{" + slot + "}}" + tail;
    FormatEscapedSlot(slot, tail, named);
    FormatPlainThen(middle, escaped, "{" + slot + "}" + tail, named);
    FormatNamedThen(name, middle + escaped, middle + ("{" + slot + "}" + tail), named);
    FormatPlainThen(head, "{" + name + "}" + (middle + escaped), named[name] + (middle + ("{" + slot + "}" + tail)), named);
    FieldThenEscapedShape(head, name, middle, slot, tail, named[name]);
  }

  lemma FieldThenEscapedShape(head: string, name: string, middle: string, slot: string, tail: string, value: string)
    ensures head + "{" + name + "}" + middle + "{{" + slot + "}}" + tail
         == head + ("{" + name + "}" + (middle + ("{{" + slot + "}}" + tail)))
    ensures head + (value + (middle + ("{" + slot + "}" + tail)))
         == head + value + middle + "{" + slot + "}" + tail
  {
  }

  lemma FormatPlainThen(p: string, rest: string, v: string, named: map<string, string>)
    requires BraceFree(p) && FormatFrom(rest, named, [], 0) == Ok(v)
    ensures FormatFrom(p + rest, named, [], 0) == Ok(p + v)
  {
    FormatPlain(p, rest, named, [], 0);
  }

  lemma FormatNamedThen(name: string, rest: string, v: string, named: map<string, string>)
    requires name != "" && BraceFree(name) && name in named && FormatFrom(rest, named, [], 0) == Ok(v)
    ensures FormatFrom("{" + name + "}" + rest, named, [], 0) == Ok(named[name] + v)
  {
    FormatNamedField(name, rest, named, [], 0);
  }

  /** `{{slot}}` followed by brace-free text becomes `{slot}` and that text. */
  lemma FormatEscapedSlot(slot: string, tail: string, named: map<string, string>)
    requires BraceFree(slot) && BraceFree(tail)
    ensures FormatFrom("{{" + slot + "}}" + tail, named, [], 0) == Ok("{" + slot + "}" + tail)
  {
    var closing := "}}" + tail;
    FormatEscapedClose(tail, named);
    FormatPlain(slot, closing, named, [], 0);
    assert slot + ("}" + tail) == slot + "}" + tail;
    FormatEscapedBraces(slot + closing, named, [], 0);
    assert "{{" + slot + "}}" + tail == "{{" + (slot + closing);
    assert "{" + (slot + "}" + tail) == "{" + slot + "}" + tail;
  }

  /** `}}` followed by brace-free text becomes `}` and that text. */
  lemma FormatEscapedClose(tail: string, named: map<string, string>)
    requires BraceFree(tail)
    ensures FormatFrom("}}" + tail, named, [], 0) == Ok("}" + tail)
  {
    FormatPlainAll(tail, named, [], 0);
    FormatEscapedBraces(tail, named, [], 0);
  }

  /** Text without braces formats to itself. */
  lemma FormatPlainAll(p: string, named: map<string, string>, positional: seq<string>, next: nat)
    requires BraceFree(p)
    ensures FormatFrom(p, named, positional, next) == Ok(p)
  {
    FormatPlain(p, [], named, positional, next);
    assert p + [] == p;
  }

  // ---------------------------------------------------------------------------
  // The version token (conf.py lines 21-24)

  const VERSION_PREFIX := "VERSION := "

  /** One or more decimal digits. */
  predicate DigitRun(s: string) { |s| > 0 && Decimal.AllDigits(s) }

  /** `\d+\.\d+\.\d+`: three digit runs joined by dots; leading zeros allowed. */
  predicate IsVersion(v: string)
  {
    var parts := Split(v, '.');
    |parts| == 3 && DigitRun(parts[0]) && DigitRun(parts[1]) && DigitRun(parts[2])
  }

  /**
   * The version a Makefile line carries when it matches
   * `^VERSION := (\d+\.\d+\.\d+)$`. With the MULTILINE flag `^` and `$` anchor
   * at line boundaries and no part of the pattern matches a newline, so a match
   * is a whole line.
   */
  function LineVersion(line: string): Option<string>
  {
    if |line| >= |VERSION_PREFIX| && line[..|VERSION_PREFIX|] == VERSION_PREFIX && IsVersion(line[|VERSION_PREFIX|..])
    then Some(line[|VERSION_PREFIX|..])
    else None
  }

  /** `re.findall` over the lines, in order. */
  function FindAll(lines: seq<string>): seq<string>
  {
    if lines == [] then []
    else
      match LineVersion(lines[0])
      case Some(v) => [v] + FindAll(lines[1..])
      case None => FindAll(lines[1..])
  }

  datatype VersionError = NoVersionLine | SeveralVersionLines

  /** `[v] = re.findall(...)`: unpacking fails unless there is exactly one match. */
  function ExtractVersion(makefile: string): Result<string, VersionError>
  {
    var found := FindAll(Split(makefile, '\n'));
    if |found| == 0 then Err(NoVersionLine)
    else if |found| == 1 then Ok(found[0])
    else Err(SeveralVersionLines)
  }

  predicate Matches(lines: seq<string>, k: int)
  {
    0 <= k < |lines| && LineVersion(lines[k]).Some?
  }

  /** Line k is the one and only matching line. */
  predicate OnlyMatch(lines: seq<string>, k: int)
  {
    Matches(lines, k) && forall j :: 0 <= j < |lines| && j != k ==> !Matches(lines, j)
  }

  lemma {:induction false} FindAllEmpty(lines: seq<string>)
    ensures FindAll(lines) == [] <==> forall j :: 0 <= j < |lines| ==> !Matches(lines, j)
  {
    if lines != [] {
      FindAllEmpty(lines[1..]);
      forall j | 1 <= j < |lines| ensures Matches(lines, j) == Matches(lines[1..], j - 1) {
        assert lines[1..][j - 1] == lines[j];
      }
      if !Matches(lines, 0) && FindAll(lines) != [] {
        var j :| 0 <= j < |lines[1..]| && Matches(lines[1..], j);
        assert Matches(lines, j + 1);
      }
    }
  }

  lemma {:induction false} FindAllOnly(lines: seq<string>, k: int)
    requires OnlyMatch(lines, k)
    ensures FindAll(lines) == [LineVersion(lines[k]).value]
  {
    forall j | 1 <= j < |lines| ensures Matches(lines, j) == Matches(lines[1..], j - 1) {
      assert lines[1..][j - 1] == lines[j];
    }
    if k == 0 {
      forall j | 0 <= j < |lines[1..]| ensures !Matches(lines[1..], j) {
        assert !Matches(lines, j + 1);
      }
      FindAllEmpty(lines[1..]);
    } else {
      assert !Matches(lines, 0);
      assert lines[1..][k - 1] == lines[k];
      forall j | 0 <= j < |lines[1..]| && j != k - 1 ensures !Matches(lines[1..], j) {
        assert !Matches(lines, j + 1);
      }
      FindAllOnly(lines[1..], k - 1);
    }
  }

  lemma {:induction false} FindAllSingle(lines: seq<string>) returns (k: int)
    requires |FindAll(lines)| == 1
    ensures OnlyMatch(lines, k) && FindAll(lines)[0] == LineVersion(lines[k]).value
  {
    forall j | 1 <= j < |lines| ensures Matches(lines, j) == Matches(lines[1..], j - 1) {
      assert lines[1..][j - 1] == lines[j];
    }
    if Matches(lines, 0) {
      FindAllEmpty(lines[1..]);
      k := 0;
      forall j | 1 <= j < |lines| ensures !Matches(lines, j) {
        assert !Matches(lines[1..], j - 1);
      }
    } else {
      var k' := FindAllSingle(lines[1..]);
      assert lines[1..][k'] == lines[k' + 1];
      k := k' + 1;
      forall j | 0 <= j < |lines| && j != k ensures !Matches(lines, j) {
        if j > 0 { assert !Matches(lines[1..], j - 1); }
      }
    }
  }

  /** Exactly one line is `VERSION := ` followed by the version token v. */
  ghost predicate OnlyVersionLine(lines: seq<string>, v: string)
  {
    IsVersion(v) && exists k :: OnlyMatch(lines, k) && lines[k] == VERSION_PREFIX + v
  }

  /**
   * The version is found exactly when one Makefile line is `VERSION := `
   * followed by a version token, and that token is the result.
   */
  lemma ExtractVersionExact(makefile: string, v: string)
    ensures ExtractVersion(makefile) == Ok(v) <==> OnlyVersionLine(Split(makefile, '\n'), v)
  {
    var lines := Split(makefile, '\n');
    if ExtractVersion(makefile) == Ok(v) {
      assert FindAll(lines) == [v];
      var k := ExtractVersionFound(lines, v);
      assert OnlyVersionLine(lines, v);
    } else if OnlyVersionLine(lines, v) {
      var k :| OnlyMatch(lines, k) && lines[k] == VERSION_PREFIX + v;
      ExtractVersionOnlyLine(lines, k, v);
    }
  }

  lemma ExtractVersionFound(lines: seq<string>, v: string) returns (k: int)
    requires FindAll(lines) == [v]
    ensures IsVersion(v) && OnlyMatch(lines, k) && lines[k] == VERSION_PREFIX + v
  {
    k := FindAllSingle(lines);
    assert lines[k] == lines[k][..|VERSION_PREFIX|] + lines[k][|VERSION_PREFIX|..];
  }

  lemma ExtractVersionOnlyLine(lines: seq<string>, k: int, v: string)
    requires IsVersion(v) && OnlyMatch(lines, k) && lines[k] == VERSION_PREFIX + v
    ensures FindAll(lines) == [v]
  {
    assert lines[k][..|VERSION_PREFIX|] == VERSION_PREFIX && lines[k][|VERSION_PREFIX|..] == v;
    FindAllOnly(lines, k);
  }

  /** No version line, and more than one, are the two ways extraction fails. */
  lemma ExtractVersionErrors(makefile: string)
    ensures var lines := Split(makefile, '\n');
            ExtractVersion(makefile) == Err(NoVersionLine) <==> forall j :: 0 <= j < |lines| ==> !Matches(lines, j)
    ensures var lines := Split(makefile, '\n');
            ExtractVersion(makefile) == Err(SeveralVersionLines) <==>
              (exists j :: Matches(lines, j)) && !(exists k :: OnlyMatch(lines, k))
  {
    var lines := Split(makefile, '\n');
    var found := FindAll(lines);
    FindAllEmpty(lines);
    if found == [] {
      assert ExtractVersion(makefile) == Err(NoVersionLine);
      assert forall j :: 0 <= j < |lines| ==> !Matches(lines, j);
    } else {
      var j :| 0 <= j < |lines| && Matches(lines, j);
      assert ExtractVersion(makefile) != Err(NoVersionLine);
      if |found| == 1 {
        var k := FindAllSingle(lines);
        assert ExtractVersion(makefile).Ok?;
      } else {
        assert ExtractVersion(makefile) == Err(SeveralVersionLines);
        if exists k :: OnlyMatch(lines, k) {
          var k :| OnlyMatch(lines, k);
          FindAllOnly(lines, k);
        }
      }
      assert Matches(Split(makefile, '\n'), j);
      assert !(forall j' :: 0 <= j' < |lines| ==> !Matches(lines, j'));
    }
  }

  /** Components keep their leading zeros: the pattern is `\d+`, not a canonical number. */
  lemma LeadingZerosAccepted()
    ensures IsVersion("01.002.3")
  {
    assert DigitRun("01") && DigitRun("002") && DigitRun("3");
    VersionFromRuns("01", "002", "3");
    assert "01" + "." + "002" + "." + "3" == "01.002.3";
  }

  /** Three digit runs joined by dots form a version token, and splitting recovers them. */
  lemma VersionFromRuns(major: string, minor: string, patch: string)
    requires DigitRun(major) && DigitRun(minor) && DigitRun(patch)
    ensures Split(major + "." + minor + "." + patch, '.') == [major, minor, patch]
    ensures IsVersion(major + "." + minor + "." + patch)
  {
    DigitsHaveNoDot(major);
    DigitsHaveNoDot(minor);
    DigitsHaveNoDot(patch);
    assert major + "." + minor + "." + patch == major + "." + (minor + "." + patch);
    SplitAfter(major, minor + "." + patch, '.');
    SplitAfter(minor, patch, '.');
    assert IndexOf(patch, '.') == None;
  }

  lemma DigitsHaveNoDot(s: string)
    requires DigitRun(s)
    ensures '.' !in s
  {
    forall i | 0 <= i < |s| ensures s[i] != '.' {
      assert Decimal.IsDigit(s[i]);
    }
  }

  /** A piece without the separator, then the separator, splits off as the first piece. */
  lemma SplitAfter(piece: string, rest: string, sep: char)
    requires sep !in piece
    ensures Split(piece + [sep] + rest, sep) == [piece] + Split(rest, sep)
  {
    IndexOfFirst(piece, rest, sep);
    var s := piece + [sep] + rest;
    assert s[..|piece|] == piece && s[|piece| + 1..] == rest;
  }

  lemma {:induction false} IndexOfFirst(piece: string, rest: string, sep: char)
    requires sep !in piece
    ensures IndexOf(piece + [sep] + rest, sep) == Some(|piece|)
  {
    var s := piece + [sep] + rest;
    if piece == [] {
      assert s[0] == sep;
    } else {
      assert s[0] == piece[0] && piece[0] in piece;
      assert s[1..] == piece[1..] + [sep] + rest;
      IndexOfFirst(piece[1..], rest, sep);
    }
  }

  lemma {:induction false} SplitPiecesCover(s: string)
    ensures forall i :: 0 <= i < |s| && s[i] != '.' ==> exists p :: p in Split(s, '.') && s[i] in p
  {
    match IndexOf(s, '.')
    case None =>
      assert Split(s, '.') == [s];
      forall i | 0 <= i < |s| && s[i] != '.' ensures exists p :: p in Split(s, '.') && s[i] in p {
        assert s in Split(s, '.') && s[i] in s;
      }
    case Some(j) =>
      SplitPiecesCover(s[j + 1..]);
      forall i | 0 <= i < |s| && s[i] != '.' ensures exists p :: p in Split(s, '.') && s[i] in p {
        if i < j {
          assert s[..j] in Split(s, '.') && s[i] == s[..j][i];
        } else {
          assert s[j + 1..][i - j - 1] == s[i];
          var p :| p in Split(s[j + 1..], '.') && s[i] in p;
          assert p in Split(s, '.');
        }
      }
  }

  /** A version token consists of digits and dots only. */
  lemma VersionCharacters(v: string)
    requires IsVersion(v)
    ensures BraceFree(v) && '%' !in v
  {
    SplitPiecesCover(v);
    var parts := Split(v, '.');
    forall i | 0 <= i < |v| ensures v[i] != '{' && v[i] != '}' && v[i] != '%' {
      if v[i] != '.' {
        var p :| p in parts && v[i] in p;
        var n :| 0 <= n < |p| && p[n] == v[i];
        assert Decimal.IsDigit(p[n]);
      }
    }
  }

  // ---------------------------------------------------------------------------
  // Extension values (conf.py lines 96-158)

  const REPO := "https://gitlab.lsd." + "di.uminho.pt/" + "albertofaria/" + "bdus/"
  const REPO_TREE := REPO + "tree/"
  const REPO_BLOB := REPO + "blob/"
  const REPO_DIR_TEMPLATE := REPO_TREE + "{}" + "/%s"
  const REPO_FILE_TEMPLATE := REPO_BLOB + "{}" + "/%s"
  const DIFF_LINK := REPO + "compare/" + "%s"

  lemma RepoHasNoBraceOrPercent()
    ensures BraceFree(REPO) && '%' !in REPO
  {
    RepoSchemePlain();
    RepoHostPlain();
    RepoPathPlain();
  }

  lemma RepoSchemePlain()
    ensures BraceFree("https://gitlab.lsd.") && '%' !in "https://gitlab.lsd."
  {
  }

  lemma RepoHostPlain()
    ensures BraceFree("di.uminho.pt/") && '%' !in "di.uminho.pt/"
  {
  }

  lemma RepoPathPlain()
    ensures BraceFree("albertofaria/") && '%' !in "albertofaria/"
    ensures BraceFree("bdus/") && '%' !in "bdus/"
  {
  }

  lemma RepoIsPlain()
    ensures BraceFree(REPO_TREE) && '%' !in REPO_TREE
    ensures BraceFree(REPO_BLOB) && '%' !in REPO_BLOB
    ensures '%' !in REPO + "compare/"
  {
    RepoHasNoBraceOrPercent();
  }

  /** An extlinks base with exactly one `%s` slot, at its end, and no other `%` conversion. */
  predicate OnePathSlot(s: string)
  {
    Count(s, '%') == 1 && |s| >= 2 && s[|s| - 2..] == "%s"
  }

  lemma PathSlotAtEnd(prefix: string)
    requires '%' !in prefix
    ensures OnePathSlot(prefix + "%s")
  {
    CountAppend(prefix, "%s", '%');
    CountAbsent(prefix, '%');
    assert Count("%s", '%') == 1;
    assert (prefix + "%s")[|prefix|..] == "%s";
  }

  /** A link base with the version substituted into its `{}` field. */
  function VersionedLink(template: string, version: string): Result<string, FormatError>
  {
    Format(template, map[], [version])
  }

  lemma VersionedLinkShape(base: string, version: string)
    requires BraceFree(base) && '%' !in base
    requires BraceFree(version) && '%' !in version
    ensures VersionedLink(base + "{}" + "/%s", version) == Ok(base + version + "/%s")
    ensures OnePathSlot(base + version + "/%s")
  {
    var env: map<string, string> := map[];
    assert base + "{}" + "/%s" == base + ("{}" + ("/%s" + ""));
    FormatPlain(base, "{}" + ("/%s" + ""), env, [version], 0);
    FormatAutoField("/%s" + "", env, [version], 0);
    FormatPlain("/%s", "", env, [version], 1);
    assert FormatFrom("", env, [version], 1) == Ok("");
    assert base + (version + ("/%s" + "")) == base + version + "/%s";
    assert base + version + "/%s" == (base + version + "/") + "%s";
    PathSlotAtEnd(base + version + "/");
  }

  lemma DiffLinkShape()
    ensures OnePathSlot(DIFF_LINK)
  {
    RepoIsPlain();
    PathSlotAtEnd(REPO + "compare/");
  }

  const DEFAULT_PROJECT := "libbdus"
  const BREATHE_PROJECTS: map<string, string> := map[
    "libbdus" := "_build/breathe/" + "doxygen/libbdus/xml",
    "kbdus" := "_build/breathe/" + "doxygen/kbdus/xml"]
  const BREATHE_PROJECTS_SOURCE: map<string, (string, seq<string>)> := map[
    "libbdus" := ("../libbdus/include", ["bdus.h"]),
    "kbdus" := ("../kbdus/include", ["kbdus.h"])]
  const BREATHE_DOMAIN_BY_EXTENSION: map<string, string> := map["h" := "c"]

  /** Every Doxygen project has a source directory with at least one header, and the default is one of them. */
  lemma BreatheTablesAgree()
    ensures DEFAULT_PROJECT in BREATHE_PROJECTS
    ensures BREATHE_PROJECTS.Keys == BREATHE_PROJECTS_SOURCE.Keys
    ensures forall p :: p in BREATHE_PROJECTS_SOURCE ==> |BREATHE_PROJECTS_SOURCE[p].1| > 0
  {
  }

  const LATEST_1 := "You are reading " + "the documentation " + "for BDUS' "
  const LATEST_2 := "development " + "version." + " <a href=\""
  const LATEST_3 := "/en/stable\">" + "Click here " + "for the newest "
  const LATEST_4 := "stable release." + "</a>"
  const LATEST_MESSAGE := LATEST_1 + LATEST_2 + LATEST_3 + LATEST_4

  const DEFAULT_HEAD := "You are reading " + "the documentation " + "for BDUS "
  const DEFAULT_MIDDLE := ". The newest " + "stable release " + "is "
  const DEFAULT_MESSAGE_TEMPLATE := DEFAULT_HEAD + "{version}" + DEFAULT_MIDDLE + "{{newest}}" + "."

  const BODY_SELECTOR := "body"
  const BANNER_HEAD := "<div id=\"" + "version-warning-" + "banner\">"
  const BANNER_HTML := BANNER_HEAD + "{message}" + "</div>"

  lemma Latest1Plain() ensures BraceFree(LATEST_1) {}
  lemma Latest2Plain() ensures BraceFree(LATEST_2) {}
  lemma Latest3Plain() ensures BraceFree(LATEST_3) {}
  lemma Latest4Plain() ensures BraceFree(LATEST_4) {}
  lemma HeadPlain() ensures BraceFree(DEFAULT_HEAD) {}
  lemma MiddlePlain() ensures BraceFree(DEFAULT_MIDDLE) {}
  lemma BannerHeadPlain() ensures BraceFree(BANNER_HEAD) {}

  lemma MessagesArePlain()
    ensures BraceFree(LATEST_MESSAGE) && BraceFree(DEFAULT_HEAD) && BraceFree(DEFAULT_MIDDLE) && BraceFree(BANNER_HEAD)
  {
    Latest1Plain(); Latest2Plain(); Latest3Plain(); Latest4Plain();
    HeadPlain(); MiddlePlain(); BannerHeadPlain();
  }

  /** The development-version banner has no field: formatting it with anything leaves it unchanged. */
  lemma LatestMessageHasNoField(named: map<string, string>, positional: seq<string>)
    ensures Format(LATEST_MESSAGE, named, positional) == Ok(LATEST_MESSAGE)
  {
    MessagesArePlain();
    assert LATEST_MESSAGE == LATEST_MESSAGE + "";
    FormatPlain(LATEST_MESSAGE, "", named, positional, 0);
  }

  /** The default banner once conf.py has substituted the version. */
  function DefaultMessage(version: string): Result<string, FormatError>
  {
    Format(DEFAULT_MESSAGE_TEMPLATE, map["version" := version], [])
  }

  /**
   * Substitution embeds the version and turns the doubled braces into a single
   * `{newest}` field, the only one left for the banner extension to fill.
   */
  lemma DefaultMessageKeepsNewest(version: string, newest: string)
    requires BraceFree(version)
    ensures DefaultMessage(version) == Ok(DEFAULT_HEAD + version + DEFAULT_MIDDLE + "{newest}.")
    ensures Format(DEFAULT_HEAD + version + DEFAULT_MIDDLE + "{newest}.", map["newest" := newest], [])
         == Ok(DEFAULT_HEAD + version + DEFAULT_MIDDLE + newest + ".")
    ensures Format(DEFAULT_HEAD + version + DEFAULT_MIDDLE + "{newest}.", map[], [])
         == Err(MissingKey("newest"))
  {
    MessagesArePlain();
    assert DEFAULT_MESSAGE_TEMPLATE == DEFAULT_HEAD + "{" + "version" + "}" + DEFAULT_MIDDLE + "{{" + "newest" + "}}" + ".";
    FormatFieldThenEscaped(DEFAULT_HEAD, "version", DEFAULT_MIDDLE, "newest", ".", map["version" := version]);
    var prefix := DEFAULT_HEAD + version + DEFAULT_MIDDLE;
    assert DEFAULT_HEAD + version + DEFAULT_MIDDLE + "{" + "newest" + "}" + "." == DEFAULT_HEAD + version + DEFAULT_MIDDLE + "{newest}.";
    assert BraceFree(prefix);
    assert prefix + "{" + "newest" + "}" + "." == DEFAULT_HEAD + version + DEFAULT_MIDDLE + "{newest}.";
    FormatOneField(prefix, "newest", ".", map["newest" := newest]);
    FormatOneField(prefix, "newest", ".", map[]);
  }

  /** The banner HTML has exactly one field, `message`, which the extension fills. */
  lemma BannerHtmlHasMessageSlot(message: string)
    ensures Format(BANNER_HTML, map["message" := message], []) == Ok(BANNER_HEAD + message + "</div>")
    ensures Format(BANNER_HTML, map[], []) == Err(MissingKey("message"))
  {
    MessagesArePlain();
    assert BANNER_HTML == BANNER_HEAD + "{" + "message" + "}" + "</div>";
    FormatOneField(BANNER_HEAD, "message", "</div>", map["message" := message]);
    FormatOneField(BANNER_HEAD, "message", "</div>", map[]);
  }

  // ---------------------------------------------------------------------------
  // The whole configuration

  datatype Config = Config(
    project: string,
    author: string,
    copyright: string,
    version: string,
    release: string,
    repoDir: string,
    repoFile: string,
    diff: string,
    defaultMessage: string,
    latestMessage: string,
    bodySelector: string,
    bannerHtml: string)

  datatype ConfError = BadMakefile(e: VersionError) | BadFormat(f: FormatError)

  /** Evaluation of conf.py for a Makefile text and the current year; an exception becomes an error. */
  function Evaluate(makefile: string, year: nat): Result<Config, ConfError>
  {
    match ExtractVersion(makefile)
    case Err(e) => Err(BadMakefile(e))
    case Ok(v) =>
      match (Copyright(year), VersionedLink(REPO_DIR_TEMPLATE, v), VersionedLink(REPO_FILE_TEMPLATE, v), DefaultMessage(v))
      case (Ok(c), Ok(dir), Ok(file), Ok(msg)) =>
        Ok(Config(PROJECT, AUTHOR, c, v, v, dir, file, DIFF_LINK, msg, LATEST_MESSAGE, BODY_SELECTOR, BANNER_HTML))
      case (Err(f), _, _, _) => Err(BadFormat(f))
      case (_, Err(f), _, _) => Err(BadFormat(f))
      case (_, _, Err(f), _) => Err(BadFormat(f))
      case (_, _, _, Err(f)) => Err(BadFormat(f))
  }

  /**
   * A Makefile with one version line yields a configuration whose version and
   * release are that token, whose repository links embed it with one path slot,
   * whose copyright names the year and author, and whose default banner keeps
   * `{newest}`; a Makefile without exactly one such line fails.
   */
  lemma EvaluateProperties(makefile: string, year: nat)
    ensures ExtractVersion(makefile).Err? ==> Evaluate(makefile, year).Err?
    ensures ExtractVersion(makefile).Ok? ==>
      var v := ExtractVersion(makefile).value;
      Evaluate(makefile, year) == Ok(Config(PROJECT, AUTHOR,
        Decimal.Format(year) + ", " + AUTHOR, v, v,
        REPO_TREE + v + "/%s", REPO_BLOB + v + "/%s", DIFF_LINK,
        DEFAULT_HEAD + v + DEFAULT_MIDDLE + "{newest}.",
        LATEST_MESSAGE, BODY_SELECTOR, BANNER_HTML)) &&
      OnePathSlot(REPO_TREE + v + "/%s") && OnePathSlot(REPO_BLOB + v + "/%s")
  {
    if ExtractVersion(makefile).Ok? {
      var v := ExtractVersion(makefile).value;
      ExtractVersionExact(makefile, v);
      VersionCharacters(v);
      RepoIsPlain();
      CopyrightIsYearAndAuthor(year);
      VersionedLinkShape(REPO_TREE, v);
      VersionedLinkShape(REPO_BLOB, v);
      DefaultMessageKeepsNewest(v, "");
    }
  }
}
