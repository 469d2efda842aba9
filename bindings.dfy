/**
 * The directory-binding parser of the Docker cloud: a block of text, one
 * binding per line, each line `host[:container][:access]` with an optional
 * `#` comment, becomes an ordered list of bindings or fails on the first
 * bad line with a line-numbered error.
 */
module Bindings {
  import opened Common

  datatype Access = Read | ReadWrite

  datatype Binding = Binding(hostPath: string, containerPath: string, access: Access)

  datatype ErrorKind = WrongFieldCount | UnsupportedAccess | RelativePath

  /** The IllegalArgumentException raised for a bad line: its kind, the segment number and the cleaned line. */
  datatype BindingError = BindingError(kind: ErrorKind, lineNum: nat, line: string)

  /** BINDING_ACCESS: the accepted access tokens, after lower-casing. */
  const BindingAccess: map<string, Access> := map["r" := Read, "rw" := ReadWrite]

  /** BINDING_ACCESS.get(token.toLowerCase()). */
  function AccessOf(token: string): Option<Access>
  {
    var key := ToLowerAscii(token);
    if key in BindingAccess then Some(BindingAccess[key]) else None
  }

  /** The accepted tokens are r and rw in any letter case; every other token is unsupported. */
  lemma AccessOfTokens(token: string)
    ensures AccessOf(token) == Some(Read) <==> token == "r" || token == "R"
    ensures AccessOf(token) == Some(ReadWrite) <==> token in {"rw", "rW", "Rw", "RW"}
  {
    var key := ToLowerAscii(token);
    ToLowerAsciiChars(token);
    assert |token| == 1 ==> key == [key[0]] && token == [token[0]];
    assert |token| == 2 ==> key == [key[0], key[1]] && token == [token[0], token[1]];
  }

  predicate IsAbsolute(path: string)
  {
    StartsWith(path, "/")
  }

  // ---------------------------------------------------------------------
  // Splitting the text into segments (String.split("[\r\n]+"))
  // ---------------------------------------------------------------------

  predicate IsNewline(c: char)
  {
    c == '\r' || c == '\n'
  }

  function SkipNewlines(s: string): (r: string)
    ensures |r| <= |s| && r == s[|s| - |r|..]
    ensures r != [] ==> !IsNewline(r[0])
  {
    if |s| > 0 && IsNewline(s[0]) then SkipNewlines(s[1..]) else s
  }

  /** The pieces of s between maximal runs of CR/LF chars, empty pieces included. */
  function SplitOnNewlineRuns(s: string): (r: seq<string>)
    ensures |r| >= 1
    decreases |s|
  {
    if |s| == 0 then [""]
    else if IsNewline(s[0]) then [""] + SplitOnNewlineRuns(SkipNewlines(s[1..]))
    else
      var rest := SplitOnNewlineRuns(s[1..]);
      [[s[0]] + rest[0]] + rest[1..]
  }

  /**
   * Java's s.split("[\r\n]+"): a leading break gives an empty first
   * segment, and empty segments at the end are dropped. Java returns [s]
   * when s has no break at all; for the empty string that is [""], and for
   * any other string it is what the general rule gives (SplitLinesWithoutBreak).
   */
  function SplitLines(s: string): seq<string>
  {
    if s == "" then [s] else DropTrailingEmpty(SplitOnNewlineRuns(s))
  }

  /** A text without a break is one segment. */
  lemma {:induction false} SplitRunsWithoutBreak(s: string)
    requires '\r' !in s && '\n' !in s
    ensures SplitOnNewlineRuns(s) == [s]
  {
    if |s| > 0 {
      assert s[0] in s;
      assert forall c :: c in s[1..] ==> c in s;
      SplitRunsWithoutBreak(s[1..]);
      assert [s[0]] + s[1..] == s;
    }
  }

  /** A run of breaks is skipped as a whole. */
  lemma {:induction false} SkipNewlinesRun(brk: string, rest: string)
    requires forall k :: 0 <= k < |brk| ==> IsNewline(brk[k])
    requires rest != [] ==> !IsNewline(rest[0])
    ensures SkipNewlines(brk + rest) == rest
  {
    if |brk| > 0 {
      assert (brk + rest)[1..] == brk[1..] + rest;
      SkipNewlinesRun(brk[1..], rest);
    } else {
      assert brk + rest == rest;
    }
  }

  /** A run of breaks ends the first segment; the next segment starts right after the run. */
  lemma {:induction false} SplitRunsAtBreak(a: string, brk: string, rest: string)
    requires '\r' !in a && '\n' !in a
    requires brk != [] && forall k :: 0 <= k < |brk| ==> IsNewline(brk[k])
    requires rest != [] && !IsNewline(rest[0])
    ensures SplitOnNewlineRuns(a + brk + rest) == [a] + SplitOnNewlineRuns(rest)
  {
    var s := a + brk + rest;
    if |a| == 0 {
      assert s == brk + rest && s[1..] == brk[1..] + rest;
      SkipNewlinesRun(brk[1..], rest);
    } else {
      assert s[0] == a[0] && !IsNewline(a[0]) by {
        assert a[0] in a;
      }
      assert '\r' !in a[1..] && '\n' !in a[1..] by {
        assert forall c :: c in a[1..] ==> c in a;
      }
      assert s[1..] == a[1..] + brk + rest;
      SplitRunsAtBreak(a[1..], brk, rest);
      var tail := SplitOnNewlineRuns(s[1..]);
      assert tail[0] == a[1..] && tail[1..] == SplitOnNewlineRuns(rest);
      assert [s[0]] + tail[0] == a;
    }
  }

  /** Java returns the whole text as the only segment when it has no break. */
  lemma SplitLinesWithoutBreak(s: string)
    requires '\r' !in s && '\n' !in s
    ensures SplitLines(s) == [s]
  {
    SplitRunsWithoutBreak(s);
  }

  // ---------------------------------------------------------------------
  // One line
  // ---------------------------------------------------------------------

  /** cleanLine: everything from the first '#' is a comment; the rest is trimmed. */
  function CleanLine(line: string): (r: string)
    ensures '#' !in r
    ensures r != [] ==> !IsTrimmed(r[0]) && !IsTrimmed(r[|r| - 1])
  {
    var i := IndexOf(line, '#');
    var code := if i >= 0 then line[..i] else line;
    var r := Trim(code);
    TrimIsInfix(code);
    assert forall c :: c in r ==> c in code;
    r
  }

  lemma CleanLineIdempotent(line: string)
    ensures CleanLine(CleanLine(line)) == CleanLine(line)
  {
    TrimOfUntrimmed(CleanLine(line));
  }

  /** cleanLine keeps the trimmed code before the first '#': a comment, from its '#' to the end, is dropped. */
  lemma CleanLineDropsComment(code: string, comment: string)
    requires '#' !in code
    requires comment == [] || comment[0] == '#'
    ensures CleanLine(code + comment) == Trim(code)
  {
    var line := code + comment;
    assert line[..|code|] == code;
    if comment == [] {
      assert line == code;
    } else {
      assert line[|code|] == '#';
      assert IndexOf(line, '#') == |code|;
    }
  }

  /** A cleaned line holds only chars of the raw line. */
  lemma CleanLineChars(line: string)
    ensures forall c :: c in CleanLine(line) ==> c in line
  {
    var i := IndexOf(line, '#');
    var code := if i >= 0 then line[..i] else line;
    TrimIsInfix(code);
    assert forall c :: c in Trim(code) ==> c in code;
    assert forall c :: c in code ==> c in line;
  }

  lemma ExampleCommentLineCode()
    ensures "  /data:rw # cache" == "  /data:rw " + "# cache"
    ensures Trim("  /data:rw ") == "/data:rw"
  {
  }

  /** A comment and the blanks around the code are dropped. */
  lemma ExampleCommentLine()
    ensures CleanLine("  /data:rw # cache") == "/data:rw"
  {
    ExampleCommentLineCode();
    CleanLineDropsComment("  /data:rw ", "# cache");
  }

  function Checked(host: string, container: string, access: Access): (r: Result<Binding, ErrorKind>)
  {
    if IsAbsolute(host) && IsAbsolute(container) then Success(Binding(host, container, access))
    else Failure(RelativePath)
  }

  /**
   * The rules for one non-blank cleaned line, field by field: three fields
   * are host, container and access; two fields are host and either an
   * access token or a container; one field is the host, mounted at the same
   * path, read-only. Both paths must be absolute.
   */
  function ParseLine(line: string): (r: Result<Binding, ErrorKind>)
    ensures r.Success? ==> IsAbsolute(r.value.hostPath) && IsAbsolute(r.value.containerPath)
  {
    var parts := JavaSplit(line, ':');
    if |parts| == 0 || |parts| > 3 then Failure(WrongFieldCount)
    else
      var host := Trim(parts[0]);
      if |parts| == 3 then
        match AccessOf(Trim(parts[2]))
        case None => Failure(UnsupportedAccess)
        case Some(a) => Checked(host, Trim(parts[1]), a)
      else if |parts| == 2 then
        match AccessOf(Trim(parts[1]))
        case Some(a) => Checked(host, host, a)
        case None => Checked(host, Trim(parts[1]), Read)
      else
        Checked(host, host, Read)
  }

  // ---------------------------------------------------------------------
  // The whole text
  // ---------------------------------------------------------------------

  /** Parses the segments in order; segment k of segs is line firstLine + k. */
  function ParseSegments(segs: seq<string>, firstLine: nat): Result<seq<Binding>, BindingError>
    decreases |segs|
  {
    if segs == [] then Success([])
    else
      var line := CleanLine(segs[0]);
      if |line| == 0 then ParseSegments(segs[1..], firstLine + 1)
      else match ParseLine(line)
        case Failure(kind) => Failure(BindingError(kind, firstLine, line))
        case Success(b) => Prepend([b], ParseSegments(segs[1..], firstLine + 1))
  }

  function Prepend(bs: seq<Binding>, rest: Result<seq<Binding>, BindingError>): Result<seq<Binding>, BindingError>
  {
    match rest
    case Success(more) => Success(bs + more)
    case Failure(e) => Failure(e)
  }

  /** parseBindings as a function of the text; a null or empty text has no bindings. */
  function ParseBindingsSpec(text: Option<string>): Result<seq<Binding>, BindingError>
  {
    if text.None? || text.value == "" then Success([])
    else ParseSegments(SplitLines(text.value), 1)
  }

  /** The cleaned segments that are not blank, in order. */
  function NonBlankLines(segs: seq<string>): (r: seq<string>)
    ensures forall k :: 0 <= k < |r| ==> r[k] != []
  {
    if segs == [] then []
    else
      var line := CleanLine(segs[0]);
      (if line == [] then [] else [line]) + NonBlankLines(segs[1..])
  }

  /** One step of ParseSegments: a blank segment is skipped, a valid one contributes its binding, a bad one stops. */
  lemma ParseSegmentsStep(segs: seq<string>, n: nat)
    requires segs != []
    ensures var line := CleanLine(segs[0]);
            ParseSegments(segs, n) ==
              if line == [] then ParseSegments(segs[1..], n + 1)
              else if ParseLine(line).Failure? then Failure(BindingError(ParseLine(line).error, n, line))
              else Prepend([ParseLine(line).value], ParseSegments(segs[1..], n + 1))
  {
  }

  /** The step of ParseSegmentsStep taken at position i of a list of segments. */
  lemma ParseSegmentsAt(lines: seq<string>, i: nat)
    requires i < |lines|
    ensures var line := CleanLine(lines[i]);
            ParseSegments(lines[i..], i + 1) ==
              if line == [] then ParseSegments(lines[i + 1..], i + 2)
              else if ParseLine(line).Failure? then Failure(BindingError(ParseLine(line).error, i + 1, line))
              else Prepend([ParseLine(line).value], ParseSegments(lines[i + 1..], i + 2))
  {
    assert lines[i..][0] == lines[i] && lines[i..][1..] == lines[i + 1..];
    ParseSegmentsStep(lines[i..], i + 1);
  }

  /**
   * The parse as the loop of parseBindings runs it: from segment i on, with
   * the bindings already collected in acc.
   */
  function ParseFrom(lines: seq<string>, i: nat, acc: seq<Binding>): Result<seq<Binding>, BindingError>
    requires i <= |lines|
    decreases |lines| - i
  {
    if i == |lines| then Success(acc)
    else
      var line := CleanLine(lines[i]);
      if |line| == 0 then ParseFrom(lines, i + 1, acc)
      else match ParseLine(line)
        case Failure(kind) => Failure(BindingError(kind, i + 1, line))
        case Success(b) => ParseFrom(lines, i + 1, acc + [b])
  }

  lemma {:induction false} ParseFromIsParseSegments(lines: seq<string>, i: nat, acc: seq<Binding>)
    requires i <= |lines|
    ensures ParseFrom(lines, i, acc) == Prepend(acc, ParseSegments(lines[i..], i + 1))
    decreases |lines| - i
  {
    if i == |lines| {
      assert lines[i..] == [];
      assert acc + [] == acc;
    } else {
      ParseSegmentsAt(lines, i);
      var line := CleanLine(lines[i]);
      if line != [] && ParseLine(line).Success? {
        ParseFromIsParseSegments(lines, i + 1, acc + [ParseLine(line).value]);
        PrependTwice(acc, [ParseLine(line).value], ParseSegments(lines[i + 1..], i + 2));
      } else {
        ParseFromIsParseSegments(lines, i + 1, acc);
      }
    }
  }

  lemma PrependNothing(rest: Result<seq<Binding>, BindingError>)
    ensures Prepend([], rest) == rest
  {
    if rest.Success? {
      assert [] + rest.value == rest.value;
    }
  }

  lemma PrependTwice(bs: seq<Binding>, cs: seq<Binding>, rest: Result<seq<Binding>, BindingError>)
    ensures Prepend(bs, Prepend(cs, rest)) == Prepend(bs + cs, rest)
  {
    if rest.Success? {
      assert bs + (cs + rest.value) == (bs + cs) + rest.value;
    }
  }

  /**
   * The field handling of parseBindings for one non-blank cleaned line: the
   * container path and the access start from the fields present and are
   * reassigned when the second field turns out to be an access token or is
   * missing.
   */
  method ParseFields(line: string) returns (r: Result<Binding, ErrorKind>)
    ensures r == ParseLine(line)
    ensures r.Success? ==> IsAbsolute(r.value.hostPath) && IsAbsolute(r.value.containerPath)
  {
    var parts := JavaSplit(line, ':');
    if |parts| == 0 || |parts| > 3 {
      return Failure(WrongFieldCount);
    }
    var hostDir := Trim(parts[0]);
    var containerDir: Option<string> := if |parts| > 1 then Some(Trim(parts[1])) else None;
    var accessStr: Option<string> := if |parts| > 2 then Some(ToLowerAscii(Trim(parts[2]))) else None;
    var bindingAccess: Access;
    if accessStr.Some? {
      if accessStr.value !in BindingAccess {
        return Failure(UnsupportedAccess);
      }
      bindingAccess := BindingAccess[accessStr.value];
    } else if containerDir.Some? {
      var key := ToLowerAscii(containerDir.value);
      if key !in BindingAccess {
        bindingAccess := Read;
      } else {
        bindingAccess := BindingAccess[key];
        containerDir := Some(hostDir);
      }
    } else {
      containerDir := Some(hostDir);
      bindingAccess := Read;
    }
    if !StartsWith(hostDir, "/") || !StartsWith(containerDir.value, "/") {
      return Failure(RelativePath);
    }
    return Success(Binding(hostDir, containerDir.value, bindingAccess));
  }

  /**
   * parseBindings: a null or empty text has no bindings; otherwise the text
   * is split into segments and the segments are parsed in order.
   */
  method ParseBindings(text: Option<string>) returns (r: Result<seq<Binding>, BindingError>)
    ensures r == ParseBindingsSpec(text)
    ensures text.None? || text == Some("") ==> r == Success([])
    ensures r.Success? ==> forall b :: b in r.value ==> IsAbsolute(b.hostPath) && IsAbsolute(b.containerPath)
  {
    if text.None? || text.value == "" {
      return Success([]);
    }
    r := ParseLines(SplitLines(text.value));
  }

  /**
   * The loop of parseBindings: a line counter, blank lines skipped, one
   * binding appended per other line, and a stop at the first bad line with
   * an error naming the counter and the cleaned line.
   */
  method ParseLines(lines: seq<string>) returns (r: Result<seq<Binding>, BindingError>)
    ensures r == ParseSegments(lines, 1)
    ensures r.Success? ==> forall b :: b in r.value ==> IsAbsolute(b.hostPath) && IsAbsolute(b.containerPath)
  {
    ParseFromIsParseSegments(lines, 0, []);
    assert lines[0..] == lines;
    PrependNothing(ParseSegments(lines, 1));
    var bindings: seq<Binding> := [];
    var lineNum := 0;
    var i := 0;
    while i < |lines|
      invariant 0 <= i <= |lines| && lineNum == i
      invariant ParseFrom(lines, i, bindings) == ParseSegments(lines, 1)
      invariant forall b :: b in bindings ==> IsAbsolute(b.hostPath) && IsAbsolute(b.containerPath)
    {
      lineNum := lineNum + 1;
      var line := CleanLine(lines[i]);
      if |line| > 0 {
        var binding := ParseFields(line);
        if binding.Failure? {
          return Failure(BindingError(binding.error, lineNum, line));
        }
        bindings := bindings + [binding.value];
      }
      i := i + 1;
    }
    return Success(bindings);
  }

  /** The rule a bad line breaks, as the message names it; a wrong field count names no rule. */
  function RuleText(kind: ErrorKind): string
  {
    match kind
    case WrongFieldCount => ""
    case UnsupportedAccess => ", unsupported access statement, use r or rw"
    case RelativePath => ", use absolute paths"
  }

  /**
   * The message of the IllegalArgumentException a bad line raises: the
   * rule it breaks, then the segment number in decimal and the cleaned line.
   */
  function ErrorMessage(e: BindingError): (m: string)
    ensures StartsWith(m, "Invalid directory mapping")
    ensures var tail := " (line " + DecimalString(e.lineNum) + "): " + e.line;
      |tail| <= |m| && m[|m| - |tail|..] == tail &&
      m[..|m| - |tail|] == "Invalid directory mapping" + RuleText(e.kind)
  {
    var head := "Invalid directory mapping" + RuleText(e.kind);
    var tail := " (line " + DecimalString(e.lineNum) + "): " + e.line;
    var m := head + tail;
    assert m[..25] == "Invalid directory mapping";
    assert m[..|m| - |tail|] == head && m[|m| - |tail|..] == tail;
    m
  }

  /** Two messages for the same rule and the same line text are equal only when they name the same line number. */
  lemma ErrorMessageIdentifiesLine(e1: BindingError, e2: BindingError)
    requires e1.kind == e2.kind && e1.line == e2.line
    requires ErrorMessage(e1) == ErrorMessage(e2)
    ensures e1.lineNum == e2.lineNum
  {
    var m := ErrorMessage(e1);
    var t1 := " (line " + DecimalString(e1.lineNum) + "): " + e1.line;
    var t2 := " (line " + DecimalString(e2.lineNum) + "): " + e2.line;
    assert |m| - |t1| == |m| - |t2|;
    assert t1 == m[|m| - |t1|..] == t2;
    SameTailSameDigits(DecimalString(e1.lineNum), DecimalString(e2.lineNum), e1.line);
  }

  lemma SameTailSameDigits(d1: string, d2: string, line: string)
    requires " (line " + d1 + "): " + line == " (line " + d2 + "): " + line
    ensures d1 == d2
  {
    var t := " (line " + d1 + "): " + line;
    assert d1 == t[7..7 + |d1|];
  }

  // ---------------------------------------------------------------------
  // What a parse means
  // ---------------------------------------------------------------------

  /** A segment that does not stop the parse: blank after cleaning, or a valid line. */
  predicate SegmentOk(seg: string)
  {
    CleanLine(seg) == [] || ParseLine(CleanLine(seg)).Success?
  }

  /** The index of the segment a failed parse stops at. */
  function FailingSegment(segs: seq<string>, n: nat): (i: nat)
    requires ParseSegments(segs, n).Failure?
    decreases |segs|
  {
    if SegmentOk(segs[0]) then 1 + FailingSegment(segs[1..], n + 1) else 0
  }

  /** A parse succeeds exactly when every segment is blank or a valid line. */
  lemma {:induction false} ParseSucceedsIffAllSegmentsOk(segs: seq<string>, n: nat)
    ensures ParseSegments(segs, n).Success? <==> forall k :: 0 <= k < |segs| ==> SegmentOk(segs[k])
    decreases |segs|
  {
    if segs != [] {
      ParseSucceedsIffAllSegmentsOk(segs[1..], n + 1);
      assert forall k :: 0 < k < |segs| ==> segs[k] == segs[1..][k - 1];
    }
  }

  /** A successful parse yields one binding per non-blank cleaned segment, in input order. */
  lemma {:induction false} ParseYieldsOneBindingPerLine(segs: seq<string>, n: nat)
    requires ParseSegments(segs, n).Success?
    ensures var bs := ParseSegments(segs, n).value;
            |bs| == |NonBlankLines(segs)| &&
            forall k :: 0 <= k < |bs| ==> ParseLine(NonBlankLines(segs)[k]) == Success(bs[k])
    decreases |segs|
  {
    if segs != [] {
      ParseSegmentsStep(segs, n);
      var line := CleanLine(segs[0]);
      assert ParseSegments(segs[1..], n + 1).Success?;
      ParseYieldsOneBindingPerLine(segs[1..], n + 1);
      var rest := NonBlankLines(segs[1..]);
      var more := ParseSegments(segs[1..], n + 1).value;
      if line == [] {
        assert NonBlankLines(segs) == rest;
      } else {
        var b := ParseLine(line).value;
        assert NonBlankLines(segs) == [line] + rest;
        assert ParseSegments(segs, n).value == [b] + more;
        forall k | 0 <= k < 1 + |more|
          ensures ParseLine(([line] + rest)[k]) == Success(([b] + more)[k])
        {
          if k > 0 {
            assert ([line] + rest)[k] == rest[k - 1] && ([b] + more)[k] == more[k - 1];
          }
        }
      }
    }
  }

  /** The segment a failed parse stops at is non-blank, invalid, and is the one the error reports (1-based, counting segments). */
  lemma {:induction false} FailingSegmentIsReported(segs: seq<string>, n: nat)
    requires ParseSegments(segs, n).Failure?
    ensures var e := ParseSegments(segs, n).error;
            var i := FailingSegment(segs, n);
            i < |segs| && e.lineNum == n + i && e.line == CleanLine(segs[i]) && e.line != [] &&
            ParseLine(e.line) == Failure(e.kind)
    decreases |segs|
  {
    var line := CleanLine(segs[0]);
    if SegmentOk(segs[0]) {
      assert ParseSegments(segs, n).error == ParseSegments(segs[1..], n + 1).error by {
        if line != [] {
          var b := ParseLine(line).value;
          assert ParseSegments(segs, n) == Prepend([b], ParseSegments(segs[1..], n + 1));
        }
      }
      FailingSegmentIsReported(segs[1..], n + 1);
      var i := FailingSegment(segs[1..], n + 1);
      assert segs[i + 1] == segs[1..][i];
    } else {
      assert ParseSegments(segs, n) == Failure(BindingError(ParseLine(line).error, n, line));
    }
  }

  /** Every segment before the one a failed parse stops at was blank or valid: the parse fails fast on the first bad line. */
  lemma {:induction false} SegmentsBeforeFailureAreOk(segs: seq<string>, n: nat)
    requires ParseSegments(segs, n).Failure?
    ensures FailingSegment(segs, n) <= |segs|
    ensures forall j :: 0 <= j < FailingSegment(segs, n) ==> SegmentOk(segs[j])
    decreases |segs|
  {
    if SegmentOk(segs[0]) {
      var line := CleanLine(segs[0]);
      assert ParseSegments(segs[1..], n + 1).Failure? by {
        if line != [] {
          var b := ParseLine(line).value;
          assert ParseSegments(segs, n) == Prepend([b], ParseSegments(segs[1..], n + 1));
        }
      }
      SegmentsBeforeFailureAreOk(segs[1..], n + 1);
      assert forall j :: 0 < j < FailingSegment(segs, n) ==> segs[j] == segs[1..][j - 1];
    }
  }

  /** No segment of the line split holds a CR or LF. */
  lemma {:induction false} SplitRunsNoBreaks(s: string)
    ensures forall i :: 0 <= i < |SplitOnNewlineRuns(s)| ==>
      '\r' !in SplitOnNewlineRuns(s)[i] && '\n' !in SplitOnNewlineRuns(s)[i]
    decreases |s|
  {
    if |s| > 0 {
      var r := SplitOnNewlineRuns(s);
      if IsNewline(s[0]) {
        var rest := SplitOnNewlineRuns(SkipNewlines(s[1..]));
        SplitRunsNoBreaks(SkipNewlines(s[1..]));
        assert forall i :: 0 < i < |r| ==> r[i] == rest[i - 1];
      } else {
        var rest := SplitOnNewlineRuns(s[1..]);
        SplitRunsNoBreaks(s[1..]);
        assert r[0] == [s[0]] + rest[0];
        assert forall i :: 0 < i < |r| ==> r[i] == rest[i];
      }
    }
  }

  lemma SplitLinesNoBreaks(s: string)
    ensures forall i :: 0 <= i < |SplitLines(s)| ==> '\r' !in SplitLines(s)[i] && '\n' !in SplitLines(s)[i]
  {
    if s != "" {
      SplitRunsNoBreaks(s);
      DropTrailingEmptyDrops(SplitOnNewlineRuns(s));
    }
  }

  /** The cleaned non-blank lines of break-free segments hold no comment mark and no break. */
  lemma {:induction false} NonBlankLinesClean(segs: seq<string>)
    requires forall k :: 0 <= k < |segs| ==> '\r' !in segs[k] && '\n' !in segs[k]
    ensures forall k :: 0 <= k < |NonBlankLines(segs)| ==>
      '#' !in NonBlankLines(segs)[k] && '\r' !in NonBlankLines(segs)[k] && '\n' !in NonBlankLines(segs)[k]
  {
    if segs != [] {
      NonBlankLinesClean(segs[1..]);
      var line := CleanLine(segs[0]);
      CleanLineChars(segs[0]);
      var rest := NonBlankLines(segs[1..]);
      var all := NonBlankLines(segs);
      if line == [] {
        assert all == rest;
      } else {
        assert all == [line] + rest;
        assert forall k :: 0 < k < |all| ==> all[k] == rest[k - 1];
      }
    }
  }

  /** A trimmed ':'-piece of a line without comment mark or break, when absolute, is a canonical path. */
  lemma TrimmedPieceCanonical(line: string, piece: string)
    requires '#' !in line && '\r' !in line && '\n' !in line
    requires ':' !in piece && forall c :: c in piece ==> c in line
    requires IsAbsolute(Trim(piece))
    ensures CanonicalPath(Trim(piece))
  {
    TrimIsInfix(piece);
    assert forall c :: c in Trim(piece) ==> c in piece;
  }

  /** The paths of an accepted line without comment mark or break are canonical. */
  lemma ParsedLineIsCanonical(line: string)
    requires '#' !in line && '\r' !in line && '\n' !in line
    requires ParseLine(line).Success?
    ensures CanonicalPath(ParseLine(line).value.hostPath) && CanonicalPath(ParseLine(line).value.containerPath)
  {
    var parts := JavaSplit(line, ':');
    JavaSplitPieces(line, ':');
    JavaSplitChars(line, ':');
    var b := ParseLine(line).value;
    assert b.hostPath == Trim(parts[0]);
    TrimmedPieceCanonical(line, parts[0]);
    if |parts| == 3 || (|parts| == 2 && AccessOf(Trim(parts[1])).None?) {
      assert b.containerPath == Trim(parts[1]);
      TrimmedPieceCanonical(line, parts[1]);
    } else {
      assert b.containerPath == Trim(parts[0]);
    }
  }

  /**
   * Every binding of a successful parse has canonical paths: absolute, with
   * no colon, comment mark, break or trailing blank.
   */
  lemma ParsedBindingsAreCanonical(text: Option<string>)
    requires ParseBindingsSpec(text).Success?
    ensures forall b :: b in ParseBindingsSpec(text).value ==> CanonicalPath(b.hostPath) && CanonicalPath(b.containerPath)
  {
    if text.Some? && text.value != "" {
      var segs := SplitLines(text.value);
      SplitLinesNoBreaks(text.value);
      NonBlankLinesClean(segs);
      ParseYieldsOneBindingPerLine(segs, 1);
      var bs := ParseBindingsSpec(text).value;
      forall b | b in bs
        ensures CanonicalPath(b.hostPath) && CanonicalPath(b.containerPath)
      {
        var k :| 0 <= k < |bs| && bs[k] == b;
        ParsedLineIsCanonical(NonBlankLines(segs)[k]);
      }
    }
  }

  // ---------------------------------------------------------------------
  // Writing bindings back as text
  // ---------------------------------------------------------------------

  /** A path that can be written into a mapping line and read back unchanged. */
  predicate CanonicalPath(p: string)
  {
    IsAbsolute(p) && !IsTrimmed(p[|p| - 1]) && ':' !in p && '#' !in p && '\r' !in p && '\n' !in p
  }

  function AccessToken(a: Access): (t: string)
    ensures AccessOf(t) == Some(a)
  {
    ToLowerAsciiChars("r");
    ToLowerAsciiChars("rw");
    assert ToLowerAscii("r") == "r";
    assert ToLowerAscii("rw") == "rw";
    assert AccessOf("r") == Some(Read);
    assert AccessOf("rw") == Some(ReadWrite);
    match a
    case Read => "r"
    case ReadWrite => "rw"
  }

  /** The three-field form `host:container:access`. */
  function FormatBinding(b: Binding): (line: string)
    ensures line == b.hostPath + [':'] + (b.containerPath + [':'] + AccessToken(b.access))
  {
    b.hostPath + ":" + b.containerPath + ":" + AccessToken(b.access)
  }

  /** One line per binding, separated by single line feeds. */
  function FormatBindings(bs: seq<Binding>): (text: string)
    ensures bs != [] ==> |FormatBinding(bs[0])| <= |text| && text[..|FormatBinding(bs[0])|] == FormatBinding(bs[0])
  {
    if bs == [] then ""
    else if |bs| == 1 then FormatBinding(bs[0])
    else FormatBinding(bs[0]) + "\n" + FormatBindings(bs[1..])
  }

  /** The lines FormatBindings writes, one per binding. */
  function FormattedLines(bs: seq<Binding>): (r: seq<string>)
    ensures |r| == |bs|
    ensures bs != [] ==> r[|r| - 1] == FormatBinding(bs[|bs| - 1])
  {
    if bs == [] then [] else [FormatBinding(bs[0])] + FormattedLines(bs[1..])
  }

  /** Java's split(":") cuts `h:c:t` into its three fields when none holds a colon and the last is not empty. */
  lemma SplitThreeFields(h: string, c: string, t: string)
    requires ':' !in h && ':' !in c && ':' !in t && t != []
    ensures JavaSplit(h + [':'] + (c + [':'] + t), ':') == [h, c, t]
  {
    SplitAllAtSep(h, ':', c + [':'] + t);
    SplitAllAtSep(c, ':', t);
    SplitAllWithoutSep(t, ':');
    assert (h + [':'] + (c + [':'] + t))[|h|] == ':';
  }

  /** Java's split(":") cuts a formatted line into its three fields. */
  lemma FormatBindingFields(b: Binding)
    requires ':' !in b.hostPath && ':' !in b.containerPath
    ensures JavaSplit(FormatBinding(b), ':') == [b.hostPath, b.containerPath, AccessToken(b.access)]
  {
    SplitThreeFields(b.hostPath, b.containerPath, AccessToken(b.access));
  }

  /** A formatted line has nothing to clean and parses back to its binding. */
  lemma FormatBindingParses(b: Binding)
    requires CanonicalPath(b.hostPath) && CanonicalPath(b.containerPath)
    ensures CleanLine(FormatBinding(b)) == FormatBinding(b)
    ensures ParseLine(FormatBinding(b)) == Success(b)
  {
    var h, c, t := b.hostPath, b.containerPath, AccessToken(b.access);
    var line := FormatBinding(b);
    assert line[0] == h[0] && line[|line| - 1] == t[|t| - 1];
    assert forall ch :: ch in line ==> ch in h || ch == ':' || ch in c || ch in t;
    CleanLineOfPlain(line);
    FormatBindingFields(b);
    TrimOfUntrimmed(h);
    TrimOfUntrimmed(c);
    TrimOfUntrimmed(t);
  }

  /** A formatted line starts with its host path's '/' and holds no break. */
  lemma FormatBindingShape(b: Binding)
    requires CanonicalPath(b.hostPath) && CanonicalPath(b.containerPath)
    ensures FormatBinding(b)[0] == '/'
    ensures '\r' !in FormatBinding(b) && '\n' !in FormatBinding(b)
  {
  }

  /** Formatted lines are the segments of the formatted text. */
  lemma {:induction false} FormattedTextSegments(bs: seq<Binding>)
    requires bs != []
    requires forall b :: b in bs ==> CanonicalPath(b.hostPath) && CanonicalPath(b.containerPath)
    ensures SplitOnNewlineRuns(FormatBindings(bs)) == FormattedLines(bs)
  {
    var line := FormatBinding(bs[0]);
    assert bs[0] in bs;
    FormatBindingShape(bs[0]);
    if |bs| == 1 {
      SplitRunsWithoutBreak(line);
    } else {
      var tail := bs[1..];
      assert tail[0] in bs;
      FormattedTextSegments(tail);
      FormatBindingShape(tail[0]);
      var rest := FormatBindings(tail);
      assert rest[0] == FormatBinding(tail[0])[0];
      SplitRunsAtBreak(line, "\n", rest);
      assert FormatBindings(bs) == line + "\n" + rest;
      assert FormattedLines(bs) == [line] + FormattedLines(tail);
    }
  }

  /** Java's line split of the formatted text yields exactly the formatted lines. */
  lemma FormattedTextLines(bs: seq<Binding>)
    requires bs != []
    requires forall b :: b in bs ==> CanonicalPath(b.hostPath) && CanonicalPath(b.containerPath)
    ensures FormatBindings(bs) != ""
    ensures SplitLines(FormatBindings(bs)) == FormattedLines(bs)
  {
    var text := FormatBindings(bs);
    assert |text| >= |FormatBinding(bs[0])| > 0;
    FormattedTextSegments(bs);
    var lines := FormattedLines(bs);
    assert lines[|lines| - 1] != [] by {
      assert bs[|bs| - 1] in bs;
      FormatBindingShape(bs[|bs| - 1]);
    }
    assert SplitLines(text) == DropTrailingEmpty(lines);
  }

  /** Parsing the formatted lines gives back the bindings. */
  lemma {:induction false} FormattedLinesParse(bs: seq<Binding>, n: nat)
    requires forall b :: b in bs ==> CanonicalPath(b.hostPath) && CanonicalPath(b.containerPath)
    ensures ParseSegments(FormattedLines(bs), n) == Success(bs)
  {
    if bs != [] {
      assert bs[0] in bs;
      FormatBindingParses(bs[0]);
      assert forall b :: b in bs[1..] ==> b in bs;
      FormattedLinesParse(bs[1..], n + 1);
      ValidLineThenRest(FormatBinding(bs[0]), bs[0], FormattedLines(bs[1..]), bs[1..], n);
      FormattedLinesCons(bs);
      BindingsCons(bs);
    }
  }

  /** The formatted lines of a non-empty list: the first binding's line, then the rest's. */
  lemma FormattedLinesCons(bs: seq<Binding>)
    requires bs != []
    ensures FormattedLines(bs) == [FormatBinding(bs[0])] + FormattedLines(bs[1..])
  {
  }

  lemma BindingsCons(bs: seq<Binding>)
    requires bs != []
    ensures bs == [bs[0]] + bs[1..]
  {
  }

  /** A clean valid line followed by segments that parse contributes its binding ahead of theirs. */
  lemma ValidLineThenRest(line: string, b: Binding, rest: seq<string>, more: seq<Binding>, n: nat)
    requires line != [] && CleanLine(line) == line && ParseLine(line) == Success(b)
    requires ParseSegments(rest, n + 1) == Success(more)
    ensures ParseSegments([line] + rest, n) == Success([b] + more)
  {
    assert ([line] + rest)[0] == line && ([line] + rest)[1..] == rest;
  }

  /** Round trip: bindings with canonical paths, written one per line, parse back to the same list in the same order. */
  lemma FormatThenParse(bs: seq<Binding>)
    requires forall b :: b in bs ==> CanonicalPath(b.hostPath) && CanonicalPath(b.containerPath)
    ensures ParseBindingsSpec(Some(FormatBindings(bs))) == Success(bs)
  {
    if bs != [] {
      FormattedTextLines(bs);
      FormattedLinesParse(bs, 1);
    }
  }

  /** Parse, write back, parse again: the second parse gives the same bindings as the first. */
  lemma ParseFormatParse(text: Option<string>)
    requires ParseBindingsSpec(text).Success?
    ensures ParseBindingsSpec(Some(FormatBindings(ParseBindingsSpec(text).value))) == ParseBindingsSpec(text)
  {
    ParsedBindingsAreCanonical(text);
    FormatThenParse(ParseBindingsSpec(text).value);
  }

  // ---------------------------------------------------------------------
  // The field rules, line by line
  // ---------------------------------------------------------------------

  /** A field as written between colons: no colon, comment or break, and nothing to trim at its edges. */
  predicate PlainField(f: string)
  {
    f != [] && !IsTrimmed(f[0]) && !IsTrimmed(f[|f| - 1]) && ':' !in f && '#' !in f && '\r' !in f && '\n' !in f
  }

  lemma CleanLineOfPlain(line: string)
    requires line != [] && !IsTrimmed(line[0]) && !IsTrimmed(line[|line| - 1]) && '#' !in line
    ensures CleanLine(line) == line
  {
    TrimOfUntrimmed(line);
  }

  /** A text of one line without a comment is that line's result, reported as line 1. */
  lemma OneLineText(line: string)
    requires line != [] && !IsTrimmed(line[0]) && !IsTrimmed(line[|line| - 1])
    requires '#' !in line && '\r' !in line && '\n' !in line
    ensures ParseBindingsSpec(Some(line)) ==
      match ParseLine(line)
      case Failure(kind) => Failure(BindingError(kind, 1, line))
      case Success(b) => Success([b])
  {
    SplitLinesWithoutBreak(line);
    CleanLineOfPlain(line);
    ParseSegmentsStep([line], 1);
    assert [line][1..] == [];
    if ParseLine(line).Success? {
      assert [ParseLine(line).value] + [] == [ParseLine(line).value];
    }
  }

  /** What a text of one segment gives once that segment is cleaned: nothing when blank, else its line result as line 1. */
  function OneSegmentResult(line: string): Result<seq<Binding>, BindingError>
  {
    if line == [] then Success([])
    else match ParseLine(line)
      case Failure(kind) => Failure(BindingError(kind, 1, line))
      case Success(b) => Success([b])
  }

  lemma OneSegmentText(seg: string)
    requires seg != [] && '\r' !in seg && '\n' !in seg
    ensures ParseBindingsSpec(Some(seg)) == OneSegmentResult(CleanLine(seg))
  {
    SplitLinesWithoutBreak(seg);
    ParseSegmentsStep([seg], 1);
    assert [seg][1..] == [];
    var line := CleanLine(seg);
    if line != [] && ParseLine(line).Success? {
      assert [ParseLine(line).value] + [] == [ParseLine(line).value];
    }
  }

  /** A comment after a line's code changes nothing: the text parses as its trimmed code alone would. */
  lemma CommentIsIgnored(code: string, comment: string)
    requires '#' !in code && comment != [] && comment[0] == '#'
    requires '\r' !in code + comment && '\n' !in code + comment
    ensures ParseBindingsSpec(Some(code + comment)) == ParseBindingsSpec(Some(Trim(code)))
  {
    OneSegmentText(code + comment);
    CleanLineDropsComment(code, comment);
    if Trim(code) != [] {
      TrimmedCodeIsClean(code, comment);
      OneSegmentText(Trim(code));
    }
  }

  /** The trimmed code before a comment is a clean segment of its own. */
  lemma TrimmedCodeIsClean(code: string, comment: string)
    requires '#' !in code && Trim(code) != []
    requires '\r' !in code + comment && '\n' !in code + comment
    ensures '\r' !in Trim(code) && '\n' !in Trim(code)
    ensures CleanLine(Trim(code)) == Trim(code)
  {
    TrimIsInfix(code);
    assert forall c :: c in Trim(code) ==> c in code;
    assert forall c :: c in code ==> c in code + comment;
    CleanLineOfPlain(Trim(code));
  }

  /** One field: the host path is mounted at the same path, read-only. */
  lemma OneField(h: string)
    requires PlainField(h)
    ensures ParseLine(h) == if IsAbsolute(h) then Success(Binding(h, h, Read)) else Failure(RelativePath)
  {
    TrimOfUntrimmed(h);
  }

  /**
   * Two fields: an access token in the second field sets the access and
   * mounts the host path at the same path; anything else there is the
   * container path, mounted read-only.
   */
  lemma TwoFields(h: string, x: string)
    requires PlainField(h) && PlainField(x)
    ensures ParseLine(h + ":" + x) ==
      if AccessOf(x).Some? then
        (if IsAbsolute(h) then Success(Binding(h, h, AccessOf(x).value)) else Failure(RelativePath))
      else if IsAbsolute(h) && IsAbsolute(x) then Success(Binding(h, x, Read))
      else Failure(RelativePath)
  {
    SplitAllAtSep(h, ':', x);
    SplitAllWithoutSep(x, ':');
    assert (h + ":" + x)[|h|] == ':';
    assert h + ":" + x == h + [':'] + x;
    TrimOfUntrimmed(h);
    TrimOfUntrimmed(x);
  }

  /** Three fields: the third must be an access token, and both paths must be absolute. */
  lemma ThreeFields(h: string, c: string, t: string)
    requires PlainField(h) && PlainField(c) && PlainField(t)
    ensures ParseLine(h + ":" + c + ":" + t) ==
      if AccessOf(t).None? then Failure(UnsupportedAccess)
      else if IsAbsolute(h) && IsAbsolute(c) then Success(Binding(h, c, AccessOf(t).value))
      else Failure(RelativePath)
  {
    assert h + ":" + c + ":" + t == h + [':'] + (c + [':'] + t);
    SplitThreeFields(h, c, t);
    TrimOfUntrimmed(h);
    TrimOfUntrimmed(c);
    TrimOfUntrimmed(t);
  }

  /** Fields written between colons, as a mapping line holds them. */
  function JoinFields(f: seq<string>): string
    requires f != []
    decreases |f|
  {
    if |f| == 1 then f[0] else f[0] + [':'] + JoinFields(f[1..])
  }

  /** Splitting colon-free fields joined with colons gives every field back, empty ones included. */
  lemma {:induction false} SplitAllOfJoined(f: seq<string>)
    requires f != [] && forall i :: 0 <= i < |f| ==> ':' !in f[i]
    ensures SplitAll(JoinFields(f), ':') == f
    decreases |f|
  {
    if |f| == 1 {
      SplitAllWithoutSep(f[0], ':');
    } else {
      SplitAllOfJoined(f[1..]);
      SplitAllAtSep(f[0], ':', JoinFields(f[1..]));
      assert [f[0]] + f[1..] == f;
    }
  }

  /** Java's split(":") gives back colon-free fields joined with colons, when the last field is not empty. */
  lemma JavaSplitOfJoined(f: seq<string>)
    requires f != [] && forall i :: 0 <= i < |f| ==> ':' !in f[i]
    requires f[|f| - 1] != []
    ensures JavaSplit(JoinFields(f), ':') == f
  {
    SplitAllOfJoined(f);
    if |f| > 1 {
      assert JoinFields(f)[|f[0]|] == ':';
    }
  }

  /** More than three fields, the last not empty, is always the field-count error. */
  lemma TooManyFields(f: seq<string>)
    requires |f| > 3 && forall i :: 0 <= i < |f| ==> ':' !in f[i]
    requires f[|f| - 1] != []
    ensures ParseLine(JoinFields(f)) == Failure(WrongFieldCount)
  {
    JavaSplitOfJoined(f);
  }

  /** A colon after the last field adds an empty field, which Java's split drops. */
  lemma {:induction false} JoinFieldsWithEmptyLast(f: seq<string>)
    requires f != []
    ensures JoinFields(f + [""]) == JoinFields(f) + [':']
    decreases |f|
  {
    if |f| == 1 {
      assert (f + [""])[1..] == [""];
    } else {
      JoinFieldsWithEmptyLast(f[1..]);
      assert (f + [""])[1..] == f[1..] + [""];
    }
  }

  /** A line's result depends only on its colon-separated fields. */
  lemma SameFieldsSameResult(a: string, b: string)
    requires JavaSplit(a, ':') == JavaSplit(b, ':')
    ensures ParseLine(a) == ParseLine(b)
  {
  }

  /** Java's split(":") drops the empty field a trailing colon adds. */
  lemma JavaSplitTrailingColon(f: seq<string>)
    requires f != [] && forall i :: 0 <= i < |f| ==> ':' !in f[i]
    requires f[|f| - 1] != []
    ensures JavaSplit(JoinFields(f) + [':'], ':') == f
  {
    var g := f + [""];
    assert forall i :: 0 <= i < |g| ==> ':' !in g[i] by {
      assert forall i :: 0 <= i < |f| ==> g[i] == f[i];
    }
    JoinFieldsWithEmptyLast(f);
    SplitAllOfJoined(g);
    assert (JoinFields(f) + [':'])[|JoinFields(f)|] == ':';
    DropOneEmpty(f);
  }

  lemma DropOneEmpty(f: seq<string>)
    requires f != [] && f[|f| - 1] != []
    ensures DropTrailingEmpty(f + [""]) == f
  {
    assert (f + [""])[..|f|] == f;
  }

  /** A trailing colon changes nothing: `h:c:t:` reads as `h:c:t`, and a fourth field written empty is not counted. */
  lemma TrailingColonIgnored(f: seq<string>)
    requires f != [] && forall i :: 0 <= i < |f| ==> ':' !in f[i]
    requires f[|f| - 1] != []
    ensures ParseLine(JoinFields(f) + [':']) == ParseLine(JoinFields(f))
  {
    JavaSplitTrailingColon(f);
    JavaSplitOfJoined(f);
    SameFieldsSameResult(JoinFields(f) + [':'], JoinFields(f));
  }

  // ---------------------------------------------------------------------
  // Worked examples
  // ---------------------------------------------------------------------

  /** A line joined from plain fields has nothing to clean and is one segment. */
  lemma PlainFieldsLine(h: string, c: string, t: string)
    requires PlainField(h) && PlainField(c) && PlainField(t)
    ensures var line := h + ":" + c + ":" + t;
      line != [] && !IsTrimmed(line[0]) && !IsTrimmed(line[|line| - 1]) &&
      '#' !in line && '\r' !in line && '\n' !in line
  {
    var line := h + ":" + c + ":" + t;
    assert line[0] == h[0] && line[|line| - 1] == t[|t| - 1];
    assert forall ch :: ch in line ==> ch in h || ch == ':' || ch in c || ch in t;
  }

  /** A one-line text of three plain fields is the three-field rule's result, reported as line 1. */
  lemma ThreeFieldText(h: string, c: string, t: string)
    requires PlainField(h) && PlainField(c) && PlainField(t)
    ensures var line := h + ":" + c + ":" + t;
      ParseBindingsSpec(Some(line)) ==
        if AccessOf(t).None? then Failure(BindingError(UnsupportedAccess, 1, line))
        else if IsAbsolute(h) && IsAbsolute(c) then Success([Binding(h, c, AccessOf(t).value)])
        else Failure(BindingError(RelativePath, 1, line))
  {
    PlainFieldsLine(h, c, t);
    OneLineText(h + ":" + c + ":" + t);
    ThreeFields(h, c, t);
  }

  lemma ExampleFieldsArePlain()
    ensures PlainField("/data") && PlainField("/app/data") && PlainField("rw")
  {
  }

  lemma ExampleLineJoins()
    ensures "/data:/app/data:rw" == "/data" + ":" + "/app/data" + ":" + "rw"
  {
  }

  /** Three fields: host, container and a read-write access token. */
  lemma ExampleThreeFields()
    ensures ParseBindingsSpec(Some("/data:/app/data:rw")) == Success([Binding("/data", "/app/data", ReadWrite)])
  {
    ExampleFieldsArePlain();
    ExampleLineJoins();
    ThreeFieldText("/data", "/app/data", "rw");
    AccessOfTokens("rw");
  }

  /** One field: the host path is mounted at the same path, read-only. */
  lemma ExampleOneField()
    ensures ParseBindingsSpec(Some("/data")) == Success([Binding("/data", "/data", Read)])
  {
    ExampleFieldsArePlain();
    OneLineText("/data");
    OneField("/data");
  }

  /** Two fields whose second is neither an access token nor absolute: a relative-path error on line 1. */
  lemma ExampleRelativeContainer()
    ensures ParseBindingsSpec(Some("/rel:data")) == Failure(BindingError(RelativePath, 1, "/rel:data"))
  {
    ExampleRelativeFields();
    OneLineText("/rel:data");
    TwoFields("/rel", "data");
    AccessOfTokens("data");
  }

  lemma ExampleRelativeFields()
    ensures PlainField("/rel") && PlainField("data") && !IsAbsolute("data")
    ensures "/rel:data" == "/rel" + ":" + "data"
    ensures !IsTrimmed("/rel:data"[0]) && !IsTrimmed("/rel:data"[8])
    ensures '#' !in "/rel:data" && '\r' !in "/rel:data" && '\n' !in "/rel:data"
  {
  }

  /**
   * Line numbers count segments between runs of breaks, not physical lines:
   * whatever the length of the run of breaks between them, the second
   * non-blank line is reported as line 2.
   */
  lemma LineAfterBreakRunIsLineTwo(first: string, brk: string, second: string)
    requires first != [] && !IsTrimmed(first[0]) && !IsTrimmed(first[|first| - 1]) && '#' !in first
    requires second != [] && !IsTrimmed(second[0]) && !IsTrimmed(second[|second| - 1]) && '#' !in second
    requires '\r' !in first && '\n' !in first && '\r' !in second && '\n' !in second
    requires brk != [] && forall k :: 0 <= k < |brk| ==> IsNewline(brk[k])
    requires ParseLine(first).Success?
    requires ParseLine(second).Failure?
    ensures ParseBindingsSpec(Some(first + brk + second)) == Failure(BindingError(ParseLine(second).error, 2, second))
  {
    SplitRunsAtBreak(first, brk, second);
    SplitRunsWithoutBreak(second);
    var segs := SplitLines(first + brk + second);
    assert segs == [first, second];
    CleanLineOfPlain(first);
    CleanLineOfPlain(second);
    ParseSegmentsStep(segs, 1);
    assert segs[1..] == [second];
    ParseSegmentsStep([second], 2);
  }
}
