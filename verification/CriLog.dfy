/** Per-command log files in CRI format, written line by line and stripped again when dumped. */
module CriLog {
  import opened Seqs
  import opened Strings

  const NL: char := '\n'
  const CR: char := '\r'
  const SP: char := ' '

  function DropCr(line: string): string {
    if line != [] && line[|line| - 1] == CR then line[..|line| - 1] else line
  }

  /** `str::lines`: split at newlines, dropping one carriage return before each; no final empty line. */
  function Lines(s: string): seq<string> {
    if s == [] then []
    else
      var i := IndexOf(s, NL);
      if i == |s| then [s] else [DropCr(s[..i])] + Lines(s[i + 1..])
  }

  /** One log line: time stamp, stream, full-line tag, content. */
  function LogLine(ts: string, stream: string, line: string): string {
    ts + [SP] + stream + " F " + line + [NL]
  }

  function LogLines(ts: string, stream: string, lines: seq<string>): string {
    if lines == [] then [] else LogLines(ts, stream, lines[..|lines| - 1]) + LogLine(ts, stream, lines[|lines| - 1])
  }

  function Contents(stdout: string, stderr: string, ts: string): string {
    LogLines(ts, "stdout", Lines(stdout)) + LogLines(ts, "stderr", Lines(stderr))
  }

  method WriteCriLog(stdout: string, stderr: string, ts: string) returns (file: string)
    ensures file == Contents(stdout, stderr, ts)
  {
    file := "";
    var outLines := Lines(stdout);
    for i := 0 to |outLines|
      invariant file == LogLines(ts, "stdout", outLines[..i])
    {
      assert outLines[..i + 1][..i] == outLines[..i];
      file := file + LogLine(ts, "stdout", outLines[i]);
    }
    assert outLines[..|outLines|] == outLines;
    var errLines := Lines(stderr);
    for i := 0 to |errLines|
      invariant file == LogLines(ts, "stdout", outLines) + LogLines(ts, "stderr", errLines[..i])
    {
      assert errLines[..i + 1][..i] == errLines[..i];
      file := file + LogLine(ts, "stderr", errLines[i]);
    }
    assert errLines[..|errLines|] == errLines;
  }

  /** The lines one after the other, each closed by a newline. */
  function Terminated(lines: seq<string>): string {
    if lines == [] then [] else lines[0] + "\n" + Terminated(lines[1..])
  }

  /** `lines` are these newline-free lines; those that are closed in the text are short of a carriage return
      at their end. The last one may be open. */
  ghost predicate AreLines(raw: seq<string>, lines: seq<string>, closed: bool) {
    && |raw| == |lines|
    && (forall l :: l in raw ==> '\n' !in l)
    && forall i :: 0 <= i < |raw| ==>
         if raw[i] != "" && raw[i][|raw[i]| - 1] == '\r' && (closed || i < |raw| - 1)
         then lines[i] == raw[i][..|raw[i]| - 1] else lines[i] == raw[i]
  }

  /** What splitting into lines means: they are those of the text, with a final newline supplied if it is
      missing. */
  lemma {:induction false} LinesMean(s: string) returns (raw: seq<string>)
    ensures var closed := s == "" || s[|s| - 1] == '\n';
            AreLines(raw, Lines(s), closed) && Terminated(raw) == if closed then s else s + "\n"
    decreases |s|
  {
    hide AreLines;
    var i := IndexOf(s, NL);
    if s == [] || i == |s| {
      raw := if s == [] then [] else [s];
      OpenLine(s);
    } else {
      var first, rest := s[..i], s[i + 1..];
      raw := LinesMean(rest);
      assert s == first + "\n" + rest;
      ClosedLine(first, raw, Lines(rest), rest == "" || rest[|rest| - 1] == '\n');
      Associate(first + "\n", rest, "\n");
      raw := [first] + raw;
    }
  }

  lemma OpenLine(s: string)
    requires '\n' !in s
    ensures AreLines([], [], true) && Terminated([]) == ""
    ensures AreLines([s], [s], false) && Terminated([s]) == s + "\n"
  {
    assert [s][1..] == [];
  }

  lemma ClosedLine(first: string, raw: seq<string>, lines: seq<string>, closed: bool)
    requires AreLines(raw, lines, closed) && '\n' !in first && (closed || raw != [])
    ensures AreLines([first] + raw, [DropCr(first)] + lines, closed)
    ensures Terminated([first] + raw) == first + "\n" + Terminated(raw)
  {
    assert ([first] + raw)[1..] == raw;
  }

  function Prefixed(prefix: string, lines: seq<string>): (r: seq<string>)
    ensures |r| == |lines| && forall i :: 0 <= i < |r| ==> r[i] == prefix + lines[i]
  {
    seq(|lines|, i requires 0 <= i < |lines| => prefix + lines[i])
  }

  lemma {:induction false} TerminatedAppend(a: seq<string>, b: seq<string>)
    ensures Terminated(a + b) == Terminated(a) + Terminated(b)
  {
    if a == [] {
      assert a + b == b;
    } else {
      TerminatedAppend(a[1..], b);
      assert (a + b)[1..] == a[1..] + b;
      Associate(a[0] + "\n", Terminated(a[1..]), Terminated(b));
    }
  }

  lemma {:induction false} LogLinesMean(ts: string, stream: string, lines: seq<string>)
    ensures LogLines(ts, stream, lines) == Terminated(Prefixed(ts + " " + stream + " F ", lines))
  {
    var prefix := ts + " " + stream + " F ";
    if lines != [] {
      var init, last := lines[..|lines| - 1], lines[|lines| - 1];
      LogLinesMean(ts, stream, init);
      assert Prefixed(prefix, lines) == Prefixed(prefix, init) + [prefix + last];
      TerminatedAppend(Prefixed(prefix, init), [prefix + last]);
      assert [prefix + last][1..] == [];
      assert LogLine(ts, stream, last) == prefix + last + "\n" == Terminated([prefix + last]);
    }
  }

  /** A log file: a closed line for each stdout line, then for each stderr line, each behind the time stamp,
      its stream's tag and the full-line tag. */
  lemma ContentsMean(stdout: string, stderr: string, ts: string)
    ensures Contents(stdout, stderr, ts) ==
            Terminated(Prefixed(ts + " stdout F ", Lines(stdout)) + Prefixed(ts + " stderr F ", Lines(stderr)))
  {
    LogLinesMean(ts, "stdout", Lines(stdout));
    LogLinesMean(ts, "stderr", Lines(stderr));
    assert ts + " " + "stdout" + " F " == ts + " stdout F ";
    assert ts + " " + "stderr" + " F " == ts + " stderr F ";
    TerminatedAppend(Prefixed(ts + " stdout F ", Lines(stdout)), Prefixed(ts + " stderr F ", Lines(stderr)));
  }

  // ------------------------------------------------------------- reading back

  /** What follows the `n`-th space. */
  function AfterSpaces(line: string, n: nat): string
    requires n <= Count(line, SP)
  {
    if n == 0 then line
    else
      CountTail(line);
      AfterSpaces(line[IndexOf(line, SP) + 1..], n - 1)
  }

  function Count(s: string, c: char): nat {
    if s == [] then 0 else (if s[0] == c then 1 else 0) + Count(s[1..], c)
  }

  lemma {:induction false} CountTail(s: string)
    ensures Count(s, SP) > 0 ==> IndexOf(s, SP) < |s| && Count(s[IndexOf(s, SP) + 1..], SP) == Count(s, SP) - 1
  {
    if s != [] && s[0] != SP {
      CountTail(s[1..]);
      if Count(s, SP) > 0 { assert s[1..][IndexOf(s[1..], SP) + 1..] == s[IndexOf(s, SP) + 1..]; }
    }
  }

  /** The fourth of at most four space-separated fields, or the line itself if there are fewer. */
  function Strip(line: string): string {
    if Count(line, SP) >= 3 then AfterSpaces(line, 3) else line
  }

  function StripAll(lines: seq<string>): seq<string> {
    if lines == [] then [] else StripAll(lines[..|lines| - 1]) + [Strip(lines[|lines| - 1])]
  }

  function DropCrs(lines: seq<string>): seq<string> {
    if lines == [] then [] else DropCrs(lines[..|lines| - 1]) + [DropCr(lines[|lines| - 1])]
  }

  /** Print a log file the way `DumpLogsOnDrop` does, as the list of printed lines. */
  method Dump(contents: string) returns (printed: seq<string>)
    ensures printed == StripAll(Lines(contents))
  {
    printed := [];
    var lines := Lines(contents);
    for i := 0 to |lines|
      invariant printed == StripAll(lines[..i])
    {
      assert lines[..i + 1][..i] == lines[..i];
      printed := printed + [Strip(lines[i])];
    }
    assert lines[..|lines|] == lines;
  }

  lemma {:induction false} StripAllCons(line: string, lines: seq<string>)
    ensures StripAll([line] + lines) == [Strip(line)] + StripAll(lines)
  {
    if lines == [] {
      assert [line] + lines == [line];
      assert [line][..0] == [];
    } else {
      StripAllCons(line, lines[..|lines| - 1]);
      assert ([line] + lines)[..|lines|] == [line] + lines[..|lines| - 1];
    }
  }

  lemma {:induction false} DropCrsAppend(a: seq<string>, b: seq<string>)
    ensures DropCrs(a + b) == DropCrs(a) + DropCrs(b)
  {
    if b == [] {
      assert a + b == a;
    } else {
      DropCrsAppend(a, b[..|b| - 1]);
      assert (a + b)[..|a + b| - 1] == a + b[..|b| - 1];
    }
  }

  lemma {:induction false} DropCrsAt(lines: seq<string>)
    ensures |DropCrs(lines)| == |lines|
    ensures forall i :: 0 <= i < |lines| ==> DropCrs(lines)[i] == DropCr(lines[i])
  {
    if lines != [] { DropCrsAt(lines[..|lines| - 1]); }
  }

  lemma {:induction false} LinesHaveNoNewline(s: string)
    ensures forall l :: l in Lines(s) ==> NL !in l
  {
    if s != [] && IndexOf(s, NL) < |s| { LinesHaveNoNewline(s[IndexOf(s, NL) + 1..]); }
  }

  /** A time stamp that keeps the field structure intact. */
  predicate FieldLike(ts: string) { SP !in ts && NL !in ts }

  lemma IndexOfAppend(a: string, c: char, b: string)
    requires c !in a
    ensures IndexOf(a + [c] + b, c) == |a|
  {
    assert (a + [c] + b)[|a|] == c;
    assert forall k :: 0 <= k < |a| ==> (a + [c] + b)[k] == a[k];
  }

  lemma {:induction false} CountAppend(a: string, b: string)
    ensures Count(a + b, SP) == Count(a, SP) + Count(b, SP)
  {
    if a == [] {
      assert a + b == b;
    } else {
      CountAppend(a[1..], b);
      assert (a + b)[1..] == a[1..] + b;
    }
  }

  /** One field and its space, taken off the front. */
  lemma PeelField(field: string, rest: string)
    requires SP !in field
    ensures Count(field + [SP] + rest, SP) == 1 + Count(rest, SP)
    ensures forall n: nat :: n < 1 + Count(rest, SP) ==> AfterSpaces(field + [SP] + rest, n + 1) == AfterSpaces(rest, n)
  {
    var s := field + [SP] + rest;
    CountAppend(field + [SP], rest);
    CountAppend(field, [SP]);
    CountNone(field);
    assert [SP][1..] == [];
    IndexOfAppend(field, SP, rest);
    assert s[|field| + 1..] == rest;
  }

  lemma {:induction false} CountNone(s: string)
    requires SP !in s
    ensures Count(s, SP) == 0
  {
    if s != [] { CountNone(s[1..]); }
  }

  /** Stripping undoes the prefix, whatever the content, spaces and emptiness included. */
  lemma StripUndoesPrefix(ts: string, stream: string, line: string)
    requires FieldLike(ts) && FieldLike(stream)
    ensures Strip(ts + [SP] + stream + " F " + line) == line
  {
    var r2 := "F" + [SP] + line;
    var r1 := stream + [SP] + r2;
    assert ts + [SP] + stream + " F " + line == ts + [SP] + r1;
    PeelField("F", line);
    PeelField(stream, r2);
    PeelField(ts, r1);
    assert AfterSpaces(line, 0) == line;
    assert AfterSpaces(r2, 1) == line;
    assert AfterSpaces(r1, 2) == line;
  }

  /** A line is stripped of its first three space-separated fields. */
  lemma StripMeans(a: string, b: string, c: string, rest: string)
    requires ' ' !in a && ' ' !in b && ' ' !in c
    ensures Strip(a + " " + b + " " + c + " " + rest) == rest
  {
    var r2 := c + [SP] + rest;
    var r1 := b + [SP] + r2;
    assert a + " " + b + " " + c + " " + rest == a + [SP] + r1;
    hide AfterSpaces, Count;
    PeelField(c, rest);
    PeelField(b, r2);
    PeelField(a, r1);
    NothingToSkip(rest);
  }

  lemma NothingToSkip(line: string)
    ensures AfterSpaces(line, 0) == line
  {
  }

  /** One with fewer fields is left whole. */
  lemma ShortLinesStay(a: string, b: string, c: string)
    requires ' ' !in a && ' ' !in b && ' ' !in c
    ensures Strip(a) == a && Strip(a + " " + b) == a + " " + b
    ensures Strip(a + " " + b + " " + c) == a + " " + b + " " + c
  {
    assert a + " " + b + " " + c == a + [SP] + (b + [SP] + c);
    hide AfterSpaces, Count;
    PeelField(b, c);
    PeelField(a, b + [SP] + c);
    PeelField(a, b);
    CountNone(a);
    CountNone(b);
    CountNone(c);
  }

  /** Reading one written line off the front of a file. */
  lemma ReadLogLine(ts: string, stream: string, line: string, rest: string)
    requires FieldLike(ts) && FieldLike(stream) && NL !in line
    ensures Lines(LogLine(ts, stream, line) + rest) == [ts + [SP] + stream + " F " + DropCr(line)] + Lines(rest)
  {
    var prefix := ts + [SP] + stream + " F ";
    var file := LogLine(ts, stream, line) + rest;
    assert file == (prefix + line) + [NL] + rest;
    assert NL !in prefix + line;
    IndexOfAppend(prefix + line, NL, rest);
    assert file[..|prefix + line|] == prefix + line && file[|prefix + line| + 1..] == rest;
    assert prefix[|prefix| - 1] == SP;
    DropCrBehind(prefix, line);
  }

  lemma DropCrBehind(prefix: string, line: string)
    requires prefix != [] && prefix[|prefix| - 1] != CR
    ensures DropCr(prefix + line) == prefix + DropCr(line)
  {
    if line == [] {
      assert prefix + line == prefix;
    } else {
      assert (prefix + line)[..|prefix + line| - 1] == prefix + line[..|line| - 1];
    }
  }

  /** What dumping a text prints. */
  function DumpOf(contents: string): seq<string> { StripAll(Lines(contents)) }

  lemma DumpLogLine(ts: string, stream: string, line: string, rest: string)
    requires FieldLike(ts) && FieldLike(stream) && NL !in line
    ensures DumpOf(LogLine(ts, stream, line) + rest) == [DropCr(line)] + DumpOf(rest)
  {
    ReadLogLine(ts, stream, line, rest);
    StripUndoesPrefix(ts, stream, DropCr(line));
    StripAllCons(ts + [SP] + stream + " F " + DropCr(line), Lines(rest));
  }

  lemma {:induction false} DumpLogLines(ts: string, stream: string, lines: seq<string>, rest: string, out: seq<string>)
    requires FieldLike(ts) && FieldLike(stream) && forall l :: l in lines ==> NL !in l
    requires DumpOf(rest) == out
    ensures DumpOf(LogLines(ts, stream, lines) + rest) == DropCrs(lines) + out
  {
    if lines == [] {
      assert LogLines(ts, stream, lines) + rest == rest;
    } else {
      var init, last := lines[..|lines| - 1], lines[|lines| - 1];
      DumpLogLine(ts, stream, last, rest);
      DumpLogLines(ts, stream, init, LogLine(ts, stream, last) + rest, [DropCr(last)] + out);
      Associate(LogLines(ts, stream, init), LogLine(ts, stream, last), rest);
      Associate(DropCrs(init), [DropCr(last)], out);
    }
  }

  /** Dumping a log file prints exactly the stdout lines, then the stderr lines, each short of at most
      one carriage return: so exactly the lines themselves when, and only when, none ends in one. */
  lemma DumpGivesLinesBack(stdout: string, stderr: string, ts: string)
    requires FieldLike(ts)
    ensures DumpOf(Contents(stdout, stderr, ts)) == DropCrs(Lines(stdout) + Lines(stderr))
    ensures DumpOf(Contents(stdout, stderr, ts)) == Lines(stdout) + Lines(stderr) <==>
              forall l :: l in Lines(stdout) + Lines(stderr) ==> DropCr(l) == l
  {
    LinesHaveNoNewline(stdout);
    LinesHaveNoNewline(stderr);
    DumpLogLines(ts, "stderr", Lines(stderr), "", []);
    assert LogLines(ts, "stderr", Lines(stderr)) + "" == LogLines(ts, "stderr", Lines(stderr));
    DumpLogLines(ts, "stdout", Lines(stdout), LogLines(ts, "stderr", Lines(stderr)), DropCrs(Lines(stderr)));
    DropCrsAppend(Lines(stdout), Lines(stderr));
    DropCrsIdentity(Lines(stdout) + Lines(stderr));
  }

  lemma DropCrsIdentity(lines: seq<string>)
    ensures DropCrs(lines) == lines <==> forall l :: l in lines ==> DropCr(l) == l
  {
    DropCrsAt(lines);
    if DropCrs(lines) == lines {
      forall l | l in lines ensures DropCr(l) == l {
        var i :| 0 <= i < |lines| && lines[i] == l;
      }
    } else if forall l :: l in lines ==> DropCr(l) == l {
      assert forall i :: 0 <= i < |lines| ==> lines[i] in lines;
    }
  }

  /** Output without carriage returns has no line ending in one. */
  lemma {:induction false} NoCrInLines(s: string)
    requires CR !in s
    ensures forall l :: l in Lines(s) ==> CR !in l && DropCr(l) == l
  {
    if s != [] && IndexOf(s, NL) < |s| { NoCrInLines(s[IndexOf(s, NL) + 1..]); }
  }
}
