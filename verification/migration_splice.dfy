/** Scripts cut into statements for a file, and the line that squashing adds to a file's header. */
module MigrationSplice {
  import opened Text
  import opened MigrationFiles
  import opened MigrationRoundTrip
  import opened MigrationExact

  const SQUASHED_FROM := "-- @squashed-from:"

  // ---------- scripts ----------

  function TrimmedKept(lines: seq<string>): seq<string> {
    if lines == [] then []
    else
      TrimmedKept(lines[..|lines| - 1])
      + if Kept(lines[|lines| - 1]) then [Trim(lines[|lines| - 1])] else []
  }

  function ScriptStatements(script: string): seq<string> {
    var lines := TrimmedKept(Split(UnixLines(script), '\n'));
    if lines == [] then [] else Terminated(NonBlank(Split(Join(lines, " "), ';')))
  }

  method SplitScriptStatements(script: string) returns (out: seq<string>)
    ensures out == ScriptStatements(script)
  {
    hide Split, Join, Trim, UnixLines;
    var lines := Split(UnixLines(script), '\n');
    var cleaned := [];
    for i := 0 to |lines|
      invariant cleaned == TrimmedKept(lines[..i])
    {
      assert lines[..i + 1][..i] == lines[..i];
      var trim := Trim(lines[i]);
      if trim == "" { continue; }
      if "--" <= trim { continue; }
      cleaned := cleaned + [trim];
    }
    assert lines[..|lines|] == lines;
    if |cleaned| == 0 { return []; }
    var parts := Split(Join(cleaned, " "), ';');
    out := [];
    for i := 0 to |parts|
      invariant out == Terminated(NonBlank(parts[..i]))
    {
      assert parts[..i + 1][..i] == parts[..i];
      var stmt := Trim(parts[i]);
      if stmt == "" { continue; }
      out := out + [stmt + ";"];
      assert Terminated(NonBlank(parts[..i]) + [stmt]) == out;
    }
    assert parts[..|parts|] == parts;
  }

  lemma {:induction false} TrimmedKeptLines(lines: seq<string>, i: nat)
    requires (forall k :: 0 <= k < |lines| ==> '\n' !in lines[k]) && i < |TrimmedKept(lines)|
    ensures '\n' !in TrimmedKept(lines)[i]
  {
    hide *;
    TrimmedKeptLast(lines);
    var init, line := lines[..|lines| - 1], lines[|lines| - 1];
    TrimIsTrimmed(line);
    if i < |TrimmedKept(init)| { TrimmedKeptLines(init, i); }
  }

  lemma TrimmedKeptLast(lines: seq<string>)
    ensures lines == [] ==> TrimmedKept(lines) == []
    ensures lines != [] ==>
      TrimmedKept(lines) == TrimmedKept(lines[..|lines| - 1])
        + if Kept(lines[|lines| - 1]) then [Trim(lines[|lines| - 1])] else []
  {
    hide Trim, Kept;
  }

  /** Statements of a script are single lines; a file keeps one exactly if it does not look like a comment. */
  lemma ScriptStatementIs(script: string, i: nat)
    requires i < |ScriptStatements(script)|
    ensures
      var s := ScriptStatements(script)[i];
      IsTerminated(s) && '\n' !in s && (IsStatement(s) <==> !("--" <= s))
  {
    hide *;
    var s := ScriptStatements(script)[i];
    var t := ScriptPart(script, i);
    TerminatedIs(t);
    assert '\n' !in s && Trimmed(s) && s != "" by { Ends(t); }
    SplitNone(s, '\n');
    TrimIsTrimmed(s);
    StatementMeans(s);
  }

  lemma Ends(t: string)
    requires t != "" && Trimmed(t) && '\n' !in t
    ensures '\n' !in t + ";" && Trimmed(t + ";") && t + ";" != ""
  {
    assert (t + ";")[0] == t[0];
  }

  lemma StatementMeans(s: string)
    requires Split(s, '\n') == [s] && Trim(s) == s && s != "" && IsTerminated(s)
    ensures IsStatement(s) <==> !("--" <= s)
  {
    hide Split, Trim, IsTerminated;
    assert AllKept([s]) <==> Kept([s][0]);
  }

  lemma ScriptPart(script: string, i: nat) returns (t: string)
    requires i < |ScriptStatements(script)|
    ensures ScriptStatements(script)[i] == t + ";" && t != "" && Trimmed(t) && ';' !in t && '\n' !in t
  {
    var body := UnixLines(script);
    var raw := Split(body, '\n');
    var lines := TrimmedKept(raw);
    var all := Join(lines, " ");
    var parts := Split(all, ';');
    assert ScriptStatements(script) == Terminated(NonBlank(parts)) by { hide *; ScriptStatementsAre(script); }
    hide *;
    t := NonBlank(parts)[i];
    var k := NonBlankShape(parts, i);
    SplitPieces(all, ';');
    SplitPieces(body, '\n');
    assert parts[k] in parts;
    forall j | 0 <= j < |raw| ensures '\n' !in raw[j] { assert raw[j] in raw; }
    forall j | 0 <= j < |lines| ensures '\n' !in lines[j] { TrimmedKeptLines(raw, j); }
    JoinChars(lines, " ", '\n');
  }

  lemma ScriptStatementsAre(script: string)
    ensures
      var lines := TrimmedKept(Split(UnixLines(script), '\n'));
      ScriptStatements(script) != [] ==> ScriptStatements(script) == Terminated(NonBlank(Split(Join(lines, " "), ';')))
  {
    hide TrimmedKept, NonBlank, Split, Join, UnixLines, Terminated;
  }

  // ---------- generated files ----------

  function NotComments(ss: seq<string>): seq<string> {
    if ss == [] then [] else NotComments(ss[..|ss| - 1]) + if "--" <= ss[|ss| - 1] then [] else [ss[|ss| - 1]]
  }

  /** A statement on one line, by itself. */
  predicate IsLine(s: string) {
    IsTerminated(s) && '\n' !in s && Trim(s) == s
  }

  lemma ScriptLines(script: string)
    ensures forall i :: 0 <= i < |ScriptStatements(script)| ==> IsLine(ScriptStatements(script)[i])
  {
    hide *;
    forall i | 0 <= i < |ScriptStatements(script)| ensures IsLine(ScriptStatements(script)[i]) {
      var t := ScriptPart(script, i);
      TerminatedIs(t);
      Ends(t);
      TrimIsTrimmed(t + ";");
      LineIs(t + ";");
    }
  }

  lemma LineIs(s: string)
    ensures IsLine(s) <==> IsTerminated(s) && '\n' !in s && Trim(s) == s
  {
    hide IsTerminated, Trim;
  }

  lemma LineIsKept(s: string)
    requires IsLine(s)
    ensures Kept(s) <==> !("--" <= s)
    ensures Split(s, '\n') == [s] && UnixLines(s) == s && !IsUp(s) && !IsDown(s)
  {
    SplitNone(s, '\n');
    OneLineHasNoPair(s);
    Semicolon(s);
    assert UP[|UP| - 1] == 'p' && DOWN[|DOWN| - 1] == 'n' && s[|s| - 1] == ';';
    hide Trim, Split, UnixLines;
  }

  lemma LinesAreThemselves(ss: seq<string>)
    requires forall i :: 0 <= i < |ss| ==> IsLine(ss[i])
    ensures LinesOf(ss) == ss && UnixAll(ss) == ss && AllTerminated(ss) && NoMarkers(ss) && NoMarkers(ss + [""])
    ensures Cleaned(ss) == NotComments(ss)
  {
    LinesAreNoMarkers(ss);
    LinesStay(ss);
    hide *;
  }

  lemma LinesAreNoMarkers(ss: seq<string>)
    requires forall i :: 0 <= i < |ss| ==> IsLine(ss[i])
    ensures AllTerminated(ss) && NoMarkers(ss) && NoMarkers(ss + [""])
  {
    MarkersDiffer();
    hide IsUp, IsDown, IsTerminated, Trim;
    forall i | 0 <= i < |ss| ensures !IsUp(ss[i]) && !IsDown(ss[i]) { LineIsKept(ss[i]); }
  }

  lemma {:induction false} LinesStay(ss: seq<string>)
    requires forall i :: 0 <= i < |ss| ==> IsLine(ss[i])
    ensures LinesOf(ss) == ss && UnixAll(ss) == ss && Cleaned(ss) == NotComments(ss)
  {
    hide IsLine, Split, UnixLines, Kept;
    if ss != [] {
      var init, s := ss[..|ss| - 1], ss[|ss| - 1];
      LinesStay(init);
      LineIsKept(s);
      assert init + [s] == ss;
    }
  }

  lemma {:induction false} NotCommentsAreLines(ss: seq<string>)
    requires forall i :: 0 <= i < |ss| ==> IsLine(ss[i])
    ensures forall i :: 0 <= i < |NotComments(ss)| ==> IsLine(NotComments(ss)[i]) && Kept(NotComments(ss)[i])
  {
    hide IsLine, Kept;
    if ss != [] {
      NotCommentsAreLines(ss[..|ss| - 1]);
      LineIsKept(ss[|ss| - 1]);
    }
  }

  lemma CleanedDecides(a: seq<string>, b: seq<string>)
    requires Cleaned(a) == Cleaned(b)
    ensures Statements(a) == Statements(b)
  {
    hide Cleaned, Split, Join, NonBlank, Terminated;
  }

  /** Of statements on lines of their own, those are read that do not begin like a comment. */
  lemma LinesRead(ss: seq<string>)
    requires forall i :: 0 <= i < |ss| ==> IsLine(ss[i])
    ensures Statements(ss) == NotComments(ss)
  {
    hide *;
    var kept := NotComments(ss);
    LinesAreThemselves(ss);
    NotCommentsAreLines(ss);
    LinesAreThemselves(kept);
    AllKeptMeans(kept);
    CleanedKeeps(kept);
    StatementsRead(kept);
    CleanedDecides(ss, kept);
  }

  function Generated(description: string, up: string, down: string): Parsed {
    Parsed(description, [], ScriptStatements(up), ScriptStatements(down))
  }

  /** From a generated file, all its statements are read but those that begin like a comment. */
  lemma GeneratedFileIs(description: string, up: string, down: string)
    requires IsDescription(description)
    ensures
      var x := Generated(description, up, down);
      Parse(Render(x)) == Ok(Parsed(description, [], NotComments(x.up), NotComments(x.down)))
  {
    hide *;
    var x := Generated(description, up, down);
    GeneratedMeans(description, up, down);
    ScriptLines(up);
    ScriptLines(down);
    LinesAreThemselves(x.up);
    LinesAreThemselves(x.down);
    UnixRender(x);
    UnixIsSame(x);
    RenderSplits(x);
    ParseOfRender(x, x);
    HeaderReads(x);
    NoMarkersMeans(HeaderLines(x));
    ReadsSections(HeaderLines(x), x.up, x.down + [""]);
    BlankLineIsDropped(x.down);
    LinesRead(x.up);
    LinesRead(x.down);
    SectionsAre(HeaderLines(x), x.up, x.down + [""], Parsed(description, [], NotComments(x.up), NotComments(x.down)));
  }

  lemma GeneratedMeans(description: string, up: string, down: string)
    requires IsDescription(description)
    ensures
      var x := Generated(description, up, down);
      HeaderIsFine(x) && x.description == description && x.dependsOn == [] && x.up == ScriptStatements(up)
        && x.down == ScriptStatements(down)
  {
    hide IsDescription, ScriptStatements;
  }

  lemma {:induction false} NoCommentsIf(ss: seq<string>)
    ensures NotComments(ss) == ss <==> forall i :: 0 <= i < |ss| ==> !("--" <= ss[i])
    ensures |NotComments(ss)| <= |ss|
  {
    if ss != [] { NoCommentsIf(ss[..|ss| - 1]); }
  }

  /**
   So a generated file is read back as it was written exactly if no statement cut from the scripts looks like a
   comment.
   */
  lemma GeneratedFileReads(description: string, up: string, down: string)
    ensures
      var x := Generated(description, up, down);
      Parse(Render(x)) == Ok(x) <==>
        && IsDescription(description)
        && (forall i :: 0 <= i < |x.up| ==> !("--" <= x.up[i]))
        && (forall i :: 0 <= i < |x.down| ==> !("--" <= x.down[i]))
  {
    hide *;
    var x := Generated(description, up, down);
    NoCommentsIf(x.up);
    NoCommentsIf(x.down);
    if IsDescription(description) {
      GeneratedFileIs(description, up, down);
      GeneratedMeans(description, up, down);
    } else if Parse(Render(x)) == Ok(x) {
      ReadShape(x);
      assert x.description == description by { DescriptionIs(description, up, down); }
      DescriptionOf(x);
    }
  }

  lemma DescriptionIs(description: string, up: string, down: string)
    ensures Generated(description, up, down).description == description
  {
    hide ScriptStatements;
  }

  lemma OneLineScript(script: string)
    requires '\n' !in script && Trim(script) == script && Kept(script)
    ensures ScriptStatements(script) == Terminated(NonBlank(Split(script, ';')))
  {
    OneLineHasNoPair(script);
    SplitNone(script, '\n');
    JoinOne(script, " ");
    assert [script][..0] == [] && [script][0] == script;
    assert TrimmedKept([script]) == [script];
    hide TrimmedKept, Kept, Trim, Terminated, NonBlank, UnixLines, Join;
    assert TrimmedKept(Split(UnixLines(script), '\n')) == [script];
  }

  lemma CommentIsNoScript(script: string)
    requires Split(UnixLines(script), '\n') == [script] && !Kept(script)
    ensures ScriptStatements(script) == []
  {
    assert [script][..0] == [] && [script][0] == script;
    assert TrimmedKept([script]) == [];
    hide TrimmedKept, Kept, Split, UnixLines;
  }

  lemma LineIsOneStatement(s: string)
    requires IsLine(s)
    ensures Terminated(NonBlank(Split(s, ';'))) == [s]
  {
    hide *;
    LineIs(s);
    BodiesOne(s);
    JoinOne(s, "\n");
    Semicolon(s);
    var ts := [s[..|s| - 1]];
    assert |Terminated(ts)| == 1 && Terminated(ts)[0] == ts[0] + ";";
  }

  /**
   A statement put into a script comes out of it as the one statement it was exactly if it is a trimmed line with its
   one semicolon at the end that does not begin like a comment.
   */
  lemma StatementSurvives(sql: string)
    ensures ScriptStatements(sql) == [sql] <==> IsLine(sql) && !("--" <= sql)
  {
    hide *;
    if ScriptStatements(sql) == [sql] {
      ScriptLines(sql);
      assert IsLine(ScriptStatements(sql)[0]);
    }
    if IsLine(sql) {
      LineIsKept(sql);
      LineIs(sql);
      if Kept(sql) {
        OneLineScript(sql);
        LineIsOneStatement(sql);
      } else {
        CommentIsNoScript(sql);
      }
    }
  }

  /** A comment after a statement, on its line, becomes a statement of its own; the file then loses it. */
  lemma CommentAfterStatement(t: string, c: string)
    requires IsTerminated(t + ";") && IsTerminated("--" + c + ";") && Kept(t) && '\n' !in t + c
    ensures ScriptStatements(t + "; " + "--" + c) == [t + ";", "--" + c + ";"]
  {
    hide *;
    var u := "--" + c;
    var script := t + [';'] + ([' '] + u);
    assert IsStatementBody(t) && IsStatementBody(u) by { BodyOf(t); BodyOf(u); }
    TwoStatements(t, u);
    assert script == t + "; " + "--" + c by { assert "; " == [';'] + [' ']; }
  }

  predicate IsStatementBody(t: string) {
    t != "" && Trimmed(t) && ';' !in t
  }

  lemma BodyOf(t: string)
    requires IsTerminated(t + ";")
    ensures IsStatementBody(t)
  {
    Semicolon(t + ";");
    assert (t + ";")[..|t + ";"| - 1] == t;
    hide IsTerminated;
  }

  lemma TwoStatements(t: string, u: string)
    requires IsStatementBody(t) && IsStatementBody(u) && Kept(t) && '\n' !in t + u
    ensures ScriptStatements(t + [';'] + ([' '] + u)) == [t + ";", u + ";"]
  {
    hide *;
    var script := t + [';'] + ([' '] + u);
    BodyMeans(t);
    BodyMeans(u);
    assert '\n' !in script by { NoBreaks(t, u); }
    assert Trim(script) == script && Kept(script) by { StatementFirst(t, u); }
    OneLineScript(script);
    assert NonBlank(Split(script, ';')) == [t] + [u] by {
      FirstPart(t, ';', [' '] + u);
      SpaceLead(u);
      OnlyPart(u, ';');
    }
    TerminatedPair(t, u);
  }

  lemma BodyMeans(t: string)
    requires IsStatementBody(t)
    ensures t != "" && Trimmed(t) && ';' !in t
  {
  }

  lemma NoBreaks(t: string, u: string)
    requires '\n' !in t + u
    ensures '\n' !in t + [';'] + ([' '] + u)
  {
    assert forall c :: c in t || c in u ==> c in t + u;
  }

  lemma SpaceLead(u: string)
    ensures NonBlank(Split([' '] + u, ';')) == NonBlank(Split(u, ';'))
  {
    NonBlankLead(' ', u, ';');
    hide NonBlank, Split;
  }

  lemma TerminatedPair(t: string, u: string)
    ensures Terminated([t] + [u]) == [t + ";", u + ";"]
  {
    var p := [t] + [u];
    assert |p| == 2 && p[0] == t && p[1] == u;
    hide Terminated;
  }

  lemma StatementFirst(t: string, u: string)
    requires t != "" && u != "" && Trimmed(t) && Trimmed(u) && Kept(t)
    ensures
      var script := t + [';'] + ([' '] + u);
      Trim(script) == script && Kept(script)
  {
    var script := t + [';'] + ([' '] + u);
    assert script[0] == t[0] && script[|script| - 1] == u[|u| - 1];
    TrimIsTrimmed(script);
    TrimIsTrimmed(t);
    hide Trim;
    assert t[0] == '-' && |t| == 1 ==> script[1] == ';';
    assert |t| >= 2 ==> script[1] == t[1];
  }

  // ---------- the squashed-from line ----------

  /** Puts `line` before the first up marker of a file's text; there may be none. */
  function Splice(body: string, line: string): string {
    var i := Index(body, UP + "\n", 0);
    if i < 0 then body else body[..i] + WithNewline(line) + body[i..]
  }

  function Rest(x: Parsed): string {
    UP + "\n" + (Lines(x.up) + (DOWN + "\n" + (Lines(x.down) + "")))
  }

  lemma RenderIs(x: Parsed)
    ensures Render(x) == Header(x) + Rest(x)
  {
    hide Header, Lines, UP, DOWN;
    Regrouped(Header(x), UP, "\n", Lines(x.up), DOWN, Lines(x.down));
  }

  lemma RestLines(x: Parsed)
    requires AllTerminated(x.up) && AllTerminated(x.down)
    ensures Split(Rest(x), '\n') == [UP] + LinesOf(x.up) + [DOWN] + (LinesOf(x.down) + [""])
  {
    LiteralsAreLines();
    EmptyLine();
    hide UP, DOWN, Split, AllTerminated, Lines, LinesOf;
    var down := DOWN + "\n" + (Lines(x.down) + "");
    SplitSection(DOWN, x.down, "");
    SplitSection(UP, x.up, down);
    Stitched([], UP, LinesOf(x.up), DOWN, LinesOf(x.down));
    assert [] + ([UP] + (LinesOf(x.up) + ([DOWN] + (LinesOf(x.down) + [""]))))
      == [UP] + (LinesOf(x.up) + ([DOWN] + (LinesOf(x.down) + [""])));
    assert [] + [UP] == [UP];
  }

  predicate IsSquashedFrom(line: string) {
    SQUASHED_FROM <= line && '\n' !in line && !EndsInReturn(line)
  }

  lemma SquashedFromDiffers(t: string)
    requires SQUASHED_FROM <= t
    ensures t != UP && t != DOWN && !(DESCRIPTION <= t) && !(DEPENDS_ON <= t)
  {
    assert t[4] == SQUASHED_FROM[4] == 's';
    assert UP[4] == 'u' && DOWN[4] == 'd' && DESCRIPTION[4] == 'd' && DEPENDS_ON[4] == 'd';
  }

  lemma SquashedFromIsTrimmed()
    ensures SQUASHED_FROM != "" && Trimmed(SQUASHED_FROM)
  {
  }

  lemma SquashedFromIsIgnored(line: string)
    requires IsSquashedFrom(line)
    ensures !IsUp(line) && !IsDown(line) && !(DESCRIPTION <= Trim(line)) && !(DEPENDS_ON <= Trim(line))
    ensures line != "" && line[|line| - 1] != '\n'
  {
    SquashedFromIsTrimmed();
    hide Trim, Trimmed, SQUASHED_FROM, UP, DOWN, DESCRIPTION, DEPENDS_ON;
    assert line == SQUASHED_FROM + line[|SQUASHED_FROM|..];
    TrimPrefix(SQUASHED_FROM, line[|SQUASHED_FROM|..]);
    SquashedFromDiffers(Trim(line));
    assert line[|line| - 1] in line;
  }

  predicate EndsWith(s: string, x: string) {
    |x| <= |s| && s[|s| - |x|..] == x
  }

  /** The description line ends in an up marker exactly if the description does. */
  lemma DescriptionEnd(d: string)
    requires d != ""
    ensures EndsWith(DESCRIPTION + " " + d, UP) <==> EndsWith(d, UP)
  {
    var line := DESCRIPTION + " " + d;
    assert |DESCRIPTION| == 16 && |UP| == 6 && UP[0] == '-';
    if |d| >= 6 {
      assert line[|line| - 6..] == d[|d| - 6..];
    } else {
      assert line[|line| - 6..][0] == line[11 + |d|];
      assert DESCRIPTION[12] == 'i' && DESCRIPTION[13] == 'o' && DESCRIPTION[14] == 'n' && DESCRIPTION[15] == ':';
    }
  }

  /** Where a marker and a newline occur at or before the end of the first line, they are its end. */
  lemma OccursAtLineEnd(line: string, u: string, rest: string, j: nat)
    requires '\n' !in line && '\n' !in u && j <= |line| && OccursAt(line + "\n" + rest, u + "\n", j)
    ensures j + |u| == |line| && EndsWith(line, u)
  {
    var s, m, n := line + "\n" + rest, u + "\n", |line|;
    var w := s[j..j + |m|];
    assert w == m;
    assert w[|u|] == s[j + |u|] && m[|u|] == '\n';
    assert forall k :: 0 <= k < n ==> s[k] == line[k];
    assert forall k :: j <= k < j + |u| ==> s[k] == w[k - j] == u[k - j];
    assert s[n] == '\n';
    assert j + |u| == n;
    assert line[j..] == w[..|u|];
  }

  lemma LineEndOccurs(line: string, u: string, rest: string)
    requires EndsWith(line, u)
    ensures OccursAt(line + "\n" + rest, u + "\n", |line| - |u|)
  {
    var s, m, j := line + "\n" + rest, u + "\n", |line| - |u|;
    assert s[j..j + |m|] == line[j..] + "\n";
  }

  lemma NextLineOccurs(line: string, m: string, rest: string)
    requires OccursAt(rest, m, 0)
    ensures OccursAt(line + "\n" + rest, m, |line| + 1)
  {
    var s, n := line + "\n" + rest, |line| + 1;
    assert s[n..n + |m|] == rest[0..0 + |m|];
  }

  /** The first up marker line that `Index` finds in a text whose first line is `line` and whose second is a marker. */
  lemma FirstMarker(line: string, rest: string)
    requires '\n' !in line && OccursAt(rest, UP + "\n", 0)
    ensures Index(line + "\n" + rest, UP + "\n", 0) == if EndsWith(line, UP) then |line| - |UP| else |line| + 1
  {
    LiteralsAreLines();
    hide UP, Index, OccursAt, EndsWith;
    var s, m := line + "\n" + rest, UP + "\n";
    forall j | 0 <= j <= |line| && OccursAt(s, m, j) ensures j + |UP| == |line| && EndsWith(line, UP) {
      OccursAtLineEnd(line, UP, rest, j);
    }
    NextLineOccurs(line, m, rest);
    if EndsWith(line, UP) {
      assert |UP| <= |line| by { LineEndIsInside(line, UP); }
      LineEndOccurs(line, UP, rest);
    }
  }

  lemma LineEndIsInside(line: string, u: string)
    requires EndsWith(line, u)
    ensures |u| <= |line|
  {
  }

  // ---------- what splicing does to a file ----------

  lemma RestStarts(x: Parsed)
    ensures OccursAt(Rest(x), UP + "\n", 0)
  {
    hide UP, DOWN, Lines;
    var m := UP + "\n";
    assert Rest(x)[0..0 + |m|] == m;
  }

  lemma IndexAtStart(s: string, x: string)
    requires OccursAt(s, x, 0)
    ensures Index(s, x, 0) == 0
  {
  }

  /** With a description, the text is its line and the rest; without one, the rest. */
  lemma HeaderWithout(x: Parsed)
    requires x.dependsOn == []
    ensures x.description == "" ==> Header(x) == "" && HeaderLines(x) == []
    ensures x.description != "" ==>
      Header(x) == (DESCRIPTION + " " + x.description) + "\n" && HeaderLines(x) == [DESCRIPTION + " " + x.description]
  {
    hide DESCRIPTION, Join;
  }

  lemma DescriptionLineIsLine(x: Parsed)
    requires IsDescription(x.description)
    ensures '\n' !in DESCRIPTION + " " + x.description
  {
    LiteralsAreLines();
    hide DESCRIPTION, Trimmed;
    PrefixedLine(DESCRIPTION, x.description);
  }

  lemma DescriptionOf(x: Parsed)
    requires HeaderIsFine(x)
    ensures IsDescription(x.description)
  {
    hide IsDescription, IsDependency;
  }

  /** Where the line goes: before the up marker line, or into the description if that ends in a marker. */
  lemma SplicedText(x: Parsed, line: string)
    requires HeaderIsFine(x) && x.dependsOn == [] && line != "" && line[|line| - 1] != '\n'
    ensures !EndsWith(x.description, UP) ==> Splice(Render(x), line) == Header(x) + (line + "\n" + Rest(x))
    ensures EndsWith(x.description, UP) ==>
      exists head :: '\n' !in head && Splice(Render(x), line) == head + line + "\n" + (UP + "\n" + Rest(x))
  {
    hide *;
    var m, rest := UP + "\n", Rest(x);
    RenderIs(x);
    RestStarts(x);
    HeaderWithout(x);
    assert WithNewline(line) == line + "\n" by { OneNewline(line); }
    if x.description == "" {
      assert !EndsWith("", UP) by { NothingEnds(); }
      assert "" + rest == rest;
      IndexAtStart(rest, m);
      SpliceAt(rest, line, 0);
      assert rest[..0] + (line + "\n") + rest[0..] == "" + (line + "\n" + rest);
    } else {
      var first := DESCRIPTION + " " + x.description;
      var body := first + "\n" + rest;
      DescriptionOf(x);
      DescriptionLineIsLine(x);
      DescriptionEnd(x.description);
      FirstMarker(first, rest);
      if EndsWith(x.description, UP) {
        LineEndIsInside(first, UP);
        var at := |first| - |UP|;
        SpliceAt(body, line, at);
        assert '\n' !in first[..at];
        InsideLine(first, UP, rest, line);
        assert Splice(Render(x), line) == first[..at] + line + "\n" + (UP + "\n" + rest);
      } else {
        SpliceAt(body, line, |first| + 1);
        AfterLine(first, rest, line);
      }
    }
  }

  lemma OneNewline(line: string)
    requires line != "" && line[|line| - 1] != '\n'
    ensures WithNewline(line) == line + "\n"
  {
  }

  lemma NothingEnds()
    ensures !EndsWith("", UP)
  {
  }

  lemma SpliceAt(body: string, line: string, at: nat)
    requires Index(body, UP + "\n", 0) == at && at <= |body|
    ensures Splice(body, line) == body[..at] + WithNewline(line) + body[at..]
  {
    hide Index, UP, WithNewline;
  }

  lemma InsideLine(first: string, u: string, rest: string, line: string)
    requires EndsWith(first, u)
    ensures
      var body, at := first + "\n" + rest, |first| - |u|;
      body[..at] + (line + "\n") + body[at..] == first[..at] + line + "\n" + (u + "\n" + rest)
  {
    var body, at := first + "\n" + rest, |first| - |u|;
    assert body[..at] == first[..at];
    assert first == first[..at] + u;
    assert body[at..] == u + "\n" + rest;
  }

  lemma AfterLine(first: string, rest: string, line: string)
    ensures
      var body, at := first + "\n" + rest, |first| + 1;
      body[..at] + (line + "\n") + body[at..] == (first + "\n") + (line + "\n" + rest)
  {
    var body, at := first + "\n" + rest, |first| + 1;
    assert body[..at] == first + "\n" && body[at..] == rest;
  }

  lemma SplicedBefore(x: Parsed, line: string)
    requires HeaderIsFine(x) && AllTerminated(x.up) && AllTerminated(x.down) && '\n' !in line
    ensures Split(Header(x) + (line + "\n" + Rest(x)), '\n')
      == Stitch(HeaderLines(x) + [line], LinesOf(x.up), LinesOf(x.down) + [""])
  {
    hide *;
    var h, up, down := HeaderLines(x), LinesOf(x.up), LinesOf(x.down) + [""];
    SplitHeader(x, line + "\n" + Rest(x));
    SplitLine(line, Rest(x));
    RestLines(x);
    assert h + ([line] + ([UP] + up + [DOWN] + down)) == Stitch(h + [line], up, down)
      by { Restitched(h, line, up, down); }
  }

  lemma Restitched(h: seq<string>, line: string, up: seq<string>, down: seq<string>)
    ensures h + ([line] + ([UP] + up + [DOWN] + down)) == Stitch(h + [line], up, down)
  {
    hide UP, DOWN;
  }

  lemma SplicedInside(x: Parsed, text: string)
    requires AllTerminated(x.up) && AllTerminated(x.down) && '\n' !in text
    ensures
      var lines := Split(text + "\n" + (UP + "\n" + Rest(x)), '\n');
      |lines| > 2 && lines[1] == UP && lines[2] == UP
  {
    LiteralsAreLines();
    hide *;
    SplitLine(text, UP + "\n" + Rest(x));
    SplitLine(UP, Rest(x));
    RestLines(x);
  }

  lemma TwoUpMarkers(lines: seq<string>)
    requires |lines| > 2 && lines[1] == UP && lines[2] == UP
    ensures ParseLines(lines).Err?
  {
    MarkersDiffer();
    hide UP, DOWN, IsUp, IsDown, Markers, ReadHeader, Statements;
    if Markers(lines, |lines|).Found? {
      MarkersAreUnique(lines, |lines|);
      assert false;
    }
  }

  lemma IgnoredLine(h: seq<string>, line: string)
    requires IsSquashedFrom(line) && NoMarkers(h)
    ensures ReadHeader(h + [line]) == ReadHeader(h) && NoMarkers(h + [line])
  {
    SquashedFromIsIgnored(line);
    ReadOne(h, line);
    hide ReadHeader, IsUp, IsDown, DESCRIPTION, DEPENDS_ON, IsSquashedFrom, SplitCsv, Trim;
  }

  lemma SquashedLine(line: string)
    requires IsSquashedFrom(line)
    ensures '\n' !in line && !EndsInReturn(line) && line != "" && line[|line| - 1] != '\n'
  {
    SquashedFromIsIgnored(line);
  }

  // ---------- a header is read by itself ----------

  function Shift(r: Scan, n: nat): Scan {
    if r.Stopped? then r else Found(if r.up < 0 then -1 else r.up + n, if r.down < 0 then -1 else r.down + n)
  }

  lemma {:induction false} NothingFound(a: seq<string>, b: seq<string>, n: nat)
    requires NoMarkers(a) && n <= |a|
    ensures Markers(a + b, n) == Found(-1, -1)
  {
    hide IsUp, IsDown;
    if n > 0 { NothingFound(a, b, n - 1); }
  }

  /** Lines without markers in front move the markers behind them. */
  lemma {:induction false} MarkersMove(a: seq<string>, b: seq<string>, n: nat)
    requires NoMarkers(a) && n <= |b|
    ensures Markers(a + b, |a| + n) == Shift(Markers(b, n), |a|)
  {
    if n == 0 {
      NothingFound(a, b, |a|);
    } else {
      hide IsUp, IsDown, NoMarkers;
      MarkersMove(a, b, n - 1);
      assert (a + b)[|a| + n - 1] == b[n - 1];
    }
  }

  /** What is read from a header and from lines that begin with an up marker. */
  function ParseFrom(header: (string, seq<string>), b: seq<string>): Result {
    var r := Markers(b, |b|);
    if r.Stopped? then Err(r.error)
    else if r.down == -1 then Err(MissingDown)
    else Ok(Parsed(header.0, header.1, Statements(b[1..if r.down > 0 then r.down else 1]), Statements(b[r.down + 1..])))
  }

  lemma MarkerComesFirst(b: seq<string>)
    requires b != [] && IsUp(b[0])
    ensures Markers(b, |b|).Found? ==> Markers(b, |b|).up == 0
    ensures Markers(b, |b|).Found? && Markers(b, |b|).down != -1 ==> 0 < Markers(b, |b|).down
  {
    MarkersDiffer();
    hide IsUp, IsDown, Markers;
    if Markers(b, |b|).Found? { MarkersAreUnique(b, |b|); }
  }

  lemma ParseWithoutDown(lines: seq<string>)
    requires var r := Markers(lines, |lines|); r.Stopped? || (r.up >= 0 && r.down == -1)
    ensures ParseLines(lines) == var r := Markers(lines, |lines|); Err(if r.Stopped? then r.error else MissingDown)
  {
    hide Markers, ReadHeader, Statements;
  }

  lemma ParseWithBoth(lines: seq<string>, u: nat, d: nat)
    requires Markers(lines, |lines|) == Found(u, d) && u < d < |lines|
    ensures ParseLines(lines) == Ok(Parsed(ReadHeader(lines[..u]).0, ReadHeader(lines[..u]).1,
      Statements(lines[u + 1..d]), Statements(lines[d + 1..])))
  {
    hide Markers, ReadHeader, Statements;
  }

  lemma SlicesMove(a: seq<string>, b: seq<string>, d: nat)
    requires 0 < d < |b|
    ensures
      var lines, n := a + b, |a|;
      lines[..n] == a && lines[n + 1..n + d] == b[1..d] && lines[n + d + 1..] == b[d + 1..]
  {
  }

  lemma ParsesBoth(a: seq<string>, b: seq<string>, d: nat)
    requires 0 < d < |b| && Markers(a + b, |a + b|) == Found(|a|, |a| + d)
    ensures ParseLines(a + b) == Ok(Parsed(ReadHeader(a).0, ReadHeader(a).1, Statements(b[1..d]),
      Statements(b[d + 1..])))
  {
    hide *;
    SlicesMove(a, b, d);
    ParseWithBoth(a + b, |a|, |a| + d);
  }

  lemma ParsesFrom(a: seq<string>, b: seq<string>)
    requires NoMarkers(a) && b != [] && IsUp(b[0])
    ensures ParseLines(a + b) == ParseFrom(ReadHeader(a), b)
  {
    assert |a + b| == |a| + |b|;
    MarkersMove(a, b, |b|);
    MarkerComesFirst(b);
    var r := Markers(b, |b|);
    assert Markers(a + b, |a + b|) == if r.Stopped? then r else Found(|a|, if r.down < 0 then -1 else |a| + r.down);
    hide Markers, NoMarkers, IsUp, IsDown, ReadHeader, Statements, ParseLines;
    if r.Found? && r.down != -1 {
      ParsesBoth(a, b, r.down);
    } else {
      ParseWithoutDown(a + b);
    }
  }

  lemma SectionsStart(header: seq<string>, up: seq<string>, down: seq<string>)
    ensures
      var b := [UP] + up + [DOWN] + down;
      b != [] && IsUp(b[0]) && Stitch(header, up, down) == header + b
  {
    MarkersDiffer();
    hide UP, DOWN, IsUp;
  }

  lemma HeaderCounts(a: seq<string>, c: seq<string>, up: seq<string>, down: seq<string>)
    requires NoMarkers(a) && NoMarkers(c) && ReadHeader(a) == ReadHeader(c)
    ensures ParseLines(Stitch(a, up, down)) == ParseLines(Stitch(c, up, down))
  {
    hide *;
    SectionsStart(a, up, down);
    SectionsStart(c, up, down);
    var b := [UP] + up + [DOWN] + down;
    ParsesFrom(a, b);
    ParsesFrom(c, b);
  }

  // ---------- the theorem ----------

  lemma UnixRest(x: Parsed)
    requires HeaderIsFine(x) && AllTerminated(x.up) && AllTerminated(x.down)
    ensures UnixLines(Rest(x)) == Rest(Unix(x)) && Header(Unix(x)) == Header(x)
  {
    RenderIs(x);
    RenderIs(Unix(x));
    UnixRender(x);
    UnixHeader(x);
    assert Header(Unix(x)) == Header(x);
    hide Render, Header, Rest, Unix, UnixLines;
    UnixLinesConcat(Header(x), Rest(x));
    assert Header(x) + UnixLines(Rest(x)) == Header(x) + Rest(Unix(x));
    assert (Header(x) + UnixLines(Rest(x)))[|Header(x)|..] == UnixLines(Rest(x));
    assert (Header(x) + Rest(Unix(x)))[|Header(x)|..] == Rest(Unix(x));
  }

  lemma UnixBefore(x: Parsed, line: string)
    requires HeaderIsFine(x) && AllTerminated(x.up) && AllTerminated(x.down) && '\n' !in line && !EndsInReturn(line)
    ensures UnixLines(Header(x) + (line + "\n" + Rest(x))) == Header(Unix(x)) + (line + "\n" + Rest(Unix(x)))
  {
    UnixRest(x);
    UnixHeader(x);
    OneLineHasNoPair(line);
    UnixLine(line);
    hide Header, Rest, Unix, UnixLines;
    UnixLinesConcat(line + "\n", Rest(x));
    UnixLinesConcat(Header(x), line + "\n" + Rest(x));
  }

  lemma UnixInside(x: Parsed, text: string)
    requires HeaderIsFine(x) && AllTerminated(x.up) && AllTerminated(x.down) && '\n' !in text && !EndsInReturn(text)
    ensures UnixLines(text + "\n" + (UP + "\n" + Rest(x))) == text + "\n" + (UP + "\n" + Rest(Unix(x)))
  {
    UnixRest(x);
    MarkersArePlain();
    OneLineHasNoPair(text);
    UnixLine(text);
    OneLineHasNoPair(UP);
    assert !EndsInReturn(UP);
    UnixLine(UP);
    hide UP, Rest, Unix, UnixLines, HeaderIsFine, AllTerminated;
    UnixLinesConcat(UP + "\n", Rest(x));
    UnixLinesConcat(text + "\n", UP + "\n" + Rest(x));
  }

  lemma ParseUnix(body: string, unix: string)
    requires UnixLines(body) == unix
    ensures Parse(body) == ParseLines(Split(unix, '\n'))
  {
    hide UnixLines, ParseLines, Split;
  }

  lemma SpliceIsIgnored(x: Parsed, line: string)
    requires HeaderIsFine(x) && AllTerminated(x.up) && AllTerminated(x.down) && IsSquashedFrom(line)
    ensures Parse(Header(x) + (line + "\n" + Rest(x))) == Parse(Render(x))
  {
    hide *;
    var y := Unix(x);
    UnixMeans(x);
    UnixAllTerminated(x.up);
    UnixAllTerminated(x.down);
    SquashedLine(line);
    UnixRender(x);
    RenderSplits(y);
    ParseOfRender(x, y);
    UnixBefore(x, line);
    ParseUnix(Header(x) + (line + "\n" + Rest(x)), Header(y) + (line + "\n" + Rest(y)));
    SplicedBefore(y, line);
    HeaderReads(y);
    NoMarkersMeans(HeaderLines(y));
    IgnoredLine(HeaderLines(y), line);
    HeaderCounts(HeaderLines(y), HeaderLines(y) + [line], LinesOf(y.up), LinesOf(y.down) + [""]);
  }

  lemma SpliceInsideFails(x: Parsed, text: string)
    requires HeaderIsFine(x) && AllTerminated(x.up) && AllTerminated(x.down) && '\n' !in text && !EndsInReturn(text)
    ensures Parse(text + "\n" + (UP + "\n" + Rest(x))).Err?
  {
    hide *;
    var y := Unix(x);
    UnixMeans(x);
    UnixAllTerminated(x.up);
    UnixAllTerminated(x.down);
    UnixInside(x, text);
    ParseUnix(text + "\n" + (UP + "\n" + Rest(x)), text + "\n" + (UP + "\n" + Rest(y)));
    SplicedInside(y, text);
    TwoUpMarkers(Split(text + "\n" + (UP + "\n" + Rest(y)), '\n'));
  }

  /**
   The squashed-from line leaves what is read, or the error that is met, unchanged exactly if the description does
   not end in an up marker; if it does, the file cannot be read at all. Statements may be what they like inside.
   */
  lemma SplicingIsHarmless(x: Parsed, line: string)
    requires HeaderIsFine(x) && AllTerminated(x.up) && AllTerminated(x.down) && x.dependsOn == []
      && IsSquashedFrom(line)
    ensures if EndsWith(x.description, UP)
      then Parse(Splice(Render(x), line)).Err? else Parse(Splice(Render(x), line)) == Parse(Render(x))
  {
    hide *;
    SquashedLine(line);
    SplicedText(x, line);
    if EndsWith(x.description, UP) {
      var head :| '\n' !in head && Splice(Render(x), line) == head + line + "\n" + (UP + "\n" + Rest(x));
      assert !EndsInReturn(head + line) by { EndOfBoth(head, line); }
      SpliceInsideFails(x, head + line);
    } else {
      SpliceIsIgnored(x, line);
    }
  }

  lemma EndOfBoth(head: string, line: string)
    requires line != ""
    ensures EndsInReturn(head + line) <==> EndsInReturn(line)
  {
  }
}
