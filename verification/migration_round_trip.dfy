/** What is written to a migration file is read back exactly if it is well formed. */
module MigrationRoundTrip {
  import opened Text
  import opened MigrationFiles

  // ---------- well-formed contents ----------

  /** A statement with its one semicolon at the end, trimmed before it, without blank or comment lines. */
  predicate IsStatement(s: string) {
    IsTerminated(s) && AllKept(Split(s, '\n'))
  }

  predicate IsTerminated(s: string) {
    && |s| >= 2 && s[|s| - 1] == ';' && Trimmed(s[..|s| - 1]) && ';' !in s[..|s| - 1]
  }

  predicate AllKept(lines: seq<string>) {
    forall i :: 0 <= i < |lines| ==> Kept(lines[i])
  }

  predicate IsDependency(d: string) {
    d != "" && Trimmed(d) && ',' !in d && '\n' !in d
  }

  predicate IsDescription(d: string) {
    Trimmed(d) && '\n' !in d
  }

  predicate HeaderIsFine(x: Parsed) {
    IsDescription(x.description) && forall i :: 0 <= i < |x.dependsOn| ==> IsDependency(x.dependsOn[i])
  }

  predicate AllTerminated(ss: seq<string>) {
    forall i :: 0 <= i < |ss| ==> IsTerminated(ss[i])
  }

  predicate WellFormed(x: Parsed) {
    && HeaderIsFine(x)
    && (forall i :: 0 <= i < |x.up| ==> IsStatement(x.up[i]))
    && (forall i :: 0 <= i < |x.down| ==> IsStatement(x.down[i]))
  }

  // ---------- the lines that are written ----------

  function LinesOf(ss: seq<string>): seq<string> {
    if ss == [] then [] else LinesOf(ss[..|ss| - 1]) + Split(ss[|ss| - 1], '\n')
  }

  function WrittenLines(x: Parsed): seq<string> {
    HeaderLines(x) + [UP] + LinesOf(x.up) + [DOWN] + (LinesOf(x.down) + [""])
  }

  lemma OneMoreLine(ss: seq<string>, rest: string)
    requires AllTerminated(ss) && ss != []
    ensures
      var init, s := ss[..|ss| - 1], ss[|ss| - 1];
      AllTerminated(init) && Lines(ss) + rest == Lines(init) + (s + ['\n'] + rest)
        && LinesOf(ss) == LinesOf(init) + Split(s, '\n')
  {
    var init, s := ss[..|ss| - 1], ss[|ss| - 1];
    hide Split, Trimmed;
    assert IsTerminated(s);
    assert WithNewline(s) == s + ['\n'];
  }

  lemma NoLinesYet(rest: string)
    ensures Lines([]) + rest == rest && LinesOf([]) == []
  {
  }

  lemma {:induction false} SplitLines(ss: seq<string>, rest: string)
    requires AllTerminated(ss)
    ensures Split(Lines(ss) + rest, '\n') == LinesOf(ss) + Split(rest, '\n')
  {
    hide *;
    if ss == [] {
      NoLinesYet(rest);
    } else {
      OneMoreLine(ss, rest);
      var init, s := ss[..|ss| - 1], ss[|ss| - 1];
      SplitLines(init, s + ['\n'] + rest);
      SplitAt(s, '\n', rest);
    }
  }

  lemma SplitLine(line: string, rest: string)
    requires '\n' !in line
    ensures Split(line + "\n" + rest, '\n') == [line] + Split(rest, '\n')
  {
    SplitAt(line, '\n', rest);
    SplitNone(line, '\n');
  }

  lemma {:induction false} JoinChars(parts: seq<string>, sep: string, c: char)
    requires c !in sep && forall i :: 0 <= i < |parts| ==> c !in parts[i]
    ensures c !in Join(parts, sep)
  {
    if |parts| > 1 { JoinChars(parts[1..], sep, c); }
  }

  lemma PrefixedLine(prefix: string, s: string)
    requires '\n' !in prefix && '\n' !in s
    ensures '\n' !in prefix + " " + s
  {
  }

  lemma LiteralsAreLines()
    ensures '\n' !in UP && '\n' !in DOWN && '\n' !in DESCRIPTION && '\n' !in DEPENDS_ON && '\n' !in ", "
  {
  }

  lemma SplitHeader(x: Parsed, rest: string)
    requires HeaderIsFine(x)
    ensures Split(Header(x) + rest, '\n') == HeaderLines(x) + Split(rest, '\n')
  {
    LiteralsAreLines();
    hide UP, DOWN, DESCRIPTION, DEPENDS_ON, Split, Join, Trimmed;
    var all := Join(x.dependsOn, ", ");
    JoinChars(x.dependsOn, ", ", '\n');
    PrefixedLine(DESCRIPTION, x.description);
    PrefixedLine(DEPENDS_ON, all);
    var line, deps := DESCRIPTION + " " + x.description, DEPENDS_ON + " " + all;
    SplitLine(deps, rest);
    var more := if x.dependsOn == [] then rest else deps + "\n" + rest;
    SplitLine(line, more);
    assert Header(x) + rest == if x.description == "" then more else line + "\n" + more;
  }

  lemma SplitSection(marker: string, ss: seq<string>, rest: string)
    requires '\n' !in marker && AllTerminated(ss)
    ensures Split(marker + "\n" + (Lines(ss) + rest), '\n') == [marker] + (LinesOf(ss) + Split(rest, '\n'))
  {
    hide Split, Lines, LinesOf, AllTerminated;
    SplitLine(marker, Lines(ss) + rest);
    SplitLines(ss, rest);
  }

  lemma Regrouped(h: string, u: string, nl: string, up: string, d: string, down: string)
    ensures h + u + nl + up + d + nl + down == h + (u + nl + (up + (d + nl + (down + ""))))
  {
    assert up + (d + nl + (down + "")) == up + d + nl + down;
  }

  lemma RenderSplits(x: Parsed)
    requires HeaderIsFine(x) && AllTerminated(x.up) && AllTerminated(x.down)
    ensures Split(Render(x), '\n') == WrittenLines(x)
  {
    LiteralsAreLines();
    EmptyLine();
    hide UP, DOWN, Split, Header, HeaderIsFine, AllTerminated, Lines, LinesOf, HeaderLines;
    Regrouped(Header(x), UP, "\n", Lines(x.up), DOWN, Lines(x.down));
    var down := DOWN + "\n" + (Lines(x.down) + "");
    SplitSection(DOWN, x.down, "");
    SplitSection(UP, x.up, down);
    SplitHeader(x, UP + "\n" + (Lines(x.up) + down));
    Stitched(HeaderLines(x), UP, LinesOf(x.up), DOWN, LinesOf(x.down));
  }

  lemma WrittenLinesAre(x: Parsed)
    requires HeaderIsFine(x) && AllTerminated(x.up) && AllTerminated(x.down) && !HasPair(Render(x))
    ensures Split(UnixLines(Render(x)), '\n') == WrittenLines(x)
  {
    UnixLinesIs(Render(x));
    hide *;
    RenderSplits(x);
  }

  lemma Stitched(h: seq<string>, u: string, up: seq<string>, d: string, down: seq<string>)
    ensures h + ([u] + (up + ([d] + (down + [""])))) == h + [u] + up + [d] + (down + [""])
  {
  }

  lemma EmptyLine()
    ensures Split("", '\n') == [""]
  {
  }

  // ---------- finding the markers ----------

  lemma {:induction false} MarkersAre(lines: seq<string>, u: nat, d: nat, n: nat)
    requires u < d < |lines| && n <= |lines|
    requires forall i :: 0 <= i < |lines| ==> (IsUp(lines[i]) <==> i == u) && (IsDown(lines[i]) <==> i == d)
    ensures Markers(lines, n) == Found(if u < n then u else -1, if d < n then d else -1)
  {
    hide IsUp, IsDown;
    if n > 0 { MarkersAre(lines, u, d, n - 1); }
  }

  lemma {:induction false} MarkersAreUnique(lines: seq<string>, n: nat)
    requires n <= |lines| && Markers(lines, n).Found?
    requires forall i :: 0 <= i < |lines| ==> !(IsUp(lines[i]) && IsDown(lines[i]))
    ensures forall i :: 0 <= i < n && IsUp(lines[i]) ==> i == Markers(lines, n).up
    ensures forall i :: 0 <= i < n && IsDown(lines[i]) ==> i == Markers(lines, n).down
  {
    hide IsUp, IsDown;
    if n > 0 { MarkersAreUnique(lines, n - 1); }
  }

  lemma MarkersDiffer()
    ensures IsUp(UP) && IsDown(DOWN) && UP != DOWN
    ensures forall line :: !(IsUp(line) && IsDown(line))
    ensures !IsUp("") && !IsDown("")
  {
    assert UP[5] == 'p' && DOWN[5] == 'o';
    TrimIsTrimmed(UP);
    TrimIsTrimmed(DOWN);
    TrimIsTrimmed("");
  }

  lemma KeptIsNoMarker(line: string)
    requires Kept(line)
    ensures !IsUp(line) && !IsDown(line)
  {
    hide Trim;
    assert "--" <= UP && "--" <= DOWN;
  }

  // ---------- reading the header back ----------

  /** A header line is read back whole: it is trimmed, and its value follows the prefix. */
  lemma HeaderLineReads(prefix: string, value: string)
    requires prefix != "" && Trimmed(prefix) && value != "" && !IsSpace(value[|value| - 1])
    ensures
      var line := prefix + " " + value;
      Trim(line) == line && prefix <= line && Trim(line[|prefix|..]) == Trim(value)
  {
    var padded := [' '] + value;
    assert padded[|padded| - 1] == value[|value| - 1];
    TrimPrefix(prefix, padded);
    TrimLeftSpace(' ', value);
    hide Trim, Trimmed, IsSpace;
    LineParts(prefix, value);
  }

  lemma LineParts(prefix: string, value: string)
    ensures
      var line := prefix + " " + value;
      line == prefix + ([' '] + value) && line[|prefix|..] == [' '] + value
  {
  }

  lemma PrefixesDiffer(line: string)
    ensures DESCRIPTION <= line ==> !(DEPENDS_ON <= line) && line != UP && line != DOWN
    ensures DEPENDS_ON <= line ==> !(DESCRIPTION <= line) && line != UP && line != DOWN
    ensures Trimmed(DESCRIPTION) && Trimmed(DEPENDS_ON) && DESCRIPTION != "" && DEPENDS_ON != ""
  {
    assert DESCRIPTION[5] == 'e' && DEPENDS_ON[5] == 'e' && UP[5] == 'p' && DOWN[5] == 'o' && DESCRIPTION[6] == 's'
      && DEPENDS_ON[6] == 'p';
  }

  lemma {:induction false} JoinEnds(deps: seq<string>)
    requires deps != [] && forall i :: 0 <= i < |deps| ==> IsDependency(deps[i])
    ensures Join(deps, ", ") != "" && Trimmed(Join(deps, ", "))
  {
    if |deps| > 1 {
      JoinEnds(deps[1..]);
      var rest := Join(deps[1..], ", ");
      hide Join;
      assert (deps[0] + ", " + rest)[0] == deps[0][0];
      assert (deps[0] + ", " + rest)[|deps[0] + ", " + rest| - 1] == rest[|rest| - 1];
      JoinStep(deps, ", ");
    }
  }

  lemma JoinStep(parts: seq<string>, sep: string)
    requires |parts| > 1
    ensures Join(parts, sep) == parts[0] + sep + Join(parts[1..], sep)
  {
  }

  lemma NonBlankLast(parts: seq<string>)
    ensures parts == [] ==> NonBlank(parts) == []
    ensures parts != [] ==>
      NonBlank(parts) == NonBlank(parts[..|parts| - 1])
        + if Trim(parts[|parts| - 1]) == "" then [] else [Trim(parts[|parts| - 1])]
  {
    hide Trim;
  }

  lemma {:induction false} NonBlankConcat(a: seq<string>, b: seq<string>)
    ensures NonBlank(a + b) == NonBlank(a) + NonBlank(b)
  {
    hide *;
    NonBlankLast(b);
    if b == [] {
      assert a + b == a;
    } else {
      NonBlankLast(a + b);
      assert (a + b)[..|a + b| - 1] == a + b[..|b| - 1];
      NonBlankConcat(a, b[..|b| - 1]);
    }
  }

  lemma NonBlankOne(part: string)
    ensures NonBlank([part]) == if Trim(part) == "" then [] else [Trim(part)]
  {
    assert [part][..0] == [];
    hide Trim;
  }

  /** A leading space makes no difference to what is left of the parts. */
  lemma NonBlankLead(c: char, s: string, sep: char)
    requires IsSpace(c) && c != sep
    ensures NonBlank(Split([c] + s, sep)) == NonBlank(Split(s, sep))
  {
    var r := Split(s, sep);
    assert ([c] + s)[1..] == s;
    assert Split([c] + s, sep) == [[c] + r[0]] + r[1..];
    assert r == [r[0]] + r[1..];
    TrimLeftSpace(c, r[0]);
    hide Split, Trim, NonBlank;
    NonBlankConcat([[c] + r[0]], r[1..]);
    NonBlankConcat([r[0]], r[1..]);
    NonBlankOne([c] + r[0]);
    NonBlankOne(r[0]);
  }

  /** A part before a separator stands by itself. */
  lemma FirstPart(t: string, sep: char, rest: string)
    requires sep !in t && Trimmed(t) && t != ""
    ensures NonBlank(Split(t + [sep] + rest, sep)) == [t] + NonBlank(Split(rest, sep))
  {
    SplitNone(t, sep);
    SplitAt(t, sep, rest);
    TrimIsTrimmed(t);
    NonBlankOne(t);
    NonBlankConcat([t], Split(rest, sep));
    hide Split, NonBlank, Trim, Trimmed;
  }

  lemma OnlyPart(t: string, sep: char)
    requires sep !in t && Trimmed(t) && t != ""
    ensures NonBlank(Split(t, sep)) == [t]
  {
    SplitNone(t, sep);
    TrimIsTrimmed(t);
    NonBlankOne(t);
    hide Split, NonBlank, Trim, Trimmed;
  }

  lemma CsvMore(d: string, more: seq<string>)
    requires IsDependency(d) && more != [] && NonBlank(Split(Join(more, ", "), ',')) == more
    ensures NonBlank(Split(Join([d] + more, ", "), ',')) == [d] + more
  {
    JoinStep([d] + more, ", ");
    hide Split, NonBlank, Trim, Join;
    var rest := Join(more, ", ");
    assert ([d] + more)[1..] == more;
    CommaSpace(d, rest);
    FirstPart(d, ',', [' '] + rest);
    NonBlankLead(' ', rest, ',');
  }

  lemma {:induction false} CsvReads(deps: seq<string>)
    requires deps != [] && forall i :: 0 <= i < |deps| ==> IsDependency(deps[i])
    ensures NonBlank(Split(Join(deps, ", "), ',')) == deps
  {
    var d := deps[0];
    assert deps == [d] + deps[1..];
    hide Split, NonBlank, Trim, Join;
    if |deps| == 1 {
      JoinOne(d, ", ");
      OnlyPart(d, ',');
    } else {
      hide IsDependency;
      CsvReads(deps[1..]);
      CsvMore(d, deps[1..]);
    }
  }

  lemma CommaSpace(d: string, rest: string)
    ensures d + ", " + rest == d + [','] + ([' '] + rest)
  {
  }

  lemma JoinIsTrimmed(deps: seq<string>)
    requires deps != [] && forall i :: 0 <= i < |deps| ==> IsDependency(deps[i])
    ensures var all := Join(deps, ", "); all != "" && !IsSpace(all[|all| - 1])
  {
    JoinEnds(deps);
    hide Join, IsDependency;
  }

  lemma DependenciesRead(deps: seq<string>)
    requires deps != [] && forall i :: 0 <= i < |deps| ==> IsDependency(deps[i])
    ensures
      var line := DEPENDS_ON + " " + Join(deps, ", ");
      Trim(line) == line && DEPENDS_ON <= line && SplitCsv(line[|DEPENDS_ON|..]) == deps
  {
    JoinEnds(deps);
    CsvReads(deps);
    PrefixesDiffer("");
    TrimIsTrimmed(Join(deps, ", "));
    hide DEPENDS_ON, Trimmed, Join, Split, NonBlank, Trim, IsDependency;
    var all := Join(deps, ", ");
    assert all != "" && !IsSpace(all[|all| - 1]) by { JoinIsTrimmed(deps); }
    HeaderLineReads(DEPENDS_ON, all);
  }

  lemma DescriptionReads(d: string)
    requires d != "" && Trimmed(d)
    ensures
      var line := DESCRIPTION + " " + d;
      Trim(line) == line && DESCRIPTION <= line && Trim(line[|DESCRIPTION|..]) == d
  {
    PrefixesDiffer("");
    hide DESCRIPTION, Trim;
    HeaderLineReads(DESCRIPTION, d);
    TrimIsTrimmed(d);
  }

  lemma ReadOne(lines: seq<string>, line: string)
    ensures
      var (d, deps) := ReadHeader(lines);
      ReadHeader(lines + [line]) ==
        if DESCRIPTION <= Trim(line) then (Trim(Trim(line)[|DESCRIPTION|..]), deps)
        else if DEPENDS_ON <= Trim(line) then (d, SplitCsv(Trim(line)[|DEPENDS_ON|..]))
        else (d, deps)
  {
    hide Trim, SplitCsv, DESCRIPTION, DEPENDS_ON;
    assert (lines + [line])[..|lines|] == lines;
  }

  /** The description line, if there is one. */
  function FirstLines(x: Parsed): seq<string> {
    if x.description == "" then [] else [DESCRIPTION + " " + x.description]
  }

  function LastLines(x: Parsed): seq<string> {
    if x.dependsOn == [] then [] else [DEPENDS_ON + " " + Join(x.dependsOn, ", ")]
  }

  lemma DescriptionLineReads(d: string)
    requires d != "" && Trimmed(d)
    ensures
      var line := DESCRIPTION + " " + d;
      ReadHeader([line]) == (d, []) && !IsUp(line) && !IsDown(line)
  {
    hide *;
    var line := DESCRIPTION + " " + d;
    DescriptionReads(d);
    ReadOne([], line);
    EmptyHeader();
    assert [] + [line] == [line];
    PrefixesDiffer(line);
    assert !IsUp(line) && !IsDown(line) by { MarkerIs(line); }
  }

  lemma EmptyHeader()
    ensures ReadHeader([]) == ("", [])
  {
  }

  lemma FirstLinesRead(x: Parsed)
    requires HeaderIsFine(x)
    ensures ReadHeader(FirstLines(x)) == (x.description, [])
    ensures forall i :: 0 <= i < |FirstLines(x)| ==> !IsUp(FirstLines(x)[i]) && !IsDown(FirstLines(x)[i])
  {
    hide *;
    FirstLinesAre(x);
    EmptyHeader();
    if x.description != "" { DescriptionLineReads(x.description); }
  }

  lemma FirstLinesAre(x: Parsed)
    requires HeaderIsFine(x)
    ensures Trimmed(x.description)
    ensures FirstLines(x) == if x.description == "" then [] else [DESCRIPTION + " " + x.description]
  {
    hide DESCRIPTION, Trimmed, IsDependency;
  }

  lemma DependsOnLineReads(deps: seq<string>, head: seq<string>)
    requires deps != [] && forall i :: 0 <= i < |deps| ==> IsDependency(deps[i])
    ensures
      var line := DEPENDS_ON + " " + Join(deps, ", ");
      ReadHeader(head + [line]) == (ReadHeader(head).0, deps) && !IsUp(line) && !IsDown(line)
  {
    hide *;
    var line := DEPENDS_ON + " " + Join(deps, ", ");
    DependenciesRead(deps);
    ReadOne(head, line);
    PrefixesDiffer(line);
    assert !IsUp(line) && !IsDown(line) by { MarkerIs(line); }
  }

  lemma MarkerIs(line: string)
    ensures IsUp(line) <==> Trim(line) == UP
    ensures IsDown(line) <==> Trim(line) == DOWN
  {
    hide Trim, UP, DOWN;
  }

  lemma LastLinesRead(x: Parsed)
    requires HeaderIsFine(x)
    ensures ReadHeader(FirstLines(x) + LastLines(x))
      == (ReadHeader(FirstLines(x)).0, if x.dependsOn == [] then ReadHeader(FirstLines(x)).1 else x.dependsOn)
    ensures forall i :: 0 <= i < |LastLines(x)| ==> !IsUp(LastLines(x)[i]) && !IsDown(LastLines(x)[i])
  {
    if x.dependsOn != [] { DependsOnLineReads(x.dependsOn, FirstLines(x)); }
    hide DEPENDS_ON, Join, FirstLines, HeaderIsFine, IsUp, IsDown, ReadHeader;
    assert FirstLines(x) + [] == FirstLines(x);
  }

  lemma HeaderReads(x: Parsed)
    requires HeaderIsFine(x)
    ensures ReadHeader(HeaderLines(x)) == (x.description, x.dependsOn)
    ensures forall i :: 0 <= i < |HeaderLines(x)| ==> !IsUp(HeaderLines(x)[i]) && !IsDown(HeaderLines(x)[i])
  {
    FirstLinesRead(x);
    LastLinesRead(x);
    assert HeaderLines(x) == FirstLines(x) + LastLines(x);
    hide *;
  }

  // ---------- reading the statements back ----------

  lemma {:induction false} CleanedKeeps(lines: seq<string>)
    requires AllKept(lines)
    ensures Cleaned(lines) == lines
  {
    hide Kept;
    if lines != [] { CleanedKeeps(lines[..|lines| - 1]); }
  }

  lemma {:induction false} JoinedLines(ss: seq<string>)
    requires ss != []
    ensures LinesOf(ss) != [] && Join(LinesOf(ss), "\n") == Join(ss, "\n")
  {
    var init, s := ss[..|ss| - 1], ss[|ss| - 1];
    JoinSplit(s, '\n');
    if init == [] {
      assert ss == [s] && LinesOf(ss) == Split(s, '\n');
    } else {
      hide Split, Join;
      JoinedLines(init);
      JoinConcat(LinesOf(init), Split(s, '\n'), "\n");
      JoinConcat(init, [s], "\n");
      JoinOne(s, "\n");
      assert ss == init + [s];
    }
  }

  lemma JoinOne(s: string, sep: string)
    ensures Join([s], sep) == s
  {
  }

  function Bodies(ss: seq<string>): (r: seq<string>)
    requires AllTerminated(ss)
    ensures |r| == |ss| && forall i :: 0 <= i < |ss| ==> r[i] == ss[i][..|ss[i]| - 1]
  {
    if ss == [] then [] else
      assert AllTerminated(ss[1..]);
      [ss[0][..|ss[0]| - 1]] + Bodies(ss[1..])
  }

  lemma Semicolon(s: string)
    requires IsTerminated(s)
    ensures
      var t := s[..|s| - 1];
      t != "" && Trimmed(t) && ';' !in t && s == t + [';'] && s == t + ";"
  {
  }

  lemma BodiesMore(s: string, more: seq<string>)
    requires IsTerminated(s) && more != [] && AllTerminated(more)
      && NonBlank(Split(Join(more, "\n"), ';')) == Bodies(more)
    ensures NonBlank(Split(Join([s] + more, "\n"), ';')) == [s[..|s| - 1]] + Bodies(more)
  {
    assert |s| >= 2;
    hide *;
    var t, rest := s[..|s| - 1], Join(more, "\n");
    assert Join([s] + more, "\n") == t + [';'] + (['\n'] + rest) by {
      assert ([s] + more)[1..] == more;
      JoinStep([s] + more, "\n");
      Semicolon(s);
      NewlineAfter(t, rest);
    }
    assert NonBlank(Split(t + [';'] + (['\n'] + rest), ';')) == [t] + NonBlank(Split(['\n'] + rest, ';')) by {
      Semicolon(s);
      FirstPart(t, ';', ['\n'] + rest);
    }
    NewlineLead(rest);
  }

  lemma NewlineAfter(t: string, rest: string)
    ensures (t + [';']) + "\n" + rest == t + [';'] + (['\n'] + rest)
  {
  }

  lemma NewlineLead(rest: string)
    ensures NonBlank(Split(['\n'] + rest, ';')) == NonBlank(Split(rest, ';'))
  {
    NonBlankLead('\n', rest, ';');
    hide NonBlank, Split;
  }

  lemma BodiesOne(s: string)
    requires IsTerminated(s)
    ensures NonBlank(Split(Join([s], "\n"), ';')) == [s[..|s| - 1]]
  {
    assert |s| >= 2;
    hide *;
    var t := s[..|s| - 1];
    JoinOne(s, "\n");
    assert s == t + [';'] + "" by { Semicolon(s); }
    assert NonBlank(Split(t + [';'] + "", ';')) == [t] + NonBlank(Split("", ';')) by {
      Semicolon(s);
      FirstPart(t, ';', "");
    }
    BlankEnd();
  }

  lemma {:induction false} BodiesRead(ss: seq<string>)
    requires ss != [] && AllTerminated(ss)
    ensures NonBlank(Split(Join(ss, "\n"), ';')) == Bodies(ss)
  {
    assert IsTerminated(ss[0]) && AllTerminated(ss[1..]);
    assert ss == [ss[0]] + ss[1..];
    hide Split, NonBlank, Trim, Join, AllTerminated, IsTerminated;
    if |ss| == 1 {
      BodiesOne(ss[0]);
    } else {
      BodiesRead(ss[1..]);
      BodiesMore(ss[0], ss[1..]);
    }
  }

  lemma BlankEnd()
    ensures Split("", ';') == [""] && NonBlank([""]) == []
  {
    NonBlankOne("");
    assert Trim("") == "";
  }

  lemma TerminatedBodies(ss: seq<string>)
    requires AllTerminated(ss)
    ensures Terminated(Bodies(ss)) == ss
  {
    forall i | 0 <= i < |ss| ensures IsTerminated(ss[i]) {}
    hide IsTerminated, AllTerminated;
    forall i | 0 <= i < |ss| ensures ss[i] == ss[i][..|ss[i]| - 1] + ";" { Semicolon(ss[i]); }
  }

  lemma StatementsRead(ss: seq<string>)
    requires AllTerminated(ss) && AllKept(LinesOf(ss))
    ensures Statements(LinesOf(ss)) == ss
  {
    CleanedKeeps(LinesOf(ss));
    if ss != [] {
      hide Split, NonBlank, Join, AllTerminated, AllKept, LinesOf;
      JoinedLines(ss);
      BodiesRead(ss);
      TerminatedBodies(ss);
    }
  }

  lemma {:induction false} StatementLinesAreKept(ss: seq<string>)
    ensures (forall i :: 0 <= i < |ss| ==> AllKept(Split(ss[i], '\n'))) <==> AllKept(LinesOf(ss))
  {
    hide Split, Kept;
    if ss != [] {
      var init, last := ss[..|ss| - 1], Split(ss[|ss| - 1], '\n');
      StatementLinesAreKept(init);
      var lines := LinesOf(init);
      assert LinesOf(ss) == lines + last;
      if AllKept(LinesOf(ss)) {
        forall i | 0 <= i < |lines| ensures Kept(lines[i]) { assert LinesOf(ss)[i] == lines[i]; }
        forall i | 0 <= i < |last| ensures Kept(last[i]) { assert LinesOf(ss)[|lines| + i] == last[i]; }
      }
    }
  }

  lemma BlankIsNotKept()
    ensures !Kept("")
  {
    TrimIsTrimmed("");
  }

  lemma CleanedDropsBlank(lines: seq<string>)
    ensures Cleaned(lines + [""]) == Cleaned(lines)
  {
    BlankIsNotKept();
    hide Kept;
    assert (lines + [""])[..|lines|] == lines;
  }

  lemma BlankLineIsDropped(lines: seq<string>)
    ensures Statements(lines + [""]) == Statements(lines)
  {
    CleanedDropsBlank(lines);
    hide Cleaned, Split, NonBlank, Join, Terminated;
  }

  // ---------- pairs of carriage return and newline ----------

  function UnixAll(ss: seq<string>): (r: seq<string>)
    ensures |r| == |ss| && forall i :: 0 <= i < |ss| ==> r[i] == UnixLines(ss[i])
  {
    if ss == [] then [] else UnixAll(ss[..|ss| - 1]) + [UnixLines(ss[|ss| - 1])]
  }

  /** The contents that are in the text once its pairs are gone. */
  function Unix(x: Parsed): Parsed {
    x.(up := UnixAll(x.up), down := UnixAll(x.down))
  }

  lemma UnixBody(t: string)
    requires t != "" && Trimmed(t) && ';' !in t
    ensures var u := UnixLines(t); u != "" && Trimmed(u) && ';' !in u && UnixLines(t + ";") == u + ";"
  {
    UnixLinesKeeps(t);
    assert t[0] != '\r' && t[|t| - 1] != '\r';
    UnixLinesConcat(t, ";");
    assert UnixLines(";") == ";" by { OneLineHasNoPair(";"); }
    hide UnixLines;
  }

  lemma UnixIsTerminated(s: string)
    requires IsTerminated(s)
    ensures IsTerminated(UnixLines(s))
  {
    var t := s[..|s| - 1];
    Semicolon(s);
    UnixBody(t);
    hide UnixLines, Trimmed;
    var u := UnixLines(t);
    assert (u + ";")[..|u + ";"| - 1] == u;
  }

  lemma UnixAllTerminated(ss: seq<string>)
    requires AllTerminated(ss)
    ensures AllTerminated(UnixAll(ss))
  {
    hide IsTerminated, UnixLines, UnixAll;
    forall i | 0 <= i < |ss| ensures IsTerminated(UnixAll(ss)[i]) { UnixIsTerminated(ss[i]); }
  }

  lemma UnixLine(line: string)
    requires !EndsInReturn(line)
    ensures UnixLines(line + "\n") == UnixLines(line) + "\n"
  {
    UnixLinesConcat(line, "\n");
    assert UnixLines("\n") == "\n" by { UnixLinesIs("\n"); }
  }

  predicate EndsInNewline(s: string) {
    s != "" ==> s[|s| - 1] == '\n'
  }

  lemma LinesEnd(ss: seq<string>)
    ensures EndsInNewline(Lines(ss))
  {
  }

  lemma {:induction false} UnixOfLines(ss: seq<string>)
    requires AllTerminated(ss)
    ensures UnixLines(Lines(ss)) == Lines(UnixAll(ss))
  {
    if ss == [] {
      assert UnixLines("") == "";
    } else {
      var init, s := ss[..|ss| - 1], ss[|ss| - 1];
      var r := UnixAll(ss);
      assert r[..|ss| - 1] == UnixAll(init);
      assert IsTerminated(s) && AllTerminated(init);
      UnixIsTerminated(s);
      hide UnixLines, UnixAll, Trimmed;
      UnixOfLines(init);
      LinesEnd(init);
      assert WithNewline(s) == s + "\n" && WithNewline(UnixLines(s)) == UnixLines(s) + "\n";
      UnixLine(s);
      UnixLinesConcat(Lines(init), s + "\n");
      assert UnixLines(Lines(ss)) == Lines(r);
    }
  }

  lemma UnixHeaderLine(prefix: string, value: string)
    requires '\n' !in prefix && '\n' !in value && value != "" && value[|value| - 1] != '\r'
    ensures
      var line := prefix + " " + value + "\n";
      UnixLines(line) == line && EndsInNewline(line)
  {
    var line := prefix + " " + value;
    assert line[|line| - 1] == value[|value| - 1];
    PrefixedLine(prefix, value);
    OneLineHasNoPair(line);
    UnixLine(line);
  }

  lemma UnixHeader(x: Parsed)
    requires HeaderIsFine(x)
    ensures UnixLines(Header(x)) == Header(x) && EndsInNewline(Header(x))
  {
    var d, all := x.description, Join(x.dependsOn, ", ");
    var first := if d == "" then "" else DESCRIPTION + " " + d + "\n";
    var second := if x.dependsOn == [] then "" else DEPENDS_ON + " " + all + "\n";
    LiteralsAreLines();
    assert UnixLines("") == "" by { OneLineHasNoPair(""); }
    hide DESCRIPTION, DEPENDS_ON, Join, UnixLines, IsDependency;
    if d != "" { UnixHeaderLine(DESCRIPTION, d); }
    if x.dependsOn != [] {
      DependencyLine(x.dependsOn);
      UnixHeaderLine(DEPENDS_ON, all);
    }
    assert UnixLines(first) == first && UnixLines(second) == second;
    UnixLinesConcat(first, second);
    assert Header(x) == first + second;
  }

  lemma DependencyLine(deps: seq<string>)
    requires deps != [] && forall i :: 0 <= i < |deps| ==> IsDependency(deps[i])
    ensures var all := Join(deps, ", "); '\n' !in all && all != "" && all[|all| - 1] != '\r'
  {
    JoinEnds(deps);
    JoinChars(deps, ", ", '\n');
    hide Join;
  }

  lemma UnixMarker(before: string, marker: string, after: string)
    requires EndsInNewline(before) && marker != "" && '\n' !in marker && '\r' !in marker
    ensures UnixLines(before + marker + "\n" + after) == UnixLines(before) + marker + "\n" + UnixLines(after)
  {
    hide UnixLines;
    OneLineHasNoPair(marker);
    UnixLine(marker);
    UnixLinesConcat(marker + "\n", after);
    UnixLinesConcat(before, (marker + "\n") + after);
    MarkerBetween(before, marker, after);
    MarkerBetween(UnixLines(before), marker, UnixLines(after));
  }

  lemma MarkerBetween(before: string, marker: string, after: string)
    ensures before + marker + "\n" + after == before + ((marker + "\n") + after)
  {
  }

  /** Taking the pairs out of a text that was written takes them out of its statements: there are none elsewhere. */
  lemma UnixRender(x: Parsed)
    requires HeaderIsFine(x) && AllTerminated(x.up) && AllTerminated(x.down)
    ensures UnixLines(Render(x)) == Render(Unix(x))
  {
    UnixHeader(x);
    UnixOfLines(x.up);
    UnixOfLines(x.down);
    LinesEnd(x.up);
    MarkersArePlain();
    assert Header(Unix(x)) == Header(x);
    hide UP, DOWN, Header, Lines, UnixLines, UnixAll;
    var first := Header(x) + UP + "\n" + Lines(x.up);
    assert UnixLines(first) == Header(x) + UP + "\n" + Lines(UnixAll(x.up))
      by { UnixMarker(Header(x), UP, Lines(x.up)); }
    assert EndsInNewline(first);
    UnixMarker(first, DOWN, Lines(x.down));
  }

  lemma MarkersArePlain()
    ensures '\n' !in UP && '\r' !in UP && '\n' !in DOWN && '\r' !in DOWN && UP != "" && DOWN != ""
  {
  }
}
