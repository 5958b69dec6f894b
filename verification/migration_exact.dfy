/** Exactly which contents survive being written to a file and read back. */
module MigrationExact {
  import opened Text
  import opened MigrationFiles
  import opened MigrationRoundTrip

  // ---------- a file by its sections ----------

  function Stitch(header: seq<string>, up: seq<string>, down: seq<string>): seq<string> {
    header + [UP] + up + [DOWN] + down
  }

  predicate NoMarkers(lines: seq<string>) {
    forall i :: 0 <= i < |lines| ==> !IsUp(lines[i]) && !IsDown(lines[i])
  }

  function Sections(header: seq<string>, up: seq<string>, down: seq<string>): Parsed {
    Parsed(ReadHeader(header).0, ReadHeader(header).1, Statements(up), Statements(down))
  }

  lemma StitchParts(header: seq<string>, up: seq<string>, down: seq<string>)
    ensures
      var lines, u := Stitch(header, up, down), |header|;
      var d := u + 1 + |up|;
      && |lines| == d + 1 + |down| && lines[u] == UP && lines[d] == DOWN
      && lines[..u] == header && lines[u + 1..d] == up && lines[d + 1..] == down
  {
    hide UP, DOWN;
  }

  lemma MarkersAt(header: seq<string>, up: seq<string>, down: seq<string>, i: nat)
    requires NoMarkers(header) && NoMarkers(up) && NoMarkers(down) && i < |header| + 1 + |up| + 1 + |down|
    ensures
      var lines, u := Stitch(header, up, down), |header|;
      |lines| == u + 2 + |up| + |down| && (IsUp(lines[i]) <==> i == u) && (IsDown(lines[i]) <==> i == u + 1 + |up|)
  {
    MarkersDiffer();
    hide UP, DOWN, IsUp, IsDown;
  }

  /** A file without further marker lines is read as its sections. */
  lemma ReadsSections(header: seq<string>, up: seq<string>, down: seq<string>)
    requires NoMarkers(header) && NoMarkers(up) && NoMarkers(down)
    ensures ParseLines(Stitch(header, up, down)) == Ok(Sections(header, up, down))
  {
    StitchParts(header, up, down);
    hide UP, DOWN, IsUp, IsDown, ReadHeader, Statements, NoMarkers, Stitch, Markers;
    var lines, u := Stitch(header, up, down), |header|;
    var d := u + 1 + |up|;
    forall i | 0 <= i < |lines| ensures (IsUp(lines[i]) <==> i == u) && (IsDown(lines[i]) <==> i == d) {
      MarkersAt(header, up, down, i);
    }
    MarkersAre(lines, u, d, |lines|);
  }

  /** And if it is read at all, then as its sections. */
  lemma OnlySections(header: seq<string>, up: seq<string>, down: seq<string>)
    requires ParseLines(Stitch(header, up, down)).Ok?
    ensures ParseLines(Stitch(header, up, down)) == Ok(Sections(header, up, down))
  {
    StitchParts(header, up, down);
    MarkersDiffer();
    hide UP, DOWN, IsUp, IsDown, ReadHeader, Statements, Stitch, Markers;
    var lines := Stitch(header, up, down);
    MarkersAreUnique(lines, |lines|);
  }

  // ---------- well-formed contents are read back ----------

  lemma KeptHasNoMarkers(lines: seq<string>)
    requires AllKept(lines)
    ensures NoMarkers(lines) && NoMarkers(lines + [""])
  {
    MarkersDiffer();
    hide UP, DOWN, IsUp, IsDown, Kept;
    forall i | 0 <= i < |lines| ensures !IsUp(lines[i]) && !IsDown(lines[i]) { KeptIsNoMarker(lines[i]); }
  }

  lemma StatementsAreTerminated(ss: seq<string>)
    requires forall i :: 0 <= i < |ss| ==> IsStatement(ss[i])
    ensures AllTerminated(ss) && AllKept(LinesOf(ss))
  {
    hide IsTerminated, AllKept, Split, LinesOf;
    StatementLinesAreKept(ss);
  }

  lemma WellFormedParts(x: Parsed)
    requires WellFormed(x)
    ensures HeaderIsFine(x) && AllTerminated(x.up) && AllTerminated(x.down) && AllKept(LinesOf(x.up))
      && AllKept(LinesOf(x.down))
  {
    hide HeaderIsFine, IsStatement, AllTerminated, AllKept, LinesOf;
    StatementsAreTerminated(x.up);
    StatementsAreTerminated(x.down);
  }

  /** What is written and well formed is read back as it was. */
  lemma WrittenIsReadBack(x: Parsed)
    requires WellFormed(x) && !HasPair(Render(x))
    ensures Parse(Render(x)) == Ok(x)
  {
    WellFormedParts(x);
    hide *;
    var h, up, down := HeaderLines(x), LinesOf(x.up), LinesOf(x.down) + [""];
    WrittenLinesAre(x);
    HeaderReads(x);
    KeptHasNoMarkers(LinesOf(x.up));
    KeptHasNoMarkers(LinesOf(x.down));
    assert NoMarkers(h) by { NoMarkersMeans(h); }
    ReadsSections(h, up, down);
    StatementsRead(x.up);
    StatementsRead(x.down);
    BlankLineIsDropped(LinesOf(x.down));
    assert Parse(Render(x)) == ParseLines(Stitch(h, up, down)) by { WrittenIsStitched(x); }
    assert Sections(h, up, down) == x by { SectionsAre(h, up, down, x); }
  }

  lemma NoMarkersMeans(lines: seq<string>)
    ensures NoMarkers(lines) <==> forall i :: 0 <= i < |lines| ==> !IsUp(lines[i]) && !IsDown(lines[i])
  {
    hide IsUp, IsDown;
  }

  lemma WrittenIsStitched(x: Parsed)
    requires Split(UnixLines(Render(x)), '\n') == WrittenLines(x)
    ensures Parse(Render(x)) == ParseLines(Stitch(HeaderLines(x), LinesOf(x.up), LinesOf(x.down) + [""]))
  {
    hide Split, UnixLines, Render, HeaderLines, LinesOf, ParseLines, UP, DOWN;
  }

  lemma SectionsAre(header: seq<string>, up: seq<string>, down: seq<string>, x: Parsed)
    requires ReadHeader(header) == (x.description, x.dependsOn) && Statements(up) == x.up && Statements(down) == x.down
    ensures Sections(header, up, down) == x
  {
    hide ReadHeader, Statements;
  }

  // ---------- what can be read at all ----------

  lemma {:induction false} NonBlankShape(parts: seq<string>, i: nat) returns (k: nat)
    requires i < |NonBlank(parts)|
    ensures
      var t := NonBlank(parts)[i];
      t != "" && Trimmed(t) && k < |parts| && forall c :: c in t ==> c in parts[k]
  {
    hide *;
    NonBlankLast(parts);
    var init, p := parts[..|parts| - 1], parts[|parts| - 1];
    TrimIsTrimmed(p);
    if i < |NonBlank(init)| { k := NonBlankShape(init, i); } else { k := |parts| - 1; }
  }

  /** What is read as a statement has its one semicolon at the end and is trimmed before it. */
  lemma ReadIsTerminated(lines: seq<string>)
    ensures AllTerminated(Statements(lines))
  {
    var parts := Split(Join(Cleaned(lines), "\n"), ';');
    SplitPieces(Join(Cleaned(lines), "\n"), ';');
    hide Split, Join, Cleaned;
    forall i | 0 <= i < |Statements(lines)| ensures IsTerminated(Statements(lines)[i]) {
      hide NonBlank, Trimmed;
      var t := NonBlank(parts)[i];
      var k := NonBlankShape(parts, i);
      assert parts[k] in parts;
      assert Statements(lines)[i] == t + ";";
      TerminatedIs(t);
    }
  }

  lemma TerminatedIs(t: string)
    requires t != "" && Trimmed(t) && ';' !in t
    ensures IsTerminated(t + ";")
  {
    assert (t + ";")[..|t + ";"| - 1] == t;
  }

  lemma CsvIsDependencies(s: string, i: nat)
    requires '\n' !in s && i < |SplitCsv(s)|
    ensures IsDependency(SplitCsv(s)[i])
  {
    TrimIsTrimmed(s);
    SplitPieces(Trim(s), ',');
    hide Split, Trim, NonBlank, Trimmed;
    var k := NonBlankShape(Split(Trim(s), ','), i);
    assert Split(Trim(s), ',')[k] in Split(Trim(s), ',');
  }

  lemma {:induction false} HeaderShape(lines: seq<string>)
    requires forall i :: 0 <= i < |lines| ==> '\n' !in lines[i]
    ensures IsDescription(ReadHeader(lines).0)
      && forall i :: 0 <= i < |ReadHeader(lines).1| ==> IsDependency(ReadHeader(lines).1[i])
  {
    if lines != [] {
      var init, line := lines[..|lines| - 1], Trim(lines[|lines| - 1]);
      HeaderShape(init);
      TrimIsTrimmed(lines[|lines| - 1]);
      hide Trim, SplitCsv, Trimmed, DESCRIPTION, DEPENDS_ON, IsDependency;
      if DESCRIPTION <= line {
        TrimIsTrimmed(line[|DESCRIPTION|..]);
      } else if DEPENDS_ON <= line {
        var value := line[|DEPENDS_ON|..];
        forall i | 0 <= i < |SplitCsv(value)| ensures IsDependency(SplitCsv(value)[i]) { CsvIsDependencies(value, i); }
      }
    }
  }

  // ---------- nothing that is read back can have lost a line ----------

  /** Length with a newline after each. */
  function Bulk(lines: seq<string>): nat {
    if lines == [] then 0 else Bulk(lines[..|lines| - 1]) + |lines[|lines| - 1]| + 1
  }

  lemma {:induction false} BulkConcat(a: seq<string>, b: seq<string>)
    ensures Bulk(a + b) == Bulk(a) + Bulk(b)
  {
    if b == [] {
      assert a + b == a;
    } else {
      assert (a + b)[..|a + b| - 1] == a + b[..|b| - 1];
      BulkConcat(a, b[..|b| - 1]);
    }
  }

  lemma BulkOne(s: string)
    ensures Bulk([s]) == |s| + 1
  {
    assert [s][..0] == [];
  }

  lemma {:induction false} BulkSplit(s: string, c: char)
    ensures Bulk(Split(s, c)) == |s| + 1
  {
    if s == "" {
      BulkOne("");
    } else {
      var r := Split(s[1..], c);
      BulkSplit(s[1..], c);
      if s[0] == c {
        BulkConcat([""], r);
        BulkOne("");
      } else {
        assert r == [r[0]] + r[1..];
        hide Split, Bulk;
        BulkConcat([r[0]], r[1..]);
        BulkConcat([[s[0]] + r[0]], r[1..]);
        BulkOne(r[0]);
        BulkOne([s[0]] + r[0]);
        assert Bulk([[s[0]] + r[0]] + r[1..]) == |s| + 1;
      }
    }
  }

  lemma {:induction false} BulkLines(ss: seq<string>)
    ensures Bulk(LinesOf(ss)) == Bulk(ss)
  {
    if ss != [] {
      BulkLines(ss[..|ss| - 1]);
      BulkConcat(LinesOf(ss[..|ss| - 1]), Split(ss[|ss| - 1], '\n'));
      BulkSplit(ss[|ss| - 1], '\n');
    }
  }

  lemma {:induction false} BulkJoin(lines: seq<string>)
    requires lines != []
    ensures |Join(lines, "\n")| + 1 == Bulk(lines)
  {
    assert lines == [lines[0]] + lines[1..];
    BulkConcat([lines[0]], lines[1..]);
    BulkOne(lines[0]);
    hide Bulk;
    if |lines| == 1 {
      JoinOne(lines[0], "\n");
      assert lines[1..] == [];
      BulkNone();
    } else {
      BulkJoin(lines[1..]);
    }
  }

  lemma BulkNone()
    ensures Bulk([]) == 0
  {
  }

  lemma {:induction false} BulkTerminated(ss: seq<string>)
    ensures Bulk(Terminated(ss)) == Bulk(ss) + |ss|
  {
    if ss != [] { BulkTerminated(ss[..|ss| - 1]); }
  }

  /** Dropping a line loses it and its newline. */
  lemma {:induction false} CleanedLoses(lines: seq<string>)
    ensures Bulk(Cleaned(lines)) <= Bulk(lines)
    ensures forall i :: 0 <= i < |lines| && !Kept(lines[i]) ==> Bulk(Cleaned(lines)) + |lines[i]| + 1 <= Bulk(lines)
  {
    if lines != [] {
      hide Kept;
      var init, line := lines[..|lines| - 1], lines[|lines| - 1];
      CleanedLoses(init);
      BulkConcat(Cleaned(init), [line]);
      BulkOne(line);
      assert Cleaned(init) + [] == Cleaned(init);
      assert Bulk(Cleaned(lines)) == Bulk(Cleaned(init)) + if Kept(line) then |line| + 1 else 0;
      forall i | 0 <= i < |lines| && !Kept(lines[i]) ensures Bulk(Cleaned(lines)) + |lines[i]| + 1 <= Bulk(lines) {
        if i < |init| { assert init[i] == lines[i]; }
      }
    }
  }

  /** A part that comes after a semicolon is empty or begins with a newline. */
  predicate FollowsOn(part: string) {
    part == "" || part[0] == '\n'
  }

  /** Trimming pays for the semicolon of every part but the first; a blank last part pays for that one. */
  lemma {:induction false} PartsPay(parts: seq<string>)
    requires parts != [] && forall i :: 1 <= i < |parts| ==> FollowsOn(parts[i])
    ensures Bulk(NonBlank(parts)) + |NonBlank(parts)| <= Bulk(parts) + 1
    ensures parts[|parts| - 1] == "" ==> Bulk(NonBlank(parts)) + |NonBlank(parts)| <= Bulk(parts)
  {
    var init, p := parts[..|parts| - 1], parts[|parts| - 1];
    if init != [] { PartsPay(init); }
    TrimIsTrimmed(p);
    assert p == "" ==> Trim(p) == "";
    hide Trim, Trimmed;
    BulkConcat(NonBlank(init), [Trim(p)]);
    BulkOne(Trim(p));
    assert NonBlank(init) + [] == NonBlank(init);
    assert init == [] ==> NonBlank(init) == [] && Bulk(NonBlank(init)) == 0 && Bulk(init) == 0;
    assert init != [] && p != "" ==> |Trim(p)| < |p|;
  }

  // ---------- semicolons stand at the ends of lines ----------

  predicate EndsOnly(s: string) {
    forall i :: 0 <= i < |s| - 1 ==> s[i] != ';'
  }

  /** Every semicolon is at the end of a line. */
  predicate EndOfLine(s: string) {
    forall i :: 0 <= i < |s| - 1 && s[i] == ';' ==> s[i + 1] == '\n'
  }

  lemma {:induction false} EndsOnlyPieces(s: string, i: nat)
    requires EndsOnly(s) && i < |Split(s, '\n')|
    ensures EndsOnly(Split(s, '\n')[i])
  {
    if s != "" {
      var r := Split(s[1..], '\n');
      assert EndsOnly(s[1..]) by { forall k | 0 <= k < |s[1..]| - 1
        ensures s[1..][k] != ';' { assert s[k + 1] != ';'; } }
      if s[0] == '\n' {
        if i > 0 { EndsOnlyPieces(s[1..], i - 1); }
      } else {
        EndsOnlyPieces(s[1..], i);
        if i == 0 && |s| > 1 {
          assert s[0] != ';';
          var p := [s[0]] + r[0];
          assert Split(s, '\n')[0] == p;
          forall k | 0 <= k < |p| - 1 ensures p[k] != ';' { if k > 0 { assert p[k] == r[0][k - 1]; } }
        }
      }
    }
  }

  lemma {:induction false} JoinedEndOfLine(lines: seq<string>)
    requires forall i :: 0 <= i < |lines| ==> EndsOnly(lines[i])
    ensures EndOfLine(Join(lines, "\n"))
  {
    if |lines| > 1 {
      assert EndsOnly(lines[0]);
      forall i | 0 <= i < |lines| - 1 ensures EndsOnly(lines[1..][i]) { assert EndsOnly(lines[i + 1]); }
      JoinedEndOfLine(lines[1..]);
      JoinStep(lines, "\n");
      hide Join;
      var rest := Join(lines[1..], "\n");
      EndOfLineConcat(lines[0], rest);
    } else if |lines| == 1 {
      assert EndsOnly(lines[0]);
    }
  }

  lemma EndOfLineConcat(line: string, rest: string)
    requires EndsOnly(line) && EndOfLine(rest)
    ensures EndOfLine(line + "\n" + rest)
  {
    var s := line + "\n" + rest;
    forall i | 0 <= i < |s| - 1 && s[i] == ';' ensures s[i + 1] == '\n' {
      if i > |line| { assert s[i] == rest[i - |line| - 1] && s[i + 1] == rest[i - |line|]; }
    }
  }

  lemma {:induction false} PartsFollowOn(s: string, i: nat)
    requires EndOfLine(s) && 0 < i < |Split(s, ';')|
    ensures FollowsOn(Split(s, ';')[i])
  {
    var rest := s[1..];
    assert EndOfLine(rest) by { forall k | 0 <= k < |rest| - 1 && rest[k] == ';'
      ensures rest[k + 1] == '\n' { assert s[k + 1] == ';'; } }
    if s[0] == ';' {
      if i == 1 { FirstPartBegins(rest); } else { PartsFollowOn(rest, i - 1); }
    } else {
      PartsFollowOn(rest, i);
    }
  }

  lemma FirstPartBegins(s: string)
    requires s != "" ==> s[0] == '\n'
    ensures FollowsOn(Split(s, ';')[0])
  {
  }

  lemma {:induction false} CleanedAreLines(lines: seq<string>, i: nat) returns (k: nat)
    requires i < |Cleaned(lines)|
    ensures k < |lines| && lines[k] == Cleaned(lines)[i]
  {
    hide Kept;
    var init := lines[..|lines| - 1];
    if i < |Cleaned(init)| { k := CleanedAreLines(init, i); } else { k := |lines| - 1; }
  }

  lemma {:induction false} LinesEndsOnly(ss: seq<string>, i: nat)
    requires AllTerminated(ss) && i < |LinesOf(ss)|
    ensures EndsOnly(LinesOf(ss)[i])
  {
    var init, s := ss[..|ss| - 1], ss[|ss| - 1];
    assert AllTerminated(init) && IsTerminated(s);
    if i < |LinesOf(init)| { LinesEndsOnly(init, i); } else {
      assert EndsOnly(s);
      hide Split, EndsOnly;
      EndsOnlyPieces(s, i - |LinesOf(init)|);
    }
  }

  /** The last line of statements ends in a semicolon, and is worth more than a dropped line may be. */
  lemma LastLineOf(ss: seq<string>)
    requires AllTerminated(ss) && ss != []
    ensures
      var lines := LinesOf(ss);
      var last := lines[|lines| - 1];
      lines != [] && last != "" && last[|last| - 1] == ';' && (Kept(last) || |last| >= 2)
  {
    var s := ss[|ss| - 1];
    assert IsTerminated(s);
    LastPiece(s, '\n');
    hide AllTerminated, IsTerminated, Split;
    var lines := LinesOf(ss);
    var last := lines[|lines| - 1];
    TrimKeepsEnd(last);
    TrimIsTrimmed(last);
    hide Trim, Trimmed, IsSpace;
  }

  lemma {:induction false} CleanedLast(lines: seq<string>)
    requires lines != [] && Kept(lines[|lines| - 1])
    ensures Cleaned(lines) != [] && Cleaned(lines)[|Cleaned(lines)| - 1] == lines[|lines| - 1]
  {
    hide Kept;
  }

  lemma PartsOf(ss: seq<string>)
    requires AllTerminated(ss)
    ensures
      var parts := Split(Join(Cleaned(LinesOf(ss)), "\n"), ';');
      forall i :: 1 <= i < |parts| ==> FollowsOn(parts[i])
  {
    hide *;
    var lines := LinesOf(ss);
    var c := Cleaned(lines);
    forall i | 0 <= i < |c| ensures EndsOnly(c[i]) {
      var k := CleanedAreLines(lines, i);
      LinesEndsOnly(ss, k);
    }
    JoinedEndOfLine(c);
    var parts := Split(Join(c, "\n"), ';');
    forall i | 1 <= i < |parts| ensures FollowsOn(parts[i]) { PartsFollowOn(Join(c, "\n"), i); }
  }

  lemma StatementsBulk(lines: seq<string>)
    requires Cleaned(lines) != []
    ensures
      var parts := Split(Join(Cleaned(lines), "\n"), ';');
      Bulk(Statements(lines)) == Bulk(NonBlank(parts)) + |NonBlank(parts)| && Bulk(parts) == Bulk(Cleaned(lines))
  {
    var parts := Split(Join(Cleaned(lines), "\n"), ';');
    hide Split, Join, Cleaned, NonBlank, Bulk, Terminated;
    BulkTerminated(NonBlank(parts));
    BulkSplit(Join(Cleaned(lines), "\n"), ';');
    BulkJoin(Cleaned(lines));
  }

  /** Reading statements from their own lines gains nothing, and it loses something if a line is dropped. */
  lemma ReadingLoses(ss: seq<string>)
    requires AllTerminated(ss)
    ensures Bulk(Statements(LinesOf(ss))) <= Bulk(ss)
    ensures Bulk(Statements(LinesOf(ss))) == Bulk(ss) ==> AllKept(LinesOf(ss))
  {
    hide *;
    var lines := LinesOf(ss);
    var c := Cleaned(lines);
    BulkLines(ss);
    CleanedLoses(lines);
    AllKeptMeans(lines);
    if ss == [] {
      NoLines();
    } else if c == [] {
      NothingCleaned(lines);
      LastLineOf(ss);
    } else {
      var parts := Split(Join(c, "\n"), ';');
      LastLineOf(ss);
      var last := lines[|lines| - 1];
      assert |parts| > 0;
      PartsOf(ss);
      assert parts == Split(Join(Cleaned(LinesOf(ss)), "\n"), ';');
      assert forall i :: 1 <= i < |parts| ==> FollowsOn(parts[i]);
      PartsPay(parts);
      StatementsBulk(lines);
      if Kept(last) {
        assert parts[|parts| - 1] == "" by {
          CleanedLast(lines);
          JoinEnd(c, "\n");
          LastPiece(Join(c, "\n"), ';');
        }
      }
    }
  }

  lemma NothingCleaned(lines: seq<string>)
    requires Cleaned(lines) == []
    ensures Statements(lines) == [] && Bulk(Statements(lines)) == 0
  {
  }

  /** If statements are read from their own lines as they were, no line was dropped. */
  lemma NoLineWasDropped(ss: seq<string>)
    requires AllTerminated(ss) && Statements(LinesOf(ss)) == ss
    ensures AllKept(LinesOf(ss))
  {
    ReadingLoses(ss);
    hide *;
  }

  lemma NoLines()
    ensures AllKept(LinesOf([])) && Statements(LinesOf([])) == []
  {
  }

  lemma AllKeptMeans(lines: seq<string>)
    ensures AllKept(lines) <==> forall i :: 0 <= i < |lines| ==> Kept(lines[i])
  {
    hide Kept;
  }

  // ---------- the theorem ----------

  lemma ParsedFrom(lines: seq<string>, x: Parsed) returns (u: nat, d: nat)
    requires ParseLines(lines) == Ok(x)
    ensures u < d < |lines| && ReadHeader(lines[..u]) == (x.description, x.dependsOn)
    ensures Statements(lines[u + 1..d]) == x.up && Statements(lines[d + 1..]) == x.down
  {
    hide Markers, ReadHeader, Statements;
    var r := Markers(lines, |lines|);
    u, d := r.up, r.down;
  }

  lemma HeaderIsFineIf(x: Parsed)
    requires IsDescription(x.description) && forall i :: 0 <= i < |x.dependsOn| ==> IsDependency(x.dependsOn[i])
    ensures HeaderIsFine(x)
  {
    hide IsDescription, IsDependency;
  }

  lemma ReadShape(x: Parsed)
    requires Parse(Render(x)) == Ok(x)
    ensures HeaderIsFine(x) && AllTerminated(x.up) && AllTerminated(x.down)
  {
    var body := UnixLines(Render(x));
    var lines := Split(body, '\n');
    assert ParseLines(lines) == Ok(x) by { hide UnixLines, Render, Split, ParseLines; }
    hide *;
    SplitPieces(body, '\n');
    var u, d := ParsedFrom(lines, x);
    forall i | 0 <= i < u ensures '\n' !in lines[..u][i] { assert lines[i] in lines; }
    HeaderShape(lines[..u]);
    HeaderIsFineIf(x);
    ReadIsTerminated(lines[u + 1..d]);
    ReadIsTerminated(lines[d + 1..]);
  }

  lemma StatementsFromLines(ss: seq<string>)
    requires AllTerminated(ss) && AllKept(LinesOf(ss))
    ensures forall i :: 0 <= i < |ss| ==> IsStatement(ss[i])
  {
    StatementLinesAreKept(ss);
    hide IsTerminated, AllKept, Split, LinesOf;
  }

  lemma {:induction false} UnixBulk(ss: seq<string>)
    ensures Bulk(UnixAll(ss)) <= Bulk(ss) && (Bulk(UnixAll(ss)) == Bulk(ss) ==> UnixAll(ss) == ss)
  {
    if ss != [] {
      var init, s := ss[..|ss| - 1], ss[|ss| - 1];
      UnixBulk(init);
      UnixLinesIs(s);
      hide UnixLines;
      assert UnixAll(ss)[..|ss| - 1] == UnixAll(init);
      assert ss == init + [s];
    }
  }

  /** The statements that are read from a text are those of its own lines, as they are without pairs. */
  lemma ReadFromUnix(x: Parsed)
    requires Parse(Render(x)) == Ok(x)
    ensures HeaderIsFine(x) && AllTerminated(x.up) && AllTerminated(x.down)
    ensures Statements(LinesOf(UnixAll(x.up))) == x.up && Statements(LinesOf(UnixAll(x.down))) == x.down
  {
    hide *;
    ReadShape(x);
    var y := Unix(x);
    assert HeaderIsFine(y) && y.up == UnixAll(x.up) && y.down == UnixAll(x.down) by { UnixMeans(x); }
    UnixAllTerminated(x.up);
    UnixAllTerminated(x.down);
    UnixRender(x);
    RenderSplits(y);
    var h, up, down := HeaderLines(y), LinesOf(y.up), LinesOf(y.down) + [""];
    ParseOfRender(x, y);
    OnlySections(h, up, down);
    BlankLineIsDropped(LinesOf(y.down));
    SectionsStatements(h, up, down, x);
  }

  lemma UnixMeans(x: Parsed)
    requires HeaderIsFine(x)
    ensures HeaderIsFine(Unix(x)) && Unix(x).up == UnixAll(x.up) && Unix(x).down == UnixAll(x.down)
  {
    hide IsDescription, IsDependency, UnixAll;
  }

  lemma UnixIsSame(x: Parsed)
    requires UnixAll(x.up) == x.up && UnixAll(x.down) == x.down
    ensures Unix(x) == x
  {
    hide UnixAll;
  }

  lemma ParseOfRender(x: Parsed, y: Parsed)
    requires UnixLines(Render(x)) == Render(y) && Split(Render(y), '\n') == WrittenLines(y)
    ensures Parse(Render(x)) == ParseLines(Stitch(HeaderLines(y), LinesOf(y.up), LinesOf(y.down) + [""]))
  {
    hide Split, UnixLines, Render, HeaderLines, LinesOf, ParseLines, UP, DOWN;
  }

  /**
   Contents are read back as they were written exactly if they are well formed and no carriage return in them is
   followed by a newline.
   */
  lemma RoundTripIsExact(x: Parsed)
    ensures Parse(Render(x)) == Ok(x) <==> WellFormed(x) && !HasPair(Render(x))
  {
    if WellFormed(x) && !HasPair(Render(x)) { WrittenIsReadBack(x); }
    if Parse(Render(x)) == Ok(x) {
      hide *;
      ReadFromUnix(x);
      UnixAllTerminated(x.up);
      UnixAllTerminated(x.down);
      ReadingLoses(UnixAll(x.up));
      ReadingLoses(UnixAll(x.down));
      UnixBulk(x.up);
      UnixBulk(x.down);
      assert UnixAll(x.up) == x.up && UnixAll(x.down) == x.down;
      UnixIsSame(x);
      UnixRender(x);
      UnixLinesIs(Render(x));
      NoLineWasDropped(x.up);
      NoLineWasDropped(x.down);
      StatementsFromLines(x.up);
      StatementsFromLines(x.down);
      WellFormedIf(x);
    }
  }

  lemma SectionsStatements(header: seq<string>, up: seq<string>, down: seq<string>, x: Parsed)
    requires Sections(header, up, down) == x
    ensures Statements(up) == x.up && Statements(down) == x.down
  {
    hide ReadHeader, Statements;
  }

  lemma WellFormedIf(x: Parsed)
    requires HeaderIsFine(x) && (forall i :: 0 <= i < |x.up| ==> IsStatement(x.up[i]))
      && (forall i :: 0 <= i < |x.down| ==> IsStatement(x.down[i]))
    ensures WellFormed(x)
  {
    hide HeaderIsFine, IsStatement;
  }
}
