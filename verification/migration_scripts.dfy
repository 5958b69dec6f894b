/** Scripts of several lines: what putting two scripts together makes of their statements. */
module MigrationScripts {
  import opened Text
  import opened MigrationFiles
  import opened MigrationRoundTrip
  import opened MigrationExact
  import opened MigrationSplice

  /** The lines of a script that are neither blank nor comments, trimmed. */
  function KeptLines(script: string): seq<string> {
    TrimmedKept(Split(UnixLines(script), '\n'))
  }

  /** The last line that is kept, if there is one, ends in a semicolon. */
  predicate IsClosed(script: string) {
    var lines := KeptLines(script);
    lines != [] ==> EndsInSemicolon(lines[|lines| - 1])
  }

  // ---------- lines ----------

  lemma {:induction false} TrimmedKeptConcat(a: seq<string>, b: seq<string>)
    ensures TrimmedKept(a + b) == TrimmedKept(a) + TrimmedKept(b)
  {
    hide *;
    TrimmedKeptLast(b);
    if b == [] {
      assert a + b == a;
    } else {
      TrimmedKeptLast(a + b);
      assert (a + b)[..|a + b| - 1] == a + b[..|b| - 1];
      TrimmedKeptConcat(a, b[..|b| - 1]);
    }
  }

  lemma TrimmedKeptOne(line: string)
    ensures TrimmedKept([line]) == if Kept(line) then [Trim(line)] else []
  {
    assert [line][..0] == [];
    hide Kept, Trim;
  }

  lemma {:induction false} TrimRightSpace(s: string, c: char)
    requires IsSpace(c)
    ensures Trim(s + [c]) == Trim(s)
  {
    hide IsSpace;
    if s == "" {
      assert [c][1..] == "" && s + [c] == [c];
    } else if IsSpace(s[0]) {
      assert (s + [c])[1..] == s[1..] + [c];
      TrimRightSpace(s[1..], c);
    } else {
      assert (s + [c])[..|s|] == s;
    }
  }

  /** A carriage return at the end of the last line makes no difference. */
  lemma ReturnIsTrimmed(s: string)
    ensures TrimmedKept(Split(s + "\r", '\n')) == TrimmedKept(Split(s, '\n'))
  {
    var r := Split(s, '\n');
    var init, last := r[..|r| - 1], r[|r| - 1];
    assert Split(s + "\r", '\n') == init + [last + "\r"] by { LastGrows(s, "\r", '\n'); }
    assert r == init + [last] && Trim(last + "\r") == Trim(last) by { TrimRightSpace(last, '\r'); }
    assert Kept(last + "\r") <==> Kept(last);
    hide *;
    TrimmedKeptConcat(init, [last]);
    TrimmedKeptConcat(init, [last + "\r"]);
    TrimmedKeptOne(last);
    TrimmedKeptOne(last + "\r");
  }

  lemma {:induction false} LastGrows(s: string, x: string, c: char)
    requires c !in x
    ensures var r := Split(s, c); Split(s + x, c) == r[..|r| - 1] + [r[|r| - 1] + x]
  {
    SplitFirst(s, c);
    SplitFirst(s + x, c);
    hide Split;
    if s == "" {
      assert s + x == x;
      SplitNone(x, c);
    } else {
      assert (s + x)[1..] == s[1..] + x && (s + x)[0] == s[0];
      LastGrows(s[1..], x, c);
      var q := Split(s[1..], c);
      PutInFront(s[0], q, x, Split(s[1..] + x, c));
    }
  }

  lemma PutInFront(y: char, q: seq<string>, x: string, grown: seq<string>)
    requires q != [] && grown == q[..|q| - 1] + [q[|q| - 1] + x]
    ensures
      var r := [[y] + q[0]] + q[1..];
      [[y] + grown[0]] + grown[1..] == r[..|r| - 1] + [r[|r| - 1] + x]
    ensures var r := [""] + q; [""] + grown == r[..|r| - 1] + [r[|r| - 1] + x]
  {
    if |q| == 1 { assert [y] + (q[0] + x) == [y] + q[0] + x; }
  }

  /** The lines of two scripts, one below the other. */
  lemma LinesOfBoth(a: string, b: string)
    ensures KeptLines(a + ['\n'] + b) == KeptLines(a) + KeptLines(b)
  {
    hide Split, TrimmedKept, UnixLines;
    var rest := ['\n'] + b;
    UnixOfRest(b);
    if EndsInReturn(a) {
      var init := a[..|a| - 1];
      assert a == init + "\r" && a + ['\n'] + b == init + (['\r', '\n'] + b);
      UnixLinesConcat(init, ['\r', '\n'] + b);
      UnixLinesConcat(init, "\r");
      assert UnixLines("\r") == "\r" by { OneLineHasNoPair("\r"); }
      assert UnixLines(a + ['\n'] + b) == UnixLines(init) + ['\n'] + UnixLines(b);
      SplitAt(UnixLines(init), '\n', UnixLines(b));
      ReturnIsTrimmed(UnixLines(init));
      TrimmedKeptConcat(Split(UnixLines(init), '\n'), Split(UnixLines(b), '\n'));
    } else {
      assert a + ['\n'] + b == a + rest;
      UnixLinesConcat(a, rest);
      assert UnixLines(a + ['\n'] + b) == UnixLines(a) + ['\n'] + UnixLines(b);
      SplitAt(UnixLines(a), '\n', UnixLines(b));
      TrimmedKeptConcat(Split(UnixLines(a), '\n'), Split(UnixLines(b), '\n'));
    }
  }

  lemma UnixOfRest(b: string)
    ensures UnixLines(['\n'] + b) == ['\n'] + UnixLines(b)
    ensures UnixLines(['\r', '\n'] + b) == ['\n'] + UnixLines(b)
  {
    assert (['\n'] + b)[1..] == b && (['\r', '\n'] + b)[2..] == b;
  }

  /** A script of one line. */
  lemma LinesOfOne(line: string)
    requires '\n' !in line
    ensures KeptLines(line) == if Kept(line) then [Trim(line)] else []
  {
    OneLineHasNoPair(line);
    SplitNone(line, '\n');
    TrimmedKeptOne(line);
    hide Split, UnixLines, TrimmedKept, Kept, Trim;
  }

  // ---------- statements ----------

  lemma StatementsAreCut(script: string)
    ensures ScriptStatements(script) == Terminated(NonBlank(Split(Join(KeptLines(script), " "), ';')))
  {
    if KeptLines(script) == [] {
      assert Split("", ';') == [""] && NonBlank([""]) == [] by { NonBlankOne(""); }
      assert Terminated([]) == [];
    }
    hide TrimmedKept, NonBlank, Split, UnixLines, Terminated;
  }

  lemma {:induction false} TerminatedConcat(a: seq<string>, b: seq<string>)
    ensures Terminated(a + b) == Terminated(a) + Terminated(b)
  {
    var x, y := Terminated(a + b), Terminated(a) + Terminated(b);
    hide Terminated;
    assert |x| == |y| && forall i :: 0 <= i < |x| ==> x[i] == y[i];
  }

  /** A stretch without semicolons is a statement, if it is not blank. */
  function Stated(t: string): seq<string> {
    if Trim(t) == "" then [] else [Trim(t) + ";"]
  }

  /** One statement for each semicolon, and one for what follows the last. */
  function Pieces(s: string): seq<string>
    decreases |s|
  {
    var k := Index(s, ";", 0);
    if k < 0 || k >= |s| then Stated(s) else Stated(s[..k]) + Pieces(s[k + 1..])
  }

  lemma {:induction false} CutIsPieces(s: string)
    ensures Terminated(NonBlank(Split(s, ';'))) == Pieces(s)
    decreases |s|
  {
    var k := Index(s, ";", 0);
    if k < 0 {
      assert forall i :: 0 <= i < |s| && s[i] == ';' ==> OccursAt(s, ";", i);
      OnePiece(s);
    } else {
      var t, rest := s[..k], s[k + 1..];
      assert s[k..k + 1] == ";" && s[k] == ';';
      assert ';' !in t by { assert forall i :: 0 <= i < k && s[i] == ';' ==> OccursAt(s, ";", i); }
      assert Pieces(s) == Stated(t) + Pieces(rest);
      assert s == t + [';'] + rest;
      hide *;
      CutIsPieces(rest);
      SplitAt(t, ';', rest);
      NonBlankConcat(Split(t, ';'), Split(rest, ';'));
      TerminatedConcat(NonBlank(Split(t, ';')), NonBlank(Split(rest, ';')));
      OnePiece(t);
    }
  }

  lemma OnePiece(t: string)
    requires ';' !in t
    ensures Terminated(NonBlank(Split(t, ';'))) == Stated(t)
  {
    SplitNone(t, ';');
    NonBlankOne(t);
    hide Split, NonBlank, Trim;
    if Trim(t) != "" { TerminatedOne(Trim(t)); }
  }

  /** The statements of a script: its kept lines joined by spaces, cut at every semicolon. */
  lemma ScriptIsPieces(script: string)
    ensures ScriptStatements(script) == Pieces(Join(KeptLines(script), " "))
  {
    StatementsAreCut(script);
    CutIsPieces(Join(KeptLines(script), " "));
    hide *;
  }

  /** Cutting behind a semicolon. */
  lemma CutBehind(x: string, y: string)
    ensures NonBlank(Split(x + [';'] + ([' '] + y), ';')) == NonBlank(Split(x + [';'], ';')) + NonBlank(Split(y, ';'))
  {
    hide *;
    SplitAt(x, ';', [' '] + y);
    SplitAt(x, ';', "");
    assert x + [';'] + "" == x + [';'];
    SplitNone("", ';');
    NonBlankConcat(Split(x, ';'), Split([' '] + y, ';'));
    NonBlankConcat(Split(x, ';'), [""]);
    NonBlankOne("");
    assert Trim("") == "" by { TrimIsTrimmed(""); }
    SpaceLead(y);
  }

  lemma CutBetween(la: seq<string>, lb: seq<string>)
    requires la != [] && lb != [] && la[|la| - 1] != "" && la[|la| - 1][|la[|la| - 1]| - 1] == ';'
    ensures NonBlank(Split(Join(la + lb, " "), ';'))
      == NonBlank(Split(Join(la, " "), ';')) + NonBlank(Split(Join(lb, " "), ';'))
  {
    hide *;
    JoinConcat(la, lb, " ");
    JoinEnd(la, " ");
    var all, y := Join(la, " "), Join(lb, " ");
    var x := all[..|all| - 1];
    assert all == x + [';'];
    assert all + " " + y == x + [';'] + ([' '] + y);
    CutBehind(x, y);
  }

  predicate EndsInSemicolon(line: string) {
    line != "" && line[|line| - 1] == ';'
  }

  lemma CutJoined(la: seq<string>, lb: seq<string>)
    requires la != [] ==> EndsInSemicolon(la[|la| - 1])
    ensures Terminated(NonBlank(Split(Join(la + lb, " "), ';')))
      == Terminated(NonBlank(Split(Join(la, " "), ';'))) + Terminated(NonBlank(Split(Join(lb, " "), ';')))
  {
    if la == [] {
      hide *;
      assert la + lb == lb;
      NoLinesNoStatements();
    } else if lb == [] {
      hide *;
      assert la + lb == la;
      NoLinesNoStatements();
    } else {
      assert la[|la| - 1] != "" && la[|la| - 1][|la[|la| - 1]| - 1] == ';';
      hide *;
      CutBetween(la, lb);
      TerminatedConcat(NonBlank(Split(Join(la, " "), ';')), NonBlank(Split(Join(lb, " "), ';')));
    }
  }

  /** Of two scripts, one below the other, the statements follow each other if the first does not end inside one. */
  lemma ScriptsJoin(a: string, b: string)
    requires IsClosed(a)
    ensures ScriptStatements(a + ['\n'] + b) == ScriptStatements(a) + ScriptStatements(b)
  {
    StatementsAreCut(a);
    StatementsAreCut(b);
    StatementsAreCut(a + ['\n'] + b);
    LinesOfBoth(a, b);
    assert KeptLines(a) != [] ==> EndsInSemicolon(KeptLines(a)[|KeptLines(a)| - 1]) by { hide KeptLines; }
    hide *;
    CutJoined(KeptLines(a), KeptLines(b));
  }

  lemma NoLinesNoStatements()
    ensures Terminated(NonBlank(Split(Join([], " "), ';'))) == []
  {
    NonBlankOne("");
    hide NonBlank;
  }

  /** Lines without a semicolon are one statement, joined by spaces. */
  lemma LinesAreOneStatement(script: string)
    requires KeptLines(script) != [] && forall i :: 0 <= i < |KeptLines(script)| ==> ';' !in KeptLines(script)[i]
    ensures ScriptStatements(script) == [Join(KeptLines(script), " ") + ";"]
  {
    hide *;
    var lines := KeptLines(script);
    var all := Join(lines, " ");
    StatementsAreCut(script);
    JoinChars(lines, " ", ';');
    assert all != "" && Trimmed(all) by { KeptLinesAre(script); JoinIsTrimmed(lines); }
    OnlyPart(all, ';');
    assert |Terminated([all])| == 1 && Terminated([all])[0] == all + ";" by { TerminatedOne(all); }
  }

  lemma TerminatedOne(s: string)
    ensures Terminated([s]) == [s + ";"]
  {
    assert |Terminated([s])| == 1;
  }

  lemma KeptLinesAre(script: string)
    ensures forall i :: 0 <= i < |KeptLines(script)| ==> KeptLines(script)[i] != "" && Trimmed(KeptLines(script)[i])
  {
    TrimmedKeptAre(Split(UnixLines(script), '\n'));
    hide Split, UnixLines, Trimmed;
  }

  lemma {:induction false} TrimmedKeptAre(lines: seq<string>)
    ensures forall i :: 0 <= i < |TrimmedKept(lines)| ==> TrimmedKept(lines)[i] != "" && Trimmed(TrimmedKept(lines)[i])
  {
    if lines != [] {
      TrimmedKeptAre(lines[..|lines| - 1]);
      TrimIsTrimmed(lines[|lines| - 1]);
      hide Trim, Trimmed;
    }
  }

  lemma {:induction false} JoinIsTrimmed(lines: seq<string>)
    requires lines != [] && forall i :: 0 <= i < |lines| ==> lines[i] != "" && Trimmed(lines[i])
    ensures
      var all := Join(lines, " ");
      all != "" && Trimmed(all) && all[0] == lines[0][0]
  {
    hide IsSpace;
    if |lines| > 1 { JoinIsTrimmed(lines[1..]); }
  }

  /** Two such lines are one statement, with a space between them. */
  lemma TwoLinesOneStatement(t: string, u: string)
    requires '\n' !in t + u && ';' !in t + u && Kept(t) && Kept(u)
    ensures ScriptStatements(t + ['\n'] + u) == [Trim(t) + " " + Trim(u) + ";"]
  {
    forall c | c in t || c in u ensures c in t + u {}
    TrimIsTrimmed(t);
    TrimIsTrimmed(u);
    hide *;
    LinesOfBoth(t, u);
    LinesOfOne(t);
    LinesOfOne(u);
    var lines := [Trim(t)] + [Trim(u)];
    assert KeptLines(t + ['\n'] + u) == lines && lines != [];
    forall i | 0 <= i < |lines| ensures ';' !in lines[i] {}
    LinesAreOneStatement(t + ['\n'] + u);
    JoinConcat([Trim(t)], [Trim(u)], " ");
    JoinOne(Trim(t), " ");
    JoinOne(Trim(u), " ");
  }

  /** Blank lines and comments, wherever they stand between or around lines, change nothing. */
  lemma BlankLinesChangeNothing(a: string, c: string, b: string)
    requires KeptLines(c) == []
    ensures ScriptStatements(a + ['\n'] + (c + ['\n'] + b)) == ScriptStatements(a + ['\n'] + b)
    ensures ScriptStatements(c + ['\n'] + b) == ScriptStatements(b)
    ensures ScriptStatements(a + ['\n'] + c) == ScriptStatements(a)
  {
    hide *;
    LinesOfBoth(a, c + ['\n'] + b);
    LinesOfBoth(c, b);
    LinesOfBoth(a, b);
    LinesOfBoth(a, c);
    assert [] + KeptLines(b) == KeptLines(b) && KeptLines(a) + [] == KeptLines(a);
    StatementsAreCut(a + ['\n'] + (c + ['\n'] + b));
    StatementsAreCut(a + ['\n'] + b);
    StatementsAreCut(c + ['\n'] + b);
    StatementsAreCut(a + ['\n'] + c);
    StatementsAreCut(a);
    StatementsAreCut(b);
  }

  // ---------- the text of a file ----------

  /** A file as it stands in the directory, marker by marker; and read back, if its parts are well formed. */
  lemma WrittenFileIs(description: string, a: string, b: string, up: string, down: string)
    requires description != "" && IsTerminated(up) && IsTerminated(down)
    ensures
      var x := Parsed(description, [a, b], [up], [down]);
      var header := "-- @description: " + description + "\n" + ("-- @depends_on: " + a + ", " + b + "\n");
      var text := header + "-- @up" + "\n" + (up + "\n") + "-- @down" + "\n" + (down + "\n");
      Render(x) == text && (WellFormed(x) && !HasPair(text) ==> Parse(text) == Ok(x))
  {
    var x := Parsed(description, [a, b], [up], [down]);
    HeaderText(description, a, b, [up], [down]);
    LineText(up);
    LineText(down);
    hide *;
    RenderIs(x);
    if WellFormed(x) && !HasPair(Render(x)) { WrittenIsReadBack(x); }
    assert UP == "-- @up" && DOWN == "-- @down" by { MarkersAre(); }
  }

  /** Without a description and dependencies there is no header. */
  lemma BareFileIs(up: string, down: string)
    requires IsTerminated(up) && IsTerminated(down)
    ensures Render(Parsed("", [], [up], [down])) == "-- @up" + "\n" + (up + "\n") + "-- @down" + "\n" + (down + "\n")
  {
    var x := Parsed("", [], [up], [down]);
    assert Header(x) == "" by { hide Join; }
    LineText(up);
    LineText(down);
    hide *;
    RenderIs(x);
    assert UP == "-- @up" && DOWN == "-- @down" by { MarkersAre(); }
    assert "" + UP == UP;
  }

  lemma MarkersAre()
    ensures UP == "-- @up" && DOWN == "-- @down"
  {
  }

  lemma RenderIs(x: Parsed)
    ensures Render(x) == Header(x) + UP + "\n" + Lines(x.up) + DOWN + "\n" + Lines(x.down)
  {
  }

  lemma LineText(s: string)
    requires IsTerminated(s)
    ensures Lines([s]) == s + "\n"
  {
    Semicolon(s);
    assert [s][..0] == [];
  }

  lemma HeaderText(description: string, a: string, b: string, up: seq<string>, down: seq<string>)
    requires description != ""
    ensures Header(Parsed(description, [a, b], up, down))
      == "-- @description: " + description + "\n" + ("-- @depends_on: " + a + ", " + b + "\n")
  {
    assert Join([a, b], ", ") == a + ", " + b by { JoinConcat([a], [b], ", "); assert [a] + [b] == [a, b]; }
    hide Join;
    assert DESCRIPTION + " " == "-- @description: " && DEPENDS_ON + " " == "-- @depends_on: ";
  }

  predicate NoGap(s: string) {
    forall i :: 0 <= i < |s| - 1 ==> !(s[i] == '\n' && s[i + 1] == '\n')
  }

  /** Writing statements, whether or not they end in a newline, puts no blank line between them. */
  lemma {:induction false} NoBlankLines(ss: seq<string>)
    requires forall i :: 0 <= i < |ss| ==> ss[i] != "" && ss[i][0] != '\n' && NoGap(ss[i])
    ensures
      var text := Lines(ss);
      NoGap(text) && (text != "" ==> text[0] != '\n' && text[|text| - 1] == '\n') && (text == "" <==> ss == [])
  {
    if ss != [] {
      var init, s := ss[..|ss| - 1], ss[|ss| - 1];
      NoBlankLines(init);
      GapBetween(Lines(init), WithNewline(s));
    }
  }

  lemma GapBetween(a: string, b: string)
    requires NoGap(a) && NoGap(b) && (b != "" ==> b[0] != '\n')
    ensures NoGap(a + b)
  {
  }
}
