/** What is read from any text, whether or not it was written as a migration file. */
module MigrationParses {
  import opened Text
  import opened MigrationFiles
  import opened MigrationRoundTrip
  import opened MigrationExact
  import opened MigrationSplice
  import opened MigrationScripts

  function TextLines(text: string): seq<string> {
    Split(UnixLines(text), '\n')
  }

  // ---------- markers ----------

  predicate UpAt(lines: seq<string>, i: nat)
    requires i < |lines|
  {
    Trim(lines[i]) == "-- @up"
  }

  predicate DownAt(lines: seq<string>, i: nat)
    requires i < |lines|
  {
    Trim(lines[i]) == "-- @down"
  }

  /** Line `k` is a marker that stands on an earlier line already. */
  predicate Repeats(lines: seq<string>, k: nat)
    requires k < |lines|
  {
    exists i :: 0 <= i < k && ((UpAt(lines, i) && UpAt(lines, k)) || (DownAt(lines, i) && DownAt(lines, k)))
  }

  predicate NoRepeat(lines: seq<string>, n: nat)
    requires n <= |lines|
  {
    forall k :: 0 <= k < n ==> !Repeats(lines, k)
  }

  /** What `Markers` has found in the first `n` lines. */
  predicate Scanned(lines: seq<string>, n: nat, r: Scan)
    requires n <= |lines|
  {
    match r
    case Found(up, down) =>
      && NoRepeat(lines, n) && -1 <= up < n && -1 <= down < n
      && (forall i :: 0 <= i < n ==> (UpAt(lines, i) <==> i == up))
      && (forall i :: 0 <= i < n ==> (DownAt(lines, i) <==> i == down))
    case Stopped(error) => exists k ::
      0 <= k < n && NoRepeat(lines, k) && Repeats(lines, k)
      && error == if UpAt(lines, k) then DuplicateUp else DuplicateDown
  }

  lemma {:induction false} MarkersFound(lines: seq<string>, n: nat)
    requires n <= |lines|
    ensures Scanned(lines, n, Markers(lines, n))
  {
    hide Trim;
    if n > 0 {
      MarkersFound(lines, n - 1);
      ScanOne(lines, n, Markers(lines, n - 1), Markers(lines, n));
    }
  }

  lemma ScanOne(lines: seq<string>, n: nat, p: Scan, r: Scan)
    requires 0 < n <= |lines| && Scanned(lines, n - 1, p)
    requires r == if p.Stopped? then p
      else if IsUp(lines[n - 1]) then (if p.up != -1 then Stopped(DuplicateUp) else p.(up := n - 1))
      else if IsDown(lines[n - 1]) then (if p.down != -1 then Stopped(DuplicateDown) else p.(down := n - 1))
      else p
    ensures Scanned(lines, n, r)
  {
    hide Trim;
    if p.Found? {
      if UpAt(lines, n - 1) && p.up != -1 { assert UpAt(lines, p.up) && Repeats(lines, n - 1); }
      if DownAt(lines, n - 1) && p.down != -1 { assert DownAt(lines, p.down) && Repeats(lines, n - 1); }
    }
  }

  /** The first line that repeats a marker decides the error. */
  lemma RepeatedMarkerIsRefused(text: string, k: nat)
    requires k < |TextLines(text)| && NoRepeat(TextLines(text), k) && Repeats(TextLines(text), k)
    ensures Parse(text) == Err(if UpAt(TextLines(text), k) then DuplicateUp else DuplicateDown)
  {
    var lines := TextLines(text);
    MarkersFound(lines, |lines|);
    hide Trim, Markers, ReadHeader, Statements, UpAt, DownAt, TextLines;
    assert !NoRepeat(lines, |lines|);
    var r := Markers(lines, |lines|);
    assert r.Stopped?;
    var j :| 0 <= j < |lines| && NoRepeat(lines, j) && Repeats(lines, j)
      && r.error == if UpAt(lines, j) then DuplicateUp else DuplicateDown;
    ParseIs(text);
  }

  lemma ParseIs(text: string)
    ensures Parse(text) == ParseLines(TextLines(text))
  {
  }

  predicate HasUp(lines: seq<string>) {
    exists i :: 0 <= i < |lines| && UpAt(lines, i)
  }

  predicate HasDown(lines: seq<string>) {
    exists i :: 0 <= i < |lines| && DownAt(lines, i)
  }

  /** An up marker on line `i` and a down marker on line `j`. */
  predicate MarkedAt(lines: seq<string>, i: nat, j: nat) {
    i < |lines| && j < |lines| && UpAt(lines, i) && DownAt(lines, j)
  }

  /** What is read from lines with the up marker on line `i` and the down marker on line `j` below. */
  function ReadAt(lines: seq<string>, i: nat, j: nat): Parsed
    requires i < j < |lines|
  {
    var (description, dependsOn) := ReadHeader(lines[..i]);
    Parsed(description, dependsOn, Statements(lines[i + 1..j]), Statements(lines[j + 1..]))
  }

  /**
   The lines can be read exactly if they have both markers, the up marker first. Otherwise the error says what is
   missing, the up marker before the down marker.
   */
  ghost predicate EndsIn(lines: seq<string>, r: Result) {
    && (r == Err(MissingUp) <==> !HasUp(lines))
    && (r == Err(MissingDown) <==> HasUp(lines) && !HasDown(lines))
    && (r == Err(DownBeforeUp) <==> exists i, j :: MarkedAt(lines, i, j) && j < i)
    && (r.Ok? <==> exists i, j :: MarkedAt(lines, i, j) && i < j)
    && forall i, j :: MarkedAt(lines, i, j) && i < j ==> r == Ok(ReadAt(lines, i, j))
  }

  /** Where no marker is repeated, this is what becomes of a text. */
  lemma ParseEndsIn(text: string)
    requires NoRepeat(TextLines(text), |TextLines(text)|)
    ensures EndsIn(TextLines(text), Parse(text))
  {
    var lines := TextLines(text);
    MarkersFound(lines, |lines|);
    ParseIs(text);
    hide Trim, Markers, ReadAt, TextLines, UpAt, DownAt, Repeats, ParseLines, EndsIn;
    var m := Markers(lines, |lines|);
    assert m.Found?;
    ParseOf(lines, m.up, m.down);
    Ending(lines, m.up, m.down, ParseLines(lines));
  }

  lemma Ending(lines: seq<string>, up: int, down: int, r: Result)
    requires -1 <= up < |lines| && -1 <= down < |lines|
    requires forall i :: 0 <= i < |lines| ==> (UpAt(lines, i) <==> i == up)
    requires forall i :: 0 <= i < |lines| ==> (DownAt(lines, i) <==> i == down)
    requires r == if up == -1 then Err(MissingUp) else if down == -1 then Err(MissingDown)
      else if down <= up then Err(DownBeforeUp) else Ok(ReadAt(lines, up, down))
    ensures EndsIn(lines, r)
  {
    hide ReadAt, UpAt, DownAt;
    if up != -1 { assert UpAt(lines, up); }
    if down != -1 { assert DownAt(lines, down); }
    if up != -1 && down != -1 {
      BothMarked(lines, up, down);
      if up == down { NotBothMarkers(lines, up); }
      assert MarkedAt(lines, up, down);
    }
  }

  lemma NotBothMarkers(lines: seq<string>, i: nat)
    requires i < |lines|
    ensures !(UpAt(lines, i) && DownAt(lines, i))
  {
    assert "-- @up"[4] == 'u' && "-- @down"[4] == 'd';
  }

  lemma BothMarked(lines: seq<string>, up: nat, down: nat)
    requires up < |lines| && down < |lines|
    requires forall i :: 0 <= i < |lines| ==> (UpAt(lines, i) <==> i == up)
    requires forall i :: 0 <= i < |lines| ==> (DownAt(lines, i) <==> i == down)
    ensures forall i, j :: MarkedAt(lines, i, j) <==> i == up && j == down
  {
    hide UpAt, DownAt;
  }

  /** What becomes of the lines once the markers are found. */
  lemma ParseOf(lines: seq<string>, up: int, down: int)
    requires Markers(lines, |lines|) == Found(up, down) && -1 <= up < |lines| && -1 <= down < |lines|
    ensures ParseLines(lines) == if up == -1 then Err(MissingUp) else if down == -1 then Err(MissingDown)
      else if down <= up then Err(DownBeforeUp) else Ok(ReadAt(lines, up, down))
  {
    hide ReadHeader, Statements, Markers;
  }

  // ---------- header ----------

  predicate Describes(line: string) {
    "-- @description:" <= Trim(line)
  }

  predicate Depends(line: string) {
    "-- @depends_on:" <= Trim(line)
  }

  lemma HeaderStep(init: seq<string>, last: string)
    ensures
      var (description, dependsOn) := ReadHeader(init);
      ReadHeader(init + [last]) == (
        if Describes(last) then Trim(Trim(last)[16..]) else description,
        if Depends(last) && !Describes(last) then SplitCsv(Trim(last)[15..]) else dependsOn)
  {
    assert (init + [last])[..|init|] == init;
    assert |DESCRIPTION| == 16 && |DEPENDS_ON| == 15;
    hide Trim, SplitCsv;
  }

  /** Of several descriptions the last counts; other lines do not. */
  lemma {:induction false} LastDescriptionCounts(lines: seq<string>, i: int)
    requires -1 <= i < |lines| && (i >= 0 ==> Describes(lines[i]))
      && forall j :: i < j < |lines| ==> !Describes(lines[j])
    ensures ReadHeader(lines).0 == if i < 0 then "" else Trim(Trim(lines[i])[16..])
  {
    if lines != [] {
      var init, last := lines[..|lines| - 1], lines[|lines| - 1];
      assert lines == init + [last];
      HeaderStep(init, last);
      hide Trim, Describes, ReadHeader;
      if i < |lines| - 1 { LastDescriptionCounts(init, i); }
    }
  }

  /** Of several lists of dependencies the last counts. */
  lemma {:induction false} LastListCounts(lines: seq<string>, i: int)
    requires -1 <= i < |lines| && (i >= 0 ==> Depends(lines[i])) && forall j :: i < j < |lines| ==> !Depends(lines[j])
    ensures ReadHeader(lines).1 == if i < 0 then [] else SplitCsv(Trim(lines[i])[15..])
  {
    if lines != [] {
      var init, last := lines[..|lines| - 1], lines[|lines| - 1];
      assert lines == init + [last];
      HeaderStep(init, last);
      NotBoth(Trim(last));
      hide Trim, SplitCsv, ReadHeader;
      if i < |lines| - 1 { LastListCounts(init, i); }
    }
  }

  lemma NotBoth(s: string)
    ensures !("-- @description:" <= s && "-- @depends_on:" <= s)
  {
    assert "-- @description:"[6] == 's' && "-- @depends_on:"[6] == 'p';
  }

  lemma NonBlankTrail(s: string, c: char, sep: char)
    requires IsSpace(c) && c != sep
    ensures NonBlank(Split(s + [c], sep)) == NonBlank(Split(s, sep))
  {
    var r := Split(s, sep);
    var init, last := r[..|r| - 1], r[|r| - 1];
    LastGrows(s, [c], sep);
    TrimRightSpace(last, c);
    hide Trim, Split, NonBlank, IsSpace;
    assert r == init + [last] && Split(s + [c], sep) == init + [last + [c]];
    NonBlankConcat(init, [last]);
    NonBlankConcat(init, [last + [c]]);
    NonBlankOne(last);
    NonBlankOne(last + [c]);
  }

  /** White space around a list makes no difference to its parts. */
  lemma {:induction false} TrimmedListIsSame(s: string, sep: char)
    requires !IsSpace(sep)
    ensures NonBlank(Split(Trim(s), sep)) == NonBlank(Split(s, sep))
    decreases |s|
  {
    TrimIsTrimmed(s);
    hide IsSpace, NonBlank, Split;
    if s != "" && IsSpace(s[0]) {
      TrimLeftSpace(s[0], s[1..]);
      NonBlankLead(s[0], s[1..], sep);
      assert s == [s[0]] + s[1..];
      hide Trim;
      TrimmedListIsSame(s[1..], sep);
    } else if s != "" && IsSpace(s[|s| - 1]) {
      var init, c := s[..|s| - 1], s[|s| - 1];
      assert s == init + [c];
      hide Trim;
      TrimRightSpace(init, c);
      NonBlankTrail(init, c, sep);
      TrimmedListIsSame(init, sep);
    }
  }

  lemma ListIs(s: string)
    ensures SplitCsv(s) == NonBlank(Split(s, ','))
  {
    TrimmedListIsSame(s, ',');
    NonBlankOne("");
    assert Trim("") == "";
    hide Trim, NonBlank;
  }

  /** A list of dependencies is cut at its commas; a single one is trimmed, and dropped if that leaves nothing. */
  lemma ListsJoin(a: string, b: string)
    ensures SplitCsv(a + [','] + b) == SplitCsv(a) + SplitCsv(b)
    ensures ',' !in a ==> SplitCsv(a) == if Trim(a) == "" then [] else [Trim(a)]
  {
    hide *;
    ListIs(a);
    ListIs(b);
    ListIs(a + [','] + b);
    SplitAt(a, ',', b);
    NonBlankConcat(Split(a, ','), Split(b, ','));
    if ',' !in a {
      SplitNone(a, ',');
      NonBlankOne(a);
    }
  }

  // ---------- sections ----------

  lemma CleanedLast(lines: seq<string>)
    ensures lines == [] ==> Cleaned(lines) == []
    ensures lines != [] ==>
      Cleaned(lines) == Cleaned(lines[..|lines| - 1])
        + if Kept(lines[|lines| - 1]) then [lines[|lines| - 1]] else []
  {
    hide Kept;
  }

  lemma {:induction false} CleanedConcat(a: seq<string>, b: seq<string>)
    ensures Cleaned(a + b) == Cleaned(a) + Cleaned(b)
  {
    hide *;
    CleanedLast(b);
    if b == [] {
      assert a + b == a;
    } else {
      CleanedLast(a + b);
      assert (a + b)[..|a + b| - 1] == a + b[..|b| - 1];
      CleanedConcat(a, b[..|b| - 1]);
    }
  }

  lemma SectionIsCut(lines: seq<string>)
    ensures Statements(lines) == Terminated(NonBlank(Split(Join(Cleaned(lines), "\n"), ';')))
  {
    if Cleaned(lines) == [] {
      assert Split("", ';') == [""] && NonBlank([""]) == [] by { NonBlankOne(""); }
      assert Terminated([]) == [];
    }
    hide Cleaned, NonBlank, Split, Terminated;
  }

  /** The statements of a section: its kept lines as they are, cut at every semicolon. */
  lemma SectionIsPieces(lines: seq<string>)
    ensures Statements(lines) == Pieces(Join(Cleaned(lines), "\n"))
  {
    SectionIsCut(lines);
    CutIsPieces(Join(Cleaned(lines), "\n"));
    hide *;
  }

  predicate AllSpace(s: string) {
    forall c :: c in s ==> IsSpace(c)
  }

  /** There is nothing but white space behind the semicolon at `i`. */
  predicate EndsAt(line: string, i: nat) {
    i < |line| && line[i] == ';' && AllSpace(line[i + 1..])
  }

  ghost predicate EndsClosed(line: string) {
    exists i :: EndsAt(line, i)
  }

  /** The last line that is kept, if there is one, ends in a semicolon and white space. */
  ghost predicate EndsStatement(lines: seq<string>) {
    var kept := Cleaned(lines);
    kept != [] ==> EndsClosed(kept[|kept| - 1])
  }

  lemma {:induction false} SpacesLead(w: string, s: string)
    requires AllSpace(w)
    ensures NonBlank(Split(w + s, ';')) == NonBlank(Split(s, ';'))
  {
    if w == "" {
      assert w + s == s;
    } else {
      assert w[0] in w && w + s == [w[0]] + (w[1..] + s);
      SpacesLead(w[1..], s);
      NonBlankLead(w[0], w[1..] + s, ';');
    }
  }

  lemma CutAt(x: string, s: string)
    ensures NonBlank(Split(x + [';'] + s, ';')) == NonBlank(Split(x, ';')) + NonBlank(Split(s, ';'))
  {
    hide *;
    SplitAt(x, ';', s);
    NonBlankConcat(Split(x, ';'), Split(s, ';'));
  }

  lemma SpacesAreNothing(w: string)
    requires AllSpace(w)
    ensures NonBlank(Split(w, ';')) == []
  {
    hide *;
    SpacesLead(w, "");
    assert w + "" == w;
    SplitNone("", ';');
    NonBlankOne("");
    assert Trim("") == "" by { TrimIsTrimmed(""); }
  }

  lemma NewlineIsSpace(w: string)
    requires AllSpace(w)
    ensures AllSpace(w + "\n")
  {
    assert IsSpace('\n');
    hide IsSpace;
  }

  /** Cutting behind a semicolon and white space. */
  lemma CutBehindSpace(x: string, w: string, y: string)
    requires AllSpace(w)
    ensures NonBlank(Split(x + [';'] + ((w + "\n") + y), ';'))
      == NonBlank(Split(x + [';'] + w, ';')) + NonBlank(Split(y, ';'))
  {
    hide *;
    NewlineIsSpace(w);
    var lead := w + "\n";
    CutAt(x, lead + y);
    CutAt(x, w);
    SpacesLead(lead, y);
    SpacesAreNothing(w);
    var px, py := NonBlank(Split(x, ';')), NonBlank(Split(y, ';'));
    assert NonBlank(Split(x + [';'] + (lead + y), ';')) == px + py;
    assert NonBlank(Split(x + [';'] + w, ';')) == px + [];
  }

  lemma {:induction false} JoinTail(parts: seq<string>, sep: string, i: nat)
    requires parts != [] && i <= |parts[|parts| - 1]|
    ensures
      var all, last := Join(parts, sep), parts[|parts| - 1];
      |all| >= |last| && all[|all| - |last| + i..] == last[i..]
      && (i < |last| ==> all[|all| - |last| + i] == last[i])
  {
    if |parts| > 1 { JoinTail(parts[1..], sep, i); }
  }

  lemma CutSections(la: seq<string>, lb: seq<string>, i: nat)
    requires la != [] && lb != [] && EndsAt(la[|la| - 1], i)
    ensures NonBlank(Split(Join(la + lb, "\n"), ';'))
      == NonBlank(Split(Join(la, "\n"), ';')) + NonBlank(Split(Join(lb, "\n"), ';'))
  {
    var last := la[|la| - 1];
    assert last[i] == ';' && AllSpace(last[i + 1..]);
    hide *;
    JoinConcat(la, lb, "\n");
    JoinTail(la, "\n", i);
    JoinTail(la, "\n", i + 1);
    var all, y := Join(la, "\n"), Join(lb, "\n");
    var k := |all| - |last| + i;
    var x, w := all[..k], all[k + 1..];
    assert all == x + [';'] + w;
    assert all + "\n" + y == x + [';'] + ((w + "\n") + y);
    CutBehindSpace(x, w, y);
  }

  lemma StretchesJoin(la: seq<string>, lb: seq<string>)
    requires la != [] ==> EndsClosed(la[|la| - 1])
    ensures Terminated(NonBlank(Split(Join(la + lb, "\n"), ';')))
      == Terminated(NonBlank(Split(Join(la, "\n"), ';'))) + Terminated(NonBlank(Split(Join(lb, "\n"), ';')))
  {
    if la == [] {
      hide *;
      assert la + lb == lb;
      EmptySection();
    } else if lb == [] {
      hide *;
      assert la + lb == la;
      EmptySection();
    } else {
      var i :| EndsAt(la[|la| - 1], i);
      hide *;
      CutSections(la, lb, i);
      TerminatedConcat(NonBlank(Split(Join(la, "\n"), ';')), NonBlank(Split(Join(lb, "\n"), ';')));
    }
  }

  /** Of two stretches of a section the statements follow each other if the first does not end inside one. */
  lemma SectionsJoin(a: seq<string>, b: seq<string>)
    requires EndsStatement(a)
    ensures Statements(a + b) == Statements(a) + Statements(b)
  {
    SectionIsCut(a);
    SectionIsCut(b);
    SectionIsCut(a + b);
    assert Cleaned(a) != [] ==> EndsClosed(Cleaned(a)[|Cleaned(a)| - 1]);
    hide *;
    CleanedConcat(a, b);
    StretchesJoin(Cleaned(a), Cleaned(b));
  }

  lemma EmptySection()
    ensures Terminated(NonBlank(Split(Join([], "\n"), ';'))) == []
  {
    NonBlankOne("");
    hide NonBlank;
  }

  /** Kept lines without a semicolon are one statement, newlines and all. */
  lemma SectionIsOneStatement(lines: seq<string>)
    requires forall i :: 0 <= i < |Cleaned(lines)| ==> ';' !in Cleaned(lines)[i]
    ensures
      var all := Join(Cleaned(lines), "\n");
      Statements(lines) == if Trim(all) == "" then [] else [Trim(all) + ";"]
  {
    hide *;
    var all := Join(Cleaned(lines), "\n");
    SectionIsCut(lines);
    JoinChars(Cleaned(lines), "\n", ';');
    SplitNone(all, ';');
    NonBlankOne(all);
    if Trim(all) == "" {
      assert Terminated([]) == [] by { NoneTerminated(); }
    } else {
      TerminatedOne(Trim(all));
    }
  }

  lemma NoneTerminated()
    ensures Terminated([]) == []
  {
  }

  /** Blank lines and comments change nothing, wherever they stand. */
  lemma CommentsChangeNothing(a: seq<string>, c: seq<string>, b: seq<string>)
    requires forall i :: 0 <= i < |c| ==> !Kept(c[i])
    ensures Statements(a + c + b) == Statements(a + b)
  {
    NoneKept(c);
    hide *;
    CleanedConcat(a + c, b);
    CleanedConcat(a, c);
    CleanedConcat(a, b);
    assert Cleaned(a) + [] == Cleaned(a);
    SectionIsCut(a + c + b);
    SectionIsCut(a + b);
  }

  lemma {:induction false} NoneKept(c: seq<string>)
    requires forall i :: 0 <= i < |c| ==> !Kept(c[i])
    ensures Cleaned(c) == []
  {
    hide Kept;
    if c != [] { NoneKept(c[..|c| - 1]); }
  }
}
