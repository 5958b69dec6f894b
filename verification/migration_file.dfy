/** Migration files: a header, an up section and a down section; how they are written and read back. */
module MigrationFiles {
  import opened Text

  const UP := "-- @up"
  const DOWN := "-- @down"
  const DESCRIPTION := "-- @description:"
  const DEPENDS_ON := "-- @depends_on:"

  datatype Parsed = Parsed(description: string, dependsOn: seq<string>, up: seq<string>, down: seq<string>)

  datatype LoadError = DuplicateUp | DuplicateDown | MissingUp | MissingDown | DownBeforeUp

  datatype Result = Ok(parsed: Parsed) | Err(error: LoadError)

  // ---------- writing ----------

  /** One line for each, without doubling a newline that is there already. */
  function WithNewline(s: string): string {
    if s != "" && s[|s| - 1] == '\n' then s else s + "\n"
  }

  function Lines(ss: seq<string>): string {
    if ss == [] then "" else Lines(ss[..|ss| - 1]) + WithNewline(ss[|ss| - 1])
  }

  function HeaderLines(x: Parsed): seq<string> {
    (if x.description == "" then [] else [DESCRIPTION + " " + x.description]) +
    (if x.dependsOn == [] then [] else [DEPENDS_ON + " " + Join(x.dependsOn, ", ")])
  }

  function Header(x: Parsed): string {
    (if x.description == "" then "" else DESCRIPTION + " " + x.description + "\n") +
    (if x.dependsOn == [] then "" else DEPENDS_ON + " " + Join(x.dependsOn, ", ") + "\n")
  }

  function Render(x: Parsed): string {
    Header(x) + UP + "\n" + Lines(x.up) + DOWN + "\n" + Lines(x.down)
  }

  // ---------- reading ----------

  /** Neither blank nor a comment. */
  predicate Kept(line: string) {
    Trim(line) != "" && !("--" <= Trim(line))
  }

  function Cleaned(lines: seq<string>): seq<string> {
    if lines == [] then []
    else
      Cleaned(lines[..|lines| - 1])
      + if Kept(lines[|lines| - 1]) then [lines[|lines| - 1]] else []
  }

  function NonBlank(parts: seq<string>): seq<string> {
    if parts == [] then []
    else NonBlank(parts[..|parts| - 1]) + if Trim(parts[|parts| - 1]) == "" then [] else [Trim(parts[|parts| - 1])]
  }

  function Terminated(ss: seq<string>): (r: seq<string>)
    ensures |r| == |ss| && forall i :: 0 <= i < |ss| ==> r[i] == ss[i] + ";"
  {
    if ss == [] then [] else Terminated(ss[..|ss| - 1]) + [ss[|ss| - 1] + ";"]
  }

  function Statements(lines: seq<string>): seq<string> {
    if Cleaned(lines) == [] then [] else Terminated(NonBlank(Split(Join(Cleaned(lines), "\n"), ';')))
  }

  function SplitCsv(s: string): seq<string> {
    if Trim(s) == "" then [] else NonBlank(Split(Trim(s), ','))
  }

  datatype Scan = Found(up: int, down: int) | Stopped(error: LoadError)

  predicate IsUp(line: string) { Trim(line) == UP }

  predicate IsDown(line: string) { Trim(line) == DOWN }

  /** Where the markers are in the first `n` lines, -1 for not yet. */
  function Markers(lines: seq<string>, n: nat): (r: Scan)
    requires n <= |lines|
    ensures r.Found? ==> -1 <= r.up < n && -1 <= r.down < n && (r.up == r.down ==> r.up == -1)
  {
    if n == 0 then Found(-1, -1)
    else
      var r := Markers(lines, n - 1);
      if r.Stopped? then r
      else if IsUp(lines[n - 1]) then (if r.up != -1 then Stopped(DuplicateUp) else r.(up := n - 1))
      else if IsDown(lines[n - 1]) then (if r.down != -1 then Stopped(DuplicateDown) else r.(down := n - 1))
      else r
  }

  /** The last header line of each kind counts; other lines are ignored. */
  function ReadHeader(lines: seq<string>): (string, seq<string>) {
    if lines == [] then ("", [])
    else
      var (description, dependsOn) := ReadHeader(lines[..|lines| - 1]);
      var line := Trim(lines[|lines| - 1]);
      if DESCRIPTION <= line then (Trim(line[|DESCRIPTION|..]), dependsOn)
      else if DEPENDS_ON <= line then (description, SplitCsv(line[|DEPENDS_ON|..]))
      else (description, dependsOn)
  }

  function ParseLines(lines: seq<string>): Result {
    var r := Markers(lines, |lines|);
    if r.Stopped? then Err(r.error)
    else if r.up == -1 then Err(MissingUp)
    else if r.down == -1 then Err(MissingDown)
    else if r.down < r.up then Err(DownBeforeUp)
    else
      assert r.up != r.down;
      var (description, dependsOn) := ReadHeader(lines[..r.up]);
      Ok(Parsed(description, dependsOn, Statements(lines[r.up + 1..r.down]), Statements(lines[r.down + 1..])))
  }

  function Parse(body: string): Result {
    ParseLines(Split(UnixLines(body), '\n'))
  }

  // ---------- the loops ----------

  method WriteLines(written: string, ss: seq<string>) returns (b: string)
    ensures b == written + Lines(ss)
  {
    b := written;
    for i := 0 to |ss|
      invariant b == written + Lines(ss[..i])
    {
      assert ss[..i + 1][..i] == ss[..i];
      b := b + ss[i];
      if ss[i] == "" || ss[i][|ss[i]| - 1] != '\n' { b := b + "\n"; }
    }
    assert ss[..|ss|] == ss;
  }

  method WriteHeader(description: string, dependsOn: seq<string>) returns (b: string)
    ensures forall up, down :: b == Header(Parsed(description, dependsOn, up, down))
  {
    hide Join;
    b := "";
    if description != "" { b := b + DESCRIPTION + " " + description + "\n"; }
    if |dependsOn| > 0 { b := b + DEPENDS_ON + " " + Join(dependsOn, ", ") + "\n"; }
  }

  method RenderMigrationContent(description: string, dependsOn: seq<string>, up: seq<string>, down: seq<string>)
      returns (b: string)
    ensures b == Render(Parsed(description, dependsOn, up, down))
  {
    hide Header, Lines;
    b := WriteHeader(description, dependsOn);
    b := b + UP + "\n";
    b := WriteLines(b, up);
    b := b + DOWN + "\n";
    b := WriteLines(b, down);
  }

  method SplitStatements(lines: seq<string>) returns (out: seq<string>)
    ensures out == Statements(lines)
  {
    hide Split, Join, Trim;
    var cleaned := [];
    for i := 0 to |lines|
      invariant cleaned == Cleaned(lines[..i])
    {
      assert lines[..i + 1][..i] == lines[..i];
      var trim := Trim(lines[i]);
      if trim == "" { continue; }
      if "--" <= trim { continue; }
      cleaned := cleaned + [lines[i]];
    }
    assert lines[..|lines|] == lines;
    if |cleaned| == 0 { return []; }
    var parts := Split(Join(cleaned, "\n"), ';');
    out := [];
    for i := 0 to |parts|
      invariant out == Terminated(NonBlank(parts[..i]))
    {
      assert parts[..i + 1][..i] == parts[..i];
      var stmt := Trim(parts[i]);
      if stmt == "" { continue; }
      out := out + [stmt + ";"];
      assert Terminated(NonBlank(parts[..i]) + [stmt]) == out;
    }
    assert parts[..|parts|] == parts;
  }

  method SplitCommas(s: string) returns (out: seq<string>)
    ensures out == SplitCsv(s)
  {
    hide Split, Trim;
    out := [];
    var t := Trim(s);
    if t == "" { return; }
    var parts := Split(t, ',');
    for i := 0 to |parts|
      invariant out == NonBlank(parts[..i])
    {
      assert parts[..i + 1][..i] == parts[..i];
      var v := Trim(parts[i]);
      if v == "" { continue; }
      out := out + [v];
    }
    assert parts[..|parts|] == parts;
  }

  method ParseMigrationContent(body: string) returns (r: Result)
    ensures r == Parse(body)
  {
    hide Split, UnixLines, Trim, Statements, SplitCsv;
    var lines := Split(UnixLines(body), '\n');
    var upIdx, downIdx := -1, -1;
    for i := 0 to |lines|
      invariant Markers(lines, i) == Found(upIdx, downIdx)
    {
      var trim := Trim(lines[i]);
      if trim == UP {
        if upIdx != -1 { StoppedStays(lines, i + 1); return Err(DuplicateUp); }
        upIdx := i;
      } else if trim == DOWN {
        if downIdx != -1 { StoppedStays(lines, i + 1); return Err(DuplicateDown); }
        downIdx := i;
      }
    }
    if upIdx == -1 { return Err(MissingUp); }
    if downIdx == -1 { return Err(MissingDown); }
    if downIdx < upIdx { return Err(DownBeforeUp); }
    var description, dependsOn := "", [];
    for i := 0 to upIdx
      invariant (description, dependsOn) == ReadHeader(lines[..i])
    {
      assert lines[..i + 1][..i] == lines[..i];
      var trim := Trim(lines[i]);
      if DESCRIPTION <= trim {
        description := Trim(trim[|DESCRIPTION|..]);
      } else if DEPENDS_ON <= trim {
        dependsOn := SplitCommas(trim[|DEPENDS_ON|..]);
      }
    }
    var up := SplitStatements(lines[upIdx + 1..downIdx]);
    var down := SplitStatements(lines[downIdx + 1..]);
    return Ok(Parsed(description, dependsOn, up, down));
  }

  lemma {:induction false} StoppedStays(lines: seq<string>, n: nat)
    requires n <= |lines| && Markers(lines, n).Stopped?
    ensures Markers(lines, |lines|) == Markers(lines, n)
    decreases |lines| - n
  {
    hide IsUp, IsDown;
    if n < |lines| { StoppedStays(lines, n + 1); }
  }
}
