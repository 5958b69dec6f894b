/** The string functions that the file formats are made with. */
module Text {

  /** White space as Go's `unicode.IsSpace` has it. */
  predicate IsSpace(c: char) {
    || '\t' <= c <= '\r' || c == ' ' || c == '\U{85}' || c == '\U{A0}' || c == '\U{1680}'
    || '\U{2000}' <= c <= '\U{200a}' || c == '\U{2028}' || c == '\U{2029}' || c == '\U{202f}' || c == '\U{205f}'
      || c == '\U{3000}'
  }

  function TrimLeft(s: string): string {
    if s != "" && IsSpace(s[0]) then TrimLeft(s[1..]) else s
  }

  function TrimRight(s: string): string {
    if s != "" && IsSpace(s[|s| - 1]) then TrimRight(s[..|s| - 1]) else s
  }

  function Trim(s: string): string {
    TrimRight(TrimLeft(s))
  }

  predicate Trimmed(s: string) {
    s != "" ==> !IsSpace(s[0]) && !IsSpace(s[|s| - 1])
  }

  lemma {:induction false} TrimLeftIs(s: string)
    ensures
      var r := TrimLeft(s);
      |r| <= |s| && r == s[|s| - |r|..] && (r != "" ==> !IsSpace(r[0]))
  {
    hide IsSpace;
    if s != "" && IsSpace(s[0]) { TrimLeftIs(s[1..]); }
  }

  lemma {:induction false} TrimRightIs(s: string)
    ensures
      var r := TrimRight(s);
      r <= s && (r != "" ==> !IsSpace(r[|r| - 1]))
  {
    hide IsSpace;
    if s != "" && IsSpace(s[|s| - 1]) { TrimRightIs(s[..|s| - 1]); }
  }

  lemma TrimIsTrimmed(s: string)
    ensures Trimmed(Trim(s)) && |Trim(s)| <= |s| && (forall c :: c in Trim(s) ==> c in s)
    ensures s != "" && IsSpace(s[0]) ==> |Trim(s)| < |s|
    ensures Trimmed(s) ==> Trim(s) == s
  {
    hide IsSpace;
    var l := TrimLeft(s);
    TrimLeftIs(s);
    TrimRightIs(l);
    if s != "" { TrimLeftIs(s[1..]); }
    assert s != "" && IsSpace(s[0]) ==> |l| < |s|;
    assert Trimmed(s) ==> l == s && TrimRight(s) == s;
    hide TrimLeft, TrimRight;
    assert forall c :: c in TrimRight(l) ==> c in l;
    assert forall c :: c in l ==> c in s;
    assert Trim(s) != "" ==> Trim(s)[0] == l[0];
  }

  lemma TrimLeftSpace(c: char, s: string)
    requires IsSpace(c)
    ensures Trim([c] + s) == Trim(s)
  {
    assert ([c] + s)[1..] == s;
  }

  lemma {:induction false} TrimRightKeeps(s: string, i: nat)
    requires i < |s| && !IsSpace(s[i])
    ensures |TrimRight(s)| > i
  {
    if IsSpace(s[|s| - 1]) { TrimRightKeeps(s[..|s| - 1], i); }
  }

  lemma {:induction false} TrimKeepsEnd(s: string)
    requires s != "" && !IsSpace(s[|s| - 1])
    ensures Trim(s) != ""
  {
    if IsSpace(s[0]) {
      TrimKeepsEnd(s[1..]);
    }
  }

  /** A prefix without spaces at its ends is not trimmed away. */
  lemma TrimPrefix(p: string, s: string)
    requires p != "" && Trimmed(p)
    ensures p <= Trim(p + s) && (s != "" && !IsSpace(s[|s| - 1]) ==> Trim(p + s) == p + s)
  {
    assert TrimLeft(p + s) == p + s by { assert (p + s)[0] == p[0]; }
    hide TrimLeft;
    TrimRightIs(p + s);
    TrimRightKeeps(p + s, |p| - 1);
    assert s != "" ==> (p + s)[|p + s| - 1] == s[|s| - 1];
  }

  // ---------- splitting and joining ----------

  function Split(s: string, c: char): (r: seq<string>)
    ensures |r| > 0
  {
    if s == "" then [""]
    else if s[0] == c then [""] + Split(s[1..], c)
    else var r := Split(s[1..], c); [[s[0]] + r[0]] + r[1..]
  }

  function Join(parts: seq<string>, sep: string): string {
    if parts == [] then "" else if |parts| == 1 then parts[0] else parts[0] + sep + Join(parts[1..], sep)
  }

  lemma {:induction false} SplitNone(s: string, c: char)
    requires c !in s
    ensures Split(s, c) == [s]
  {
    if s != "" {
      assert s == [s[0]] + s[1..];
      SplitNone(s[1..], c);
    }
  }

  lemma SplitFirst(s: string, c: char)
    ensures Split(s, c) ==
      if s == "" then [""]
      else if s[0] == c then [""] + Split(s[1..], c)
      else [[s[0]] + Split(s[1..], c)[0]] + Split(s[1..], c)[1..]
  {
  }

  lemma {:induction false} SplitAt(a: string, c: char, b: string)
    ensures Split(a + [c] + b, c) == Split(a, c) + Split(b, c)
  {
    var s := a + [c] + b;
    SplitFirst(s, c);
    SplitFirst(a, c);
    hide Split;
    if a == "" {
      assert s[1..] == b;
    } else {
      assert s[1..] == a[1..] + [c] + b;
      SplitAt(a[1..], c, b);
      var x, y := Split(a[1..], c), Split(b, c);
      assert (x + y)[1..] == x[1..] + y;
    }
  }

  lemma {:induction false} SplitPieces(s: string, c: char)
    ensures forall p :: p in Split(s, c) ==> c !in p && forall x :: x in p ==> x in s
  {
    if s != "" {
      assert s == [s[0]] + s[1..];
      SplitPieces(s[1..], c);
      assert Split(s[1..], c)[0] in Split(s[1..], c);
    }
  }

  lemma {:induction false} JoinSplit(s: string, c: char)
    ensures Join(Split(s, c), [c]) == s
  {
    if s != "" { JoinSplit(s[1..], c); }
  }

  lemma {:induction false} JoinConcat(a: seq<string>, b: seq<string>, sep: string)
    requires a != [] && b != []
    ensures Join(a + b, sep) == Join(a, sep) + sep + Join(b, sep)
  {
    if |a| == 1 {
      assert (a + b)[1..] == b;
    } else {
      assert (a + b)[1..] == a[1..] + b;
      JoinConcat(a[1..], b, sep);
    }
  }

  /** The last piece ends as the whole does; it is empty after a separator. */
  lemma {:induction false} LastPiece(s: string, c: char)
    requires s != ""
    ensures
      var r := Split(s, c);
      var p := r[|r| - 1];
      if s[|s| - 1] == c then p == "" else p != "" && p[|p| - 1] == s[|s| - 1]
  {
    SplitFirst(s, c);
    SplitFirst(s[1..], c);
    hide Split;
    var rest, r := Split(s[1..], c), Split(s, c);
    if |s| > 1 { LastPiece(s[1..], c); } else { assert s[1..] == ""; }
    assert r[|r| - 1] == if s[0] == c || |rest| > 1 then rest[|rest| - 1] else [s[0]] + rest[0];
  }

  lemma {:induction false} JoinEnd(parts: seq<string>, sep: string)
    requires parts != [] && parts[|parts| - 1] != ""
    ensures
      var all, last := Join(parts, sep), parts[|parts| - 1];
      all != "" && all[|all| - 1] == last[|last| - 1]
  {
    if |parts| > 1 { JoinEnd(parts[1..], sep); }
  }

  /** Go's `strings.ReplaceAll(s, "\r\n", "\n")`. */
  function UnixLines(s: string): string {
    if |s| >= 2 && s[0] == '\r' && s[1] == '\n' then ['\n'] + UnixLines(s[2..])
    else if s == "" then "" else [s[0]] + UnixLines(s[1..])
  }

  predicate HasPair(s: string) {
    exists i :: 0 <= i < |s| - 1 && s[i] == '\r' && s[i + 1] == '\n'
  }

  predicate EndsInReturn(s: string) {
    s != "" && s[|s| - 1] == '\r'
  }

  lemma PairsOfRest(s: string)
    requires s != ""
    ensures HasPair(s) <==> (|s| >= 2 && s[0] == '\r' && s[1] == '\n') || HasPair(s[1..])
  {
    if HasPair(s[1..]) {
      var i :| 0 <= i < |s[1..]| - 1 && s[1..][i] == '\r' && s[1..][i + 1] == '\n';
      assert s[i + 1] == '\r' && s[i + 2] == '\n';
    }
    if i :| 1 <= i < |s| - 1 && s[i] == '\r' && s[i + 1] == '\n' { assert s[1..][i - 1] == '\r'; }
  }

  /** Text without a pair of carriage return and newline stays as it is; any other becomes shorter. */
  lemma {:induction false} UnixLinesIs(s: string)
    ensures if HasPair(s) then |UnixLines(s)| < |s| else UnixLines(s) == s
  {
    if s != "" {
      PairsOfRest(s);
      if |s| >= 2 && s[0] == '\r' && s[1] == '\n' {
        UnixLinesIs(s[2..]);
      } else {
        UnixLinesIs(s[1..]);
        assert s == [s[0]] + s[1..];
      }
    }
  }

  lemma {:induction false} UnixLinesConcat(a: string, b: string)
    requires !EndsInReturn(a) || b == "" || b[0] != '\n'
    ensures UnixLines(a + b) == UnixLines(a) + UnixLines(b)
  {
    var s := a + b;
    if a == "" {
      assert s == b;
    } else if |a| >= 2 && a[0] == '\r' && a[1] == '\n' {
      assert s[2..] == a[2..] + b;
      UnixLinesConcat(a[2..], b);
    } else {
      assert s[1..] == a[1..] + b;
      UnixLinesConcat(a[1..], b);
    }
  }

  /** Nothing new comes in, and the ends stay but for a carriage return at the beginning. */
  lemma {:induction false} UnixLinesKeeps(s: string)
    ensures
      var r := UnixLines(s);
      && (forall c :: c in r ==> c in s)
      && (s != "" ==> r != "" && r[|r| - 1] == s[|s| - 1] && (s[0] != '\r' ==> r[0] == s[0]))
  {
    if |s| >= 2 && s[0] == '\r' && s[1] == '\n' { UnixLinesKeeps(s[2..]); } else if s != "" { UnixLinesKeeps(s[1..]); }
  }

  lemma OneLineHasNoPair(s: string)
    requires '\n' !in s
    ensures !HasPair(s) && UnixLines(s) == s
  {
    UnixLinesIs(s);
  }

  // ---------- finding ----------

  predicate OccursAt(s: string, x: string, i: nat) {
    i + |x| <= |s| && s[i..i + |x|] == x
  }

  /** The first place `x` occurs at, if any. */
  function Index(s: string, x: string, from: nat): (i: int)
    requires from <= |s|
    ensures i >= 0 ==> i >= from && OccursAt(s, x, i) && forall j :: from <= j < i ==> !OccursAt(s, x, j)
    ensures i < 0 ==> forall j :: from <= j <= |s| ==> !OccursAt(s, x, j)
    decreases |s| - from
  {
    if OccursAt(s, x, from) then from else if from == |s| then -1 else Index(s, x, from + 1)
  }
}
