/** Record ids: how they are printed and parsed. */
module RecordIds {
  import opened Text

  datatype Id = IntId(value: int) | StringId(text: string)

  datatype RecordId = RecordId(table: string, id: Id)

  datatype ParseError = NoColon | NoTable | NoId | BadTable

  datatype Result = Ok(record: RecordId) | Err(error: ParseError)

  datatype Number = Number(value: int) | NotANumber

  const MIN_INT64 := -0x8000_0000_0000_0000
  const MAX_INT64 := 0x7fff_ffff_ffff_ffff

  predicate IsDigit(c: char) { '0' <= c <= '9' }

  predicate IsWord(c: char) { IsDigit(c) || 'a' <= c <= 'z' || 'A' <= c <= 'Z' || c == '_' }

  predicate AllDigits(s: string) { forall i :: 0 <= i < |s| ==> IsDigit(s[i]) }

  predicate IsSimple(s: string) { s != "" && forall i :: 0 <= i < |s| ==> IsWord(s[i]) }

  predicate IsTable(s: string) { IsSimple(s) && !IsDigit(s[0]) }

  predicate InRange(n: int) { MIN_INT64 <= n <= MAX_INT64 }

  /** What the constructors let through. */
  predicate IsValid(r: RecordId) {
    IsTable(r.table) && (r.id.IntId? ==> InRange(r.id.value))
  }

  // ---------- numbers ----------

  function Digits(n: nat): (s: string)
    ensures s != "" && AllDigits(s)
  {
    var last := ['0' + (n % 10) as char];
    if n < 10 then last else Digits(n / 10) + last
  }

  function FormatInt(n: int): string {
    if n < 0 then "-" + Digits(-n) else Digits(n)
  }

  function Value(s: string): nat
    requires AllDigits(s)
  {
    if s == "" then 0 else Value(s[..|s| - 1]) * 10 + (s[|s| - 1] - '0') as int
  }

  /** Go's `strconv.ParseInt(s, 10, 64)`: an optional sign, digits, and a value that fits. */
  function ParseInt(s: string): (r: Number)
    ensures r.Number? ==> InRange(r.value) && s != ""
  {
    var unsigned := if s != "" && (s[0] == '-' || s[0] == '+') then s[1..] else s;
    if unsigned == "" || !AllDigits(unsigned) then NotANumber
    else
      var n: int := if s[0] == '-' then -(Value(unsigned) as int) else Value(unsigned);
      if InRange(n) then Number(n) else NotANumber
  }

  lemma {:induction false} ValueOfDigits(n: nat)
    ensures Value(Digits(n)) == n
  {
    var s := Digits(n);
    var d := n % 10;
    assert s[|s| - 1] == '0' + d as char;
    assert (s[|s| - 1] - '0') as int == d;
    if n >= 10 {
      ValueOfDigits(n / 10);
      assert s[..|s| - 1] == Digits(n / 10);
    } else {
      assert s[..|s| - 1] == "" && Value("") == 0;
    }
  }

  /** Every number in range is parsed back. */
  lemma IntRoundTrip(n: int)
    requires InRange(n)
    ensures ParseInt(FormatInt(n)) == Number(n)
  {
    var d := Digits(if n < 0 then -n else n);
    ValueOfDigits(if n < 0 then -n else n);
    assert IsDigit(d[0]);
    if n < 0 { assert ("-" + d)[1..] == d; }
  }

  // ---------- printing and parsing ----------

  function Print(r: RecordId): string {
    match r.id
    case IntId(n) => r.table + ":" + FormatInt(n)
    case StringId(s) => if IsSimple(s) then r.table + ":" + s else r.table + ":<" + s + ">"
  }

  function Unbracket(s: string): string {
    if |s| >= 2 && s[0] == '<' && s[|s| - 1] == '>' then s[1..|s| - 1] else s
  }

  function Make(table: string, id: Id): Result {
    if IsTable(table) then Ok(RecordId(table, id)) else Err(BadTable)
  }

  function Parse(input: string): Result {
    var colon := Index(input, ":", 0);
    if colon < 0 then Err(NoColon)
    else
      var table, id := Trim(input[..colon]), Trim(input[colon + 1..]);
      if table == "" then Err(NoTable)
      else if id == "" then Err(NoId)
      else
        var text := Unbracket(id);
        match ParseInt(text)
        case Number(n) => Make(table, IntId(n))
        case NotANumber => Make(table, StringId(text))
  }

  lemma SimpleHasNoSpace(s: string)
    requires IsSimple(s)
    ensures Trim(s) == s && ':' !in s && s[0] != '<'
  {
    assert IsWord(s[0]) && IsWord(s[|s| - 1]);
    TrimIsTrimmed(s);
  }

  lemma NumberHasNoSpace(n: int)
    ensures Trim(FormatInt(n)) == FormatInt(n) && FormatInt(n) != "" && FormatInt(n)[0] != '<'
  {
    var s := FormatInt(n);
    assert IsDigit(s[|s| - 1]);
    assert s[0] == '-' || IsDigit(s[0]);
    TrimIsTrimmed(s);
  }

  /** The first colon is the one after a table's name. */
  lemma FirstColon(table: string, rest: string)
    requires ':' !in table
    ensures
      var s := table + ":" + rest;
      Index(s, ":", 0) == |table| && s[..|table|] == table && s[|table| + 1..] == rest
  {
    var s := table + ":" + rest;
    hide Index;
    assert OccursAt(s, ":", |table|);
    forall j | 0 <= j < |table| ensures !OccursAt(s, ":", j) { assert s[j..j + 1] == [table[j]]; }
  }

  function IdOf(text: string): Id {
    match ParseInt(text)
    case Number(n) => IntId(n)
    case NotANumber => StringId(text)
  }

  lemma ParseAt(input: string, k: nat)
    requires Index(input, ":", 0) == k && k < |input| && Trim(input[..k]) != "" && Trim(input[k + 1..]) != ""
    ensures Parse(input) == Make(Trim(input[..k]), IdOf(Unbracket(Trim(input[k + 1..]))))
  {
    hide Index, Trim, ParseInt, Unbracket, Make;
  }

  /** What is parsed from a table and the text of an id. */
  lemma ParsesParts(table: string, id: string)
    requires IsTable(table) && id != "" && Trim(id) == id
    ensures Parse(table + ":" + id) == Ok(RecordId(table, IdOf(Unbracket(id))))
  {
    SimpleHasNoSpace(table);
    assert table != "";
    assert Make(table, IdOf(Unbracket(id))) == Ok(RecordId(table, IdOf(Unbracket(id)))) by { hide IdOf, Unbracket; }
    hide *;
    FirstColon(table, id);
    ParseAt(table + ":" + id, |table|);
  }

  lemma BracketedIs(s: string)
    ensures Trim("<" + s + ">") == "<" + s + ">" && Unbracket("<" + s + ">") == s
  {
    var b := "<" + s + ">";
    assert b[0] == '<' && b[|b| - 1] == '>' && b[1..|b| - 1] == s;
    TrimIsTrimmed(b);
  }

  /** A valid record id is parsed back from what it is printed as, exactly if it is no string that reads as a number. */
  lemma RecordIdRoundTrip(r: RecordId)
    requires IsValid(r)
    ensures Parse(Print(r)) == Ok(r) <==> (r.id.StringId? ==> ParseInt(r.id.text).NotANumber?)
    ensures r.id.StringId? && ParseInt(r.id.text).Number? ==>
      Parse(Print(r)) == Ok(RecordId(r.table, IntId(ParseInt(r.id.text).value)))
  {
    hide Parse, Trim, ParseInt, FormatInt;
    match r.id {
      case IntId(n) =>
        NumberHasNoSpace(n);
        IntRoundTrip(n);
        ParsesParts(r.table, FormatInt(n));
      case StringId(s) =>
        if IsSimple(s) {
          SimpleHasNoSpace(s);
          ParsesParts(r.table, s);
        } else {
          BracketedIs(s);
          ParsesParts(r.table, "<" + s + ">");
          assert r.table + ":" + ("<" + s + ">") == r.table + ":<" + s + ">";
        }
    }
  }

  /** Whatever was parsed is valid, and is parsed again from what it is printed as. */
  lemma ParsedIsStable(input: string)
    requires Parse(input).Ok?
    ensures IsValid(Parse(input).record) && Parse(Print(Parse(input).record)) == Parse(input)
  {
    hide Index, Trim, Print;
    RecordIdRoundTrip(Parse(input).record);
  }

  // ---------- which texts are accepted ----------

  /** Letters, digits and underscores, with no digit in front. */
  predicate IsName(s: string) {
    |s| > 0 && !('0' <= s[0] <= '9')
    && forall i :: 0 <= i < |s| ==> 'a' <= s[i] <= 'z' || 'A' <= s[i] <= 'Z' || s[i] == '_' || '0' <= s[i] <= '9'
  }

  /** A text is accepted exactly if what is before its first colon, trimmed, is a name and something follows it. */
  lemma AcceptedExactlyIf(table: string, rest: string)
    requires ':' !in table
    ensures
      var r := Parse(table + ":" + rest);
      && (r.Ok? <==> IsName(Trim(table)) && Trim(rest) != "")
      && (r.Ok? ==> r.record.table == Trim(table))
      && (r == Err(NoTable) <==> Trim(table) == "")
      && (r == Err(NoId) <==> Trim(table) != "" && Trim(rest) == "")
      && (r == Err(BadTable) <==> Trim(table) != "" && Trim(rest) != "" && !IsName(Trim(table)))
  {
    FirstColon(table, rest);
    assert IsTable(Trim(table)) <==> IsName(Trim(table));
    hide Index, Trim, ParseInt, Unbracket, IsTable, IsName;
  }

  lemma NoColonIsRefused(input: string)
    ensures Parse(input) == Err(NoColon) <==> ':' !in input
  {
    var k := Index(input, ":", 0);
    if k >= 0 {
      assert input[k..k + 1] == ":" && input[k] == ':';
    }
    assert forall i :: 0 <= i < |input| && input[i] == ':' ==> OccursAt(input, ":", i);
    hide Index, Trim, ParseInt, Unbracket, IsTable;
  }

  function Zeros(k: nat): string {
    if k == 0 then "" else "0" + Zeros(k - 1)
  }

  lemma {:induction false} ZerosMore(k: nat)
    ensures Zeros(k) + "0" == Zeros(k + 1)
  {
    if k > 0 { ZerosMore(k - 1); }
  }

  /** Digits are a number written out, behind leading zeros. */
  lemma {:induction false} DigitsAreNumber(u: string) returns (k: nat)
    requires u != "" && AllDigits(u)
    ensures u == Zeros(k) + Digits(Value(u))
  {
    var v, last := u[..|u| - 1], u[|u| - 1];
    var d := (last - '0') as int;
    assert IsDigit(last) && u == v + [last] && Value(u) == Value(v) * 10 + d;
    assert Digits(d) == [last];
    if v == "" {
      k := 0;
    } else {
      k := DigitsAreNumber(v);
      NextDigit(Value(v), d);
      hide Zeros, Digits, Value;
      if Value(v) == 0 {
        ZerosMore(k);
        k := k + 1;
      }
    }
  }

  lemma NextDigit(n: nat, d: nat)
    requires d < 10
    ensures Digits(d) == ['0' + d as char]
    ensures if n == 0 then Digits(n) == "0" else Digits(n * 10 + d) == Digits(n) + Digits(d)
  {
  }

  /** The converse: leading zeros count for nothing. */
  lemma {:induction false} ZerosCountForNothing(k: nat, n: nat)
    ensures AllDigits(Zeros(k) + Digits(n)) && Value(Zeros(k) + Digits(n)) == n
  {
    if k == 0 {
      assert Zeros(0) + Digits(n) == Digits(n);
      ValueOfDigits(n);
    } else {
      ZerosCountForNothing(k - 1, n);
      assert Zeros(k) + Digits(n) == "0" + (Zeros(k - 1) + Digits(n));
      LeadingZero(Zeros(k - 1) + Digits(n));
    }
  }

  lemma {:induction false} LeadingZero(s: string)
    requires AllDigits(s)
    ensures AllDigits("0" + s) && Value("0" + s) == Value(s)
  {
    if s != "" {
      LeadingZero(s[..|s| - 1]);
      assert ("0" + s)[..|s|] == "0" + s[..|s| - 1];
    } else {
      assert "0" + s == "0" && "0"[..0] == "" && Value("") == 0;
    }
  }

  /** `s` is `n` behind `k` zeros and perhaps a sign. */
  predicate IsWrittenWith(s: string, n: int, k: nat) {
    var digits := Zeros(k) + Digits(if n < 0 then -n else n);
    || (n >= 0 && (s == digits || s == "+" + digits))
    || (n <= 0 && s == "-" + digits)
  }

  lemma DigitsRead(u: string)
    requires u != "" && AllDigits(u)
    ensures InRange(Value(u)) ==> ParseInt(u) == ParseInt("+" + u) == Number(Value(u))
    ensures InRange(-(Value(u) as int)) ==> ParseInt("-" + u) == Number(-(Value(u) as int))
  {
    assert IsDigit(u[0]) && ("+" + u)[1..] == u && ("-" + u)[1..] == u;
    hide Value;
  }

  lemma WrittenReads(s: string, n: int, k: nat)
    requires IsWrittenWith(s, n, k) && InRange(n)
    ensures ParseInt(s) == Number(n)
  {
    var m: nat := if n < 0 then -n else n;
    var digits := Zeros(k) + Digits(m);
    ZerosCountForNothing(k, m);
    hide Zeros, Digits, Value, ParseInt, AllDigits, InRange;
    DigitsRead(digits);
  }

  lemma ReadIsWritten(s: string, n: int) returns (k: nat)
    requires ParseInt(s) == Number(n)
    ensures InRange(n) && IsWrittenWith(s, n, k)
  {
    var signed := s[0] == '-' || s[0] == '+';
    var u := if signed then s[1..] else s;
    k := DigitsAreNumber(u);
    hide Zeros, Digits, Value;
    assert signed ==> s == [s[0]] + u;
  }

  /**
   A text reads as a number exactly if it is one that fits into 64 bits, written out, perhaps behind zeros and one sign.
   */
  lemma ReadsAsNumberIf(s: string, n: int)
    ensures ParseInt(s) == Number(n) <==>
      (-9_223_372_036_854_775_808 <= n <= 9_223_372_036_854_775_807 && exists k :: IsWrittenWith(s, n, k))
  {
    hide ParseInt, IsWrittenWith;
    if ParseInt(s) == Number(n) { var k := ReadIsWritten(s, n); }
    if k :| IsWrittenWith(s, n, k) && InRange(n) { WrittenReads(s, n, k); }
  }
}
