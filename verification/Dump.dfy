/** Dump headers: the scan and the edit of internal/pg/dump.go. */
module Dump {
  import opened GoText

  datatype DumpError =
    | NoName
    | Unterminated
    | BadConnect
    | TwoDatabases(first: string, second: string)
    | ReadFailed
    | Continues
    | NoCreate

  /** What a reader delivers: its bytes, then the end or an error. */
  datatype Stream = Stream(text: string, broken: bool)

  const HeaderLines: nat := 20000

  // ----- names -----

  /** What is between an opening quote, already read, and the closing one. */
  function Unquote(s: string): Option<string> {
    if s == "" then None
    else if s[0] != '"' then Prepend(s[0], Unquote(s[1..]))
    else if |s| > 1 && s[1] == '"' then Prepend('"', Unquote(s[2..]))
    else Some("")
  }

  function Prepend(c: char, s: Option<string>): Option<string> {
    if s.None? then None else Some([c] + s.value)
  }

  /** The SQL identifier at the start of s. */
  function Identifier(s: string): Result<string, DumpError> {
    if s != "" && s[0] == '"' then
      var name := Unquote(s[1..]);
      if name.None? then Err(Unterminated) else Ok(name.value)
    else
      var name := Until(s, {' ', '\t', ';'});
      if name == "" then Err(NoName) else Ok(ToLower(name))
  }

  /** The builder loop over a quoted name. */
  method ReadQuoted(s: string) returns (r: Result<string, DumpError>)
    requires s != "" && s[0] == '"'
    ensures r == Identifier(s)
  {
    var b := "";
    var i := 1;
    AppendedNothing(Unquote(s[1..]));
    while i < |s|
      invariant 1 <= i <= |s|
      invariant Appended(b, Unquote(s[i..])) == Unquote(s[1..])
    {
      assert s[i..][0] == s[i] && s[i..][1..] == s[i + 1..];
      if s[i] == '"' {
        if i + 1 < |s| && s[i + 1] == '"' {
          assert s[i..][2..] == s[i + 2..];
          AppendedStep(b, '"', Unquote(s[i + 2..]));
          b := b + ['"'];
          i := i + 2;
          continue;
        }
        assert b + "" == b;
        return Ok(b);
      }
      AppendedStep(b, s[i], Unquote(s[i + 1..]));
      b := b + [s[i]];
      i := i + 1;
    }
    return Err(Unterminated);
  }

  function Appended(b: string, s: Option<string>): Option<string> {
    if s.None? then None else Some(b + s.value)
  }

  lemma AppendedNothing(s: Option<string>)
    ensures Appended("", s) == s
  {
    if s.Some? {
      assert "" + s.value == s.value;
    }
  }

  lemma AppendedStep(b: string, c: char, s: Option<string>)
    ensures Appended(b, Prepend(c, s)) == Appended(b + [c], s)
  {
    if s.Some? {
      assert b + ([c] + s.value) == b + [c] + s.value;
    }
  }

  function Doubled(name: string): string {
    if name == "" then ""
    else (if name[0] == '"' then "\"\"" else [name[0]]) + Doubled(name[1..])
  }

  /** A name in double quotes, as pg_dump writes one that needs them. */
  function Quote(name: string): string {
    "\"" + Doubled(name) + "\""
  }

  lemma UnquoteStep(c: char, t: string)
    requires c != '"'
    ensures Unquote([c] + t) == Prepend(c, Unquote(t))
  {
    assert ([c] + t)[1..] == t;
  }

  lemma UnquotePair(t: string)
    ensures Unquote("\"\"" + t) == Prepend('"', Unquote(t))
  {
    assert ("\"\"" + t)[2..] == t;
  }

  lemma UnquoteEnd(rest: string)
    requires rest == "" || rest[0] != '"'
    ensures Unquote("\"" + rest) == Some("")
  {
  }

  lemma {:induction false} UnquoteDoubled(name: string, rest: string)
    requires rest == "" || rest[0] != '"'
    ensures Unquote(Doubled(name) + "\"" + rest) == Some(name)
    decreases |name|
  {
    hide Unquote;
    if name == "" {
      assert Doubled("") + "\"" + rest == "\"" + rest;
      UnquoteEnd(rest);
    } else {
      UnquoteDoubled(name[1..], rest);
      assert name == [name[0]] + name[1..];
      var t := Doubled(name[1..]) + "\"" + rest;
      if name[0] == '"' {
        assert Doubled(name) + "\"" + rest == "\"\"" + t;
        UnquotePair(t);
      } else {
        assert Doubled(name) + "\"" + rest == [name[0]] + t;
        UnquoteStep(name[0], t);
      }
    }
  }

  /** Every name is read back from its quoted form. */
  lemma IdentifierReadsQuoted(name: string, rest: string)
    requires rest == "" || rest[0] != '"'
    ensures Identifier(Quote(name) + rest) == Ok(name)
  {
    var s := Quote(name) + rest;
    assert s[0] == '"' && s[1..] == Doubled(name) + "\"" + rest;
    UnquoteDoubled(name, rest);
    assert Unquote(s[1..]) == Some(name);
    assert Identifier(s) == Ok(name);
  }

  /** A name without quotes is read up to its end, and folded to lower case. */
  lemma IdentifierReadsPlain(name: string, rest: string)
    requires name != "" && name[0] != '"'
    requires forall c :: c in name ==> c !in {' ', '\t', ';'}
    requires rest == "" || rest[0] in {' ', '\t', ';'}
    ensures Identifier(name + rest) == Ok(ToLower(name))
  {
    UntilReads(name, rest, {' ', '\t', ';'});
  }

  /** How much of s the repetition between dbname=' and the closing quote takes:
  any character but a quote or backslash, an escaped character other than a
  newline, or two quotes. */
  function ValueLength(s: string): (n: nat)
    ensures n <= |s|
  {
    if s == "" then 0
    else if s[0] == '\\' then if |s| > 1 && s[1] != '\n' then 2 + ValueLength(s[2..]) else 0
    else if s[0] == '\'' then if |s| > 1 && s[1] == '\'' then 2 + ValueLength(s[2..]) else 0
    else 1 + ValueLength(s[1..])
  }

  const ReusePrevious := "-reuse-previous=on "
  const DbnameStart := "\"dbname='"

  function ReusedName(rest: string): Result<string, DumpError> {
    if !(DbnameStart <= rest) then Err(BadConnect)
    else
      var s := rest[|DbnameStart|..];
      var n := ValueLength(s);
      if "'\"" <= s[n..] then
        Ok(ReplaceAll(ReplaceAll(ReplaceAll(s[..n], "\\'", "'"), "''", "'"), "\\\\", "\\"))
      else Err(BadConnect)
  }

  /** The database of a \connect line. */
  function ConnectTarget(s: string): Result<string, DumpError> {
    if ReusePrevious <= s then ReusedName(s[|ReusePrevious|..])
    else if s != "" && s[0] == '"' then Identifier(s)
    else
      var name := Until(s, {' ', '\t'});
      if name == "" then Err(BadConnect) else Ok(name)
  }

  /** A name in a connection string in double quotes, as pg_dump writes it after
  -reuse-previous=on: quotes and backslashes escaped, double quotes doubled. */
  function Escaped(name: string): string {
    if name == "" then ""
    else
      (if name[0] == '\'' then "\\'" else if name[0] == '\\' then "\\\\" else if name[0] == '"' then "\"\"" else [name[0]])
      + Escaped(name[1..])
  }

  /** The same without the escapes of quotes. */
  function HalfEscaped(name: string): string {
    if name == "" then ""
    else (if name[0] == '\\' then "\\\\" else if name[0] == '"' then "\"\"" else [name[0]]) + HalfEscaped(name[1..])
  }

  lemma {:induction false} ValueIsWhole(name: string)
    ensures ValueLength(Escaped(name) + "'\"") == |Escaped(name)|
    decreases |name|
  {
    var rest := Escaped(name) + "'\"";
    if name != "" {
      ValueIsWhole(name[1..]);
      var n := if name[0] in {'\'', '\\', '"'} then 2 else 1;
      assert rest[n..] == Escaped(name[1..]) + "'\"";
      if name[0] == '"' {
        assert rest[1..][1..] == rest[2..];
      }
    }
  }

  /** The first replacement takes the escapes of quotes away. */
  lemma {:induction false} QuotesUnescaped(name: string)
    ensures ReplaceAll(Escaped(name), "\\'", "'") == HalfEscaped(name)
    decreases |name|
  {
    hide ReplaceAll;
    if name == "" {
      ReplaceShort("", "\\'", "'");
    } else {
      var rest := Escaped(name[1..]);
      QuotesUnescaped(name[1..]);
      if name[0] == '\'' {
        ReplaceMatches(rest, "\\'", "'");
      } else if name[0] == '\\' || name[0] == '"' {
        PassesTwice(name[0], rest, "\\'", "'");
      } else {
        PassesOnce(name[0], rest, "\\'", "'");
      }
    }
  }

  lemma PassesOnce(c: char, rest: string, p: string, v: string)
    requires |p| == 2 && (c != p[0] || rest == "" || rest[0] != p[1])
    ensures ReplaceAll([c] + rest, p, v) == [c] + ReplaceAll(rest, p, v)
  {
    hide ReplaceAll;
    var s := [c] + rest;
    assert s[1..] == rest;
    ReplacePasses(s, p, v);
  }

  lemma PassesTwice(c: char, rest: string, p: string, v: string)
    requires |p| == 2 && (c != p[0] || (c != p[1] && (rest == "" || rest[0] != p[1])))
    ensures ReplaceAll([c, c] + rest, p, v) == [c, c] + ReplaceAll(rest, p, v)
  {
    hide ReplaceAll;
    assert [c, c] + rest == [c] + ([c] + rest);
    PassesOnce(c, [c] + rest, p, v);
    PassesOnce(c, rest, p, v);
  }

  /** The second one takes every pair of quotes for one. */
  lemma {:induction false} PairsCollapsed(name: string)
    ensures ReplaceAll(HalfEscaped(name), "''", "'") == HalfEscaped(ReplaceAll(name, "''", "'"))
    decreases |name|
  {
    hide ReplaceAll;
    if name == "" {
      ReplaceShort("", "''", "'");
    } else if "''" <= name {
      PairsCollapsed(name[2..]);
      assert name == "''" + name[2..] && name[1..][0] == '\'' && name[1..][1..] == name[2..];
      assert HalfEscaped(name) == "''" + HalfEscaped(name[2..]);
      ReplaceMatches(name[2..], "''", "'");
      ReplaceMatches(HalfEscaped(name[2..]), "''", "'");
      HalfEscapedStep('\'', ReplaceAll(name[2..], "''", "'"));
    } else {
      var c, rest := name[0], HalfEscaped(name[1..]);
      PairsCollapsed(name[1..]);
      assert name == [c] + name[1..];
      PassesOnce(c, name[1..], "''", "'");
      HalfEscapedStep(c, ReplaceAll(name[1..], "''", "'"));
      if c == '\\' || c == '"' {
        PassesTwice(c, rest, "''", "'");
      } else {
        if c == '\'' && rest != "" {
          assert name[1] != '\'' && rest[0] == name[1];
        }
        PassesOnce(c, rest, "''", "'");
      }
    }
  }

  lemma HalfEscapedStep(c: char, name: string)
    ensures HalfEscaped([c] + name) ==
      (if c == '\\' then "\\\\" else if c == '"' then "\"\"" else [c]) + HalfEscaped(name)
  {
    assert ([c] + name)[1..] == name;
  }

  /** The third one takes the escapes of backslashes away. */
  lemma {:induction false} BackslashesUnescaped(name: string)
    ensures ReplaceAll(HalfEscaped(name), "\\\\", "\\") == Doubled(name)
    decreases |name|
  {
    hide ReplaceAll;
    if name == "" {
      ReplaceShort("", "\\\\", "\\");
    } else {
      var rest := HalfEscaped(name[1..]);
      BackslashesUnescaped(name[1..]);
      if name[0] == '\\' {
        ReplaceMatches(rest, "\\\\", "\\");
      } else if name[0] == '"' {
        PassesTwice('"', rest, "\\\\", "\\");
      } else {
        PassesOnce(name[0], rest, "\\\\", "\\");
      }
    }
  }

  /** What is read from the form that pg_dump writes for an odd name: the name with its
  pairs of quotes halved and its double quotes doubled. */
  lemma ReusedReads(name: string)
    ensures ConnectTarget("-reuse-previous=on \"dbname='" + Escaped(name) + "'\"") ==
      Ok(Doubled(ReplaceAll(name, "''", "'")))
  {
    hide ConnectTarget, ReusedName, ReplaceAll, ValueLength, Escaped, HalfEscaped;
    var value := Escaped(name);
    ReusedText(value);
    ValueIsWhole(name);
    ReusedIsRead(value);
    QuotesUnescaped(name);
    PairsCollapsed(name);
    BackslashesUnescaped(ReplaceAll(name, "''", "'"));
  }

  lemma ReusedText(value: string)
    ensures "-reuse-previous=on \"dbname='" + value + "'\"" == ReusePrevious + (DbnameStart + (value + "'\""))
  {
    assert "-reuse-previous=on \"dbname='" == ReusePrevious + DbnameStart;
  }

  lemma ReusedIsRead(value: string)
    requires ValueLength(value + "'\"") == |value|
    ensures ConnectTarget(ReusePrevious + (DbnameStart + (value + "'\""))) ==
      Ok(ReplaceAll(ReplaceAll(ReplaceAll(value, "\\'", "'"), "''", "'"), "\\\\", "\\"))
  {
    hide ReplaceAll, ValueLength, Identifier, Until;
    StartIsRead(ReusePrevious, DbnameStart + (value + "'\""));
    StartIsRead(DbnameStart, value + "'\"");
    StartIsRead(value, "'\"");
  }

  lemma StartIsRead(x: string, y: string)
    ensures x <= x + y && (x + y)[..|x|] == x && (x + y)[|x|..] == y
  {
  }

  /** Two single quotes next to each other. */
  predicate HasPair(name: string) {
    exists i :: 0 <= i < |name| - 1 && name[i] == '\'' && name[i + 1] == '\''
  }

  function DoubleQuotes(s: string): nat {
    if s == "" then 0 else (if s[0] == '"' then 1 else 0) + DoubleQuotes(s[1..])
  }

  lemma {:induction false} CollapseCounts(name: string)
    ensures var r := ReplaceAll(name, "''", "'");
      && DoubleQuotes(r) == DoubleQuotes(name)
      && (if HasPair(name) then |r| < |name| else r == name)
    decreases |name|
  {
    hide ReplaceAll;
    if name == "" {
      ReplaceShort("", "''", "'");
    } else if "''" <= name {
      var rest := ReplaceAll(name[2..], "''", "'");
      CollapseCounts(name[2..]);
      assert name == "''" + name[2..] && name[1..][1..] == name[2..];
      ReplaceMatches(name[2..], "''", "'");
      assert ("'" + rest)[1..] == rest;
      assert name[0] == '\'' && name[0 + 1] == '\'';
    } else {
      var rest := ReplaceAll(name[1..], "''", "'");
      CollapseCounts(name[1..]);
      assert name == [name[0]] + name[1..];
      PassesOnce(name[0], name[1..], "''", "'");
      assert ([name[0]] + rest)[1..] == rest;
      PairLater(name);
    }
  }

  lemma PairLater(name: string)
    requires name != "" && !("''" <= name)
    ensures HasPair(name) <==> HasPair(name[1..])
  {
    if HasPair(name) {
      var i :| 0 <= i < |name| - 1 && name[i] == '\'' && name[i + 1] == '\'';
      assert i > 0;
      assert name[1..][i - 1] == name[i] && name[1..][i - 1 + 1] == name[i + 1];
    }
    if HasPair(name[1..]) {
      var i :| 0 <= i < |name[1..]| - 1 && name[1..][i] == '\'' && name[1..][i + 1] == '\'';
      assert name[i + 1] == '\'' && name[i + 1 + 1] == '\'';
    }
  }

  lemma {:induction false} DoubledCounts(name: string)
    ensures DoubleQuotes(Doubled(name)) == 2 * DoubleQuotes(name)
    ensures '"' in name <==> DoubleQuotes(name) > 0
    ensures '"' !in name ==> Doubled(name) == name
    decreases |name|
  {
    if name != "" {
      var rest := Doubled(name[1..]);
      DoubledCounts(name[1..]);
      assert ([name[0]] + rest)[1..] == rest && ("\"\"" + rest)[1..][1..] == rest;
      assert '"' in name <==> name[0] == '"' || '"' in name[1..];
    }
  }

  /** The three forms of a \connect argument. The one in quotes gives back every name, the
  plain one every name that is not empty, has no space and no tab and does not start
  with a double quote. The one after -reuse-previous=on gives the name back exactly
  when it has no double quote and no two single quotes next to each other. */
  lemma ConnectForms(name: string)
    ensures ConnectTarget(Quote(name)) == Ok(name)
    ensures '"' !in name ==> Quote(name) == "\"" + name + "\""
    ensures name != "" && name[0] != '"' && ' ' !in name && '\t' !in name ==> ConnectTarget(name) == Ok(name)
    ensures ConnectTarget("-reuse-previous=on \"dbname='" + Escaped(name) + "'\"") == Ok(name) <==>
      '"' !in name && !HasPair(name)
  {
    hide ReplaceAll, Until, Unquote, HasPair, Escaped, ReusedName;
    QuotedForm(name);
    DoubledCounts(name);
    CollapseCounts(name);
    DoubledCounts(ReplaceAll(name, "''", "'"));
    ReusedReads(name);
    if name != "" && name[0] != '"' && ' ' !in name && '\t' !in name {
      PlainForm(name);
    }
  }

  lemma PlainForm(name: string)
    requires name != "" && name[0] != '"' && ' ' !in name && '\t' !in name
    ensures ConnectTarget(name) == Ok(name)
  {
    hide Until, ReusedName;
    UntilReads(name, "", {' ', '\t'});
    assert name + "" == name;
    assert ReusePrevious[18] == ' ';
  }

  lemma QuotedForm(name: string)
    ensures ConnectTarget(Quote(name)) == Ok(name)
  {
    hide Unquote;
    IdentifierReadsQuoted(name, "");
    assert Quote(name) + "" == Quote(name);
    assert Quote(name)[0] == '"' && "-reuse-previous=on "[0] == '-';
  }

  // ----- lines -----

  datatype Line =
    | Data
    | Restrict
    | Create(target: Result<string, DumpError>)
    | Connect(target: Result<string, DumpError>)
    | Other

  const CreateDatabase := "CREATE DATABASE "
  const ConnectCommand := "\\connect "

  /** What a line is, by its start after trimming. Data starts a table. */
  function Classify(line: string): Line {
    var t := TrimSpace(line);
    if "CREATE TABLE " <= t || "COPY " <= t then Data
    else if "\\restrict " <= t then Restrict
    else if CreateDatabase <= t then Create(Identifier(t[|CreateDatabase|..]))
    else if ConnectCommand <= t then Connect(ConnectTarget(t[|ConnectCommand|..]))
    else Other
  }

  predicate EndsStatement(line: string) {
    HasSuffix(TrimSpace(line), ";")
  }

  /** The line creates the database db. */
  predicate Creates(line: string, db: string) {
    Classify(line) == Create(Ok(db))
  }

  /** What a line is, by the text it starts with after trimming. */
  lemma ClassifyExactly(line: string)
    ensures var t := TrimSpace(line);
      && (Classify(line).Data? <==> "CREATE TABLE " <= t || "COPY " <= t)
      && (Classify(line).Restrict? <==> "\\restrict " <= t)
      && (Classify(line).Create? <==> "CREATE DATABASE " <= t)
      && (Classify(line).Connect? <==> "\\connect " <= t)
      && ("CREATE DATABASE " <= t ==> Classify(line).target == Identifier(t[16..]))
      && ("\\connect " <= t ==> Classify(line).target == ConnectTarget(t[9..]))
  {
    hide TrimSpace, Identifier, ConnectTarget;
    var t := TrimSpace(line);
    if "CREATE DATABASE " <= t {
      assert t[0] == 'C' && t[1] == 'R' && t[7] == 'D';
    }
    if "\\connect " <= t || "\\restrict " <= t {
      assert t[0] == '\\' && (t[1] == 'c' || t[1] == 'r');
    }
    if "\\connect " <= t {
      assert t[1] == 'c';
    }
    if "\\restrict " <= t {
      assert t[1] == 'r';
    }
    if "CREATE TABLE " <= t {
      assert t[0] == 'C' && t[7] == 'T';
    }
    if "COPY " <= t {
      assert t[0] == 'C' && t[1] == 'O';
    }
  }

  /** A statement ends on its line when the last character is a semicolon. */
  lemma EndsStatementExactly(line: string)
    ensures EndsStatement(line) <==> TrimSpace(line) != "" && TrimSpace(line)[|TrimSpace(line)| - 1] == ';'
  {
    hide TrimSpace;
    var t := TrimSpace(line);
    assert t != "" ==> t[|t| - 1..] == [t[|t| - 1]];
  }

  // ----- the scan -----

  datatype DumpHeader = DumpHeader(database: string, restrict: bool)

  function SetDatabase(h: DumpHeader, db: string): Result<DumpHeader, DumpError> {
    if h.database != "" && h.database != db then Err(TwoDatabases(h.database, db))
    else Ok(h.(database := db))
  }

  /** The header after one line that does not end the scan. */
  function Note(h: DumpHeader, line: Line): Result<DumpHeader, DumpError> {
    match line
    case Restrict => Ok(h.(restrict := true))
    case Create(Ok(db)) => SetDatabase(h, db)
    case Connect(Ok(db)) => SetDatabase(h, db)
    case Create(Err(e)) => Err(e)
    case Connect(Err(e)) => Err(e)
    case _ => Ok(h)
  }

  /** The scan of the lines left, of which at most n are read. An error of the
  reader counts when the scanner has met it by then. */
  function ScanFrom(lines: seq<string>, end: Ending, n: nat, h: DumpHeader): Result<DumpHeader, DumpError>
    decreases n
  {
    if n == 0 then if lines == [] && end == FailsInLast then Err(ReadFailed) else Ok(h)
    else if lines == [] then if end == AtEnd then Ok(h) else Err(ReadFailed)
    else if Classify(lines[0]).Data? then Ok(h)
    else
      match Note(h, Classify(lines[0]))
      case Err(e) => Err(e)
      case Ok(next) => ScanFrom(lines[1..], end, n - 1, next)
  }

  const NoHeader := DumpHeader("", false)

  /** The header of a dump. */
  function HeaderOf(s: Stream): Result<DumpHeader, DumpError> {
    var scan := ScanLines(s.text, s.broken);
    ScanFrom(scan.lines, scan.end, HeaderLines, NoHeader)
  }

  method ScanDumpHeader(s: Stream) returns (r: Result<DumpHeader, DumpError>)
    ensures r == HeaderOf(s)
  {
    hide Classify, ScanFrom, ScanLines;
    var scan := ScanLines(s.text, s.broken);
    var h := NoHeader;
    var n := 0;
    while n < HeaderLines && n < |scan.lines|
      invariant 0 <= n <= HeaderLines && n <= |scan.lines|
      invariant ScanFrom(scan.lines[n..], scan.end, HeaderLines - n, h) == HeaderOf(s)
    {
      var line := Classify(scan.lines[n]);
      ScanStep(scan.lines[n..], scan.end, HeaderLines - n, h);
      assert scan.lines[n..][1..] == scan.lines[n + 1..];
      if line.Data? {
        return Ok(h);
      }
      var next := Note(h, line);
      if next.Err? {
        return next;
      }
      h := next.value;
      n := n + 1;
    }
    ScanStep(scan.lines[n..], scan.end, HeaderLines - n, h);
    if n == |scan.lines| && (scan.end == FailsInLast || (n < HeaderLines && scan.end == FailsAfter)) {
      return Err(ReadFailed);
    }
    return Ok(h);
  }

  // ----- what the header says -----

  /** A CREATE DATABASE or \connect line. */
  predicate Named(line: string) {
    Classify(line).Create? || Classify(line).Connect?
  }

  /** The database in a CREATE DATABASE or \connect line. */
  function NameIn(line: string): Result<string, DumpError>
    requires Named(line)
  {
    Classify(line).target
  }

  /** How many lines the scan takes: those before the first table, at most n. */
  function HeadLength(lines: seq<string>, n: nat): (k: nat)
    ensures k <= n && k <= |lines|
    ensures forall j :: 0 <= j < k ==> !Classify(lines[j]).Data?
    ensures k < n && k < |lines| ==> Classify(lines[k]).Data?
    decreases n
  {
    if n == 0 || lines == [] || Classify(lines[0]).Data? then 0 else 1 + HeadLength(lines[1..], n - 1)
  }

  /** The line is read, and does not name another database after d. */
  predicate Fits(d: string, line: string)
    requires Named(line)
  {
    NameIn(line).Ok? && (d == "" || NameIn(line).value == d)
  }

  /** After the name d, no line of the head is unreadable and no name is followed
  by a different one. */
  ghost predicate NamesAgree(head: seq<string>, d: string) {
    && (forall j :: 0 <= j < |head| && Named(head[j]) ==> Fits(d, head[j]))
    && forall i, j :: 0 <= i < j < |head| && Named(head[i]) && Named(head[j]) ==> Fits(NameIn(head[i]).value, head[j])
  }

  /** The scanner has met no error of its reader when the scan ends. */
  predicate EndsWell(lines: seq<string>, end: Ending, n: nat) {
    var k := HeadLength(lines, n);
    k < |lines| || end == AtEnd || (k == n && end == FailsAfter)
  }

  lemma NamesAgreeStep(line: string, tail: seq<string>, d: string)
    ensures !Named(line) ==> (NamesAgree([line] + tail, d) <==> NamesAgree(tail, d))
    ensures Named(line) && Fits(d, line) ==> (NamesAgree([line] + tail, d) <==> NamesAgree(tail, NameIn(line).value))
    ensures Named(line) && !Fits(d, line) ==> !NamesAgree([line] + tail, d)
  {
    hide Named, NameIn;
    var head := [line] + tail;
    assert head[0] == line && forall j :: 0 <= j < |tail| ==> tail[j] == head[j + 1];
    if NamesAgree(tail, d) && !Named(line) {
      assert NamesAgree(head, d);
    }
    if Named(line) && Fits(d, line) && NamesAgree(tail, NameIn(line).value) {
      assert NamesAgree(head, d);
    }
  }

  /** The database is the one non-empty name of the head, after d. */
  ghost predicate IsTheName(head: seq<string>, d: string, db: string) {
    && (d == "" || d == db)
    && (forall j :: 0 <= j < |head| && Named(head[j]) ==> NameIn(head[j]) == Ok("") || NameIn(head[j]) == Ok(db))
    && (db == d || exists j :: 0 <= j < |head| && Named(head[j]) && NameIn(head[j]) == Ok(db))
  }

  ghost predicate HasRestrict(head: seq<string>) {
    exists j :: 0 <= j < |head| && Classify(head[j]).Restrict?
  }

  lemma NoteMeaning(h: DumpHeader, line: string)
    requires !Classify(line).Data?
    ensures var next := Note(h, Classify(line));
      && (next.Ok? <==> !Named(line) || Fits(h.database, line))
      && (next.Ok? ==> next.value.database == if Named(line) then NameIn(line).value else h.database)
      && (next.Ok? ==> (next.value.restrict <==> h.restrict || Classify(line).Restrict?))
  {
    hide Classify;
  }

  lemma IsTheNameStep(line: string, tail: seq<string>, d: string, db: string)
    requires Named(line) ==> Fits(d, line)
    requires IsTheName(tail, if Named(line) then NameIn(line).value else d, db)
    ensures IsTheName([line] + tail, d, db)
  {
    hide Named, NameIn;
    var head := [line] + tail;
    assert head[0] == line && forall j :: 0 <= j < |tail| ==> tail[j] == head[j + 1];
  }

  lemma HasRestrictStep(line: string, tail: seq<string>)
    ensures HasRestrict([line] + tail) <==> Classify(line).Restrict? || HasRestrict(tail)
  {
    hide Classify;
    var head := [line] + tail;
    assert head[0] == line && forall j :: 0 <= j < |tail| ==> tail[j] == head[j + 1];
  }

  lemma {:induction false} ScanFromMeaning(lines: seq<string>, end: Ending, n: nat, h: DumpHeader)
    ensures var head, r := lines[..HeadLength(lines, n)], ScanFrom(lines, end, n, h);
      && (r.Ok? <==> NamesAgree(head, h.database) && EndsWell(lines, end, n))
      && (r.Ok? ==> IsTheName(head, h.database, r.value.database))
      && (r.Ok? ==> (r.value.restrict <==> h.restrict || HasRestrict(head)))
    decreases n
  {
    hide Classify, Named, Fits, NamesAgree, IsTheName, HasRestrict, ScanFrom;
    var k := HeadLength(lines, n);
    ScanStep(lines, end, n, h);
    if k == 0 {
      EmptyHead(h.database);
      assert lines[..0] == [];
    } else {
      var line, tail := lines[0], lines[1..][..k - 1];
      assert lines[..k] == [line] + tail;
      NoteMeaning(h, line);
      NamesAgreeStep(line, tail, h.database);
      HasRestrictStep(line, tail);
      var next := Note(h, Classify(line));
      if next.Ok? {
        ScanFromMeaning(lines[1..], end, n - 1, next.value);
        if ScanFrom(lines, end, n, h).Ok? {
          IsTheNameStep(line, tail, h.database, ScanFrom(lines, end, n, h).value.database);
        }
      }
    }
  }

  lemma EmptyHead(d: string)
    ensures NamesAgree([], d) && IsTheName([], d, d) && !HasRestrict([])
  {
  }

  /** The scan succeeds exactly when the head is read, no name in it is followed by
  a different one, and the reader did not fail on the way. Then the database is
  the one non-empty name of the CREATE DATABASE and \connect lines before the
  first table, "" without one, and Restrict says whether there is such a line. */
  lemma HeaderMeaning(s: Stream)
    ensures var scan := ScanLines(s.text, s.broken);
      var head := scan.lines[..HeadLength(scan.lines, HeaderLines)];
      && (HeaderOf(s).Ok? <==> NamesAgree(head, "") && EndsWell(scan.lines, scan.end, HeaderLines))
      && (HeaderOf(s).Ok? ==> IsTheName(head, "", HeaderOf(s).value.database))
      && (HeaderOf(s).Ok? ==> (HeaderOf(s).value.restrict <==> HasRestrict(head)))
  {
    hide NamesAgree, IsTheName, HasRestrict, ScanFrom, EndsWell, HeadLength, ScanLines;
    var scan := ScanLines(s.text, s.broken);
    ScanFromMeaning(scan.lines, scan.end, HeaderLines, NoHeader);
  }

  // ----- the edit -----

  /** The edit of the lines left, of which at most n are read, after head. */
  function EditFrom(lines: seq<string>, broken: bool, n: nat, db: string, head: string): Result<string, DumpError>
    requires lines != []
    decreases n
  {
    if n == 0 then Err(NoCreate)
    else if |lines| == 1 && broken then Err(ReadFailed)
    else
      var line := Classify(lines[0]);
      if line.Create? && line.target.Err? then Err(line.target.error)
      else if Creates(lines[0], db) then
        if EndsStatement(lines[0]) then Ok(head + Concat(lines[1..])) else Err(Continues)
      else if line.Data? || |lines| == 1 then Err(NoCreate)
      else EditFrom(lines[1..], broken, n - 1, db, head + lines[0])
  }

  /** The dump without its CREATE DATABASE statement for db. */
  function Edited(s: Stream, db: string): Result<string, DumpError> {
    EditFrom(RawLines(s.text), s.broken, HeaderLines, db, "")
  }

  method WithoutCreateDatabase(s: Stream, db: string) returns (r: Result<Stream, DumpError>)
    ensures r == match Edited(s, db)
                 case Ok(text) => Ok(Stream(text, s.broken))
                 case Err(e) => Err(e)
  {
    hide Classify, EndsStatement, RawLines, EditFrom;
    var rest, head := s.text, "";
    var n := 0;
    while n < HeaderLines
      invariant 0 <= n <= HeaderLines
      invariant EditFrom(RawLines(rest), s.broken, HeaderLines - n, db, head) == Edited(s, db)
    {
      RawLinesStep(rest);
      EditStep(RawLines(rest), s.broken, HeaderLines - n, db, head);
      var i := IndexOf(rest, '\n');
      var eof := i == |rest|;
      if eof && s.broken {
        return Err(ReadFailed);
      }
      var line := if eof then rest else rest[..i + 1];
      rest := if eof then "" else rest[i + 1..];
      var kind := Classify(line);
      if kind.Create? {
        if kind.target.Err? {
          return Err(kind.target.error);
        }
        if kind.target.value == db {
          if !EndsStatement(line) {
            return Err(Continues);
          }
          RawLinesJoin(rest);
          if eof {
            assert Concat([]) == rest;
          }
          return Ok(Stream(head + rest, s.broken));
        }
      }
      if kind.Data? || eof {
        return Err(NoCreate);
      }
      head := head + line;
      n := n + 1;
    }
    EditExhausted(RawLines(rest), s.broken, db, head);
    return Err(NoCreate);
  }

  lemma EditExhausted(lines: seq<string>, broken: bool, db: string, head: string)
    requires lines != []
    ensures EditFrom(lines, broken, 0, db, head) == Err(NoCreate)
  {
  }

  lemma EditStep(lines: seq<string>, broken: bool, n: nat, db: string, head: string)
    requires lines != [] && n > 0
    ensures var kind := Classify(lines[0]);
      EditFrom(lines, broken, n, db, head) ==
        if |lines| == 1 && broken then Err(ReadFailed)
        else if kind.Create? && kind.target.Err? then Err(kind.target.error)
        else if kind.Create? && kind.target.value == db then
          if EndsStatement(lines[0]) then Ok(head + Concat(lines[1..])) else Err(Continues)
        else if kind.Data? || |lines| == 1 then Err(NoCreate)
        else EditFrom(lines[1..], broken, n - 1, db, head + lines[0])
  {
    hide Classify, EndsStatement;
  }

  lemma RawLinesStep(s: string)
    ensures var i := IndexOf(s, '\n');
      RawLines(s) == if i == |s| then [s] else [s[..i + 1]] + RawLines(s[i + 1..])
    ensures IndexOf(s, '\n') < |s| ==> RawLines(s)[1..] == RawLines(s[IndexOf(s, '\n') + 1..])
  {
    hide IndexOf;
    var i := IndexOf(s, '\n');
    if i < |s| {
      TailOfCons(s[..i + 1], RawLines(s[i + 1..]));
    }
  }

  lemma TailOfCons(x: string, y: seq<string>)
    ensures ([x] + y)[1..] == y
  {
  }

  lemma {:induction false} RawLinesJoin(s: string)
    ensures Concat(RawLines(s)) == s
    decreases |s|
  {
    hide RawLines, IndexOf;
    var i := IndexOf(s, '\n');
    RawLinesStep(s);
    if i < |s| {
      RawLinesJoin(s[i + 1..]);
      assert s[..i + 1] + s[i + 1..] == s;
    } else {
      assert [s][1..] == [];
    }
  }

  /** Line k is the one to take out: the first that creates db, on one line,
  within the header, and no line before it starts a table. */
  ghost predicate TakenOut(s: Stream, db: string, k: nat) {
    var lines := RawLines(s.text);
    && k < HeaderLines && k < |lines| && (s.broken ==> k < |lines| - 1)
    && Creates(lines[k], db) && EndsStatement(lines[k])
    && forall j :: 0 <= j < k ==> PassedOver(lines[j], db)
  }

  /** The edit goes past the line. */
  predicate PassedOver(line: string, db: string) {
    var kind := Classify(line);
    !kind.Data? && (kind.Create? ==> kind.target.Ok? && kind.target.value != db)
  }

  lemma {:induction false} EditFromMeaning(lines: seq<string>, broken: bool, n: nat, db: string, head: string) returns (k: nat)
    requires lines != [] && EditFrom(lines, broken, n, db, head).Ok?
    ensures k < n && k < |lines| && (broken ==> k < |lines| - 1)
    ensures Creates(lines[k], db) && EndsStatement(lines[k])
    ensures forall j :: 0 <= j < k ==> PassedOver(lines[j], db)
    ensures EditFrom(lines, broken, n, db, head).value == head + Concat(lines[..k]) + Concat(lines[k + 1..])
    decreases n
  {
    hide Classify, EndsStatement;
    if Creates(lines[0], db) {
      assert lines[..0] == [];
      return 0;
    }
    k := EditFromMeaning(lines[1..], broken, n - 1, db, head + lines[0]);
    k := k + 1;
    assert lines[1..][..k - 1] == lines[1..k] && lines[1..][k..] == lines[k + 1..];
    assert lines[..k][1..] == lines[1..k];
    assert head + lines[0] + Concat(lines[1..k]) == head + (lines[0] + Concat(lines[1..k]));
  }

  lemma {:induction false} EditFromSucceeds(lines: seq<string>, broken: bool, n: nat, db: string, head: string, k: nat)
    requires k < n && k < |lines| && (broken ==> k < |lines| - 1)
    requires Creates(lines[k], db) && EndsStatement(lines[k])
    requires forall j :: 0 <= j < k ==> PassedOver(lines[j], db)
    ensures EditFrom(lines, broken, n, db, head).Ok?
    decreases k
  {
    hide Classify, EndsStatement;
    if k > 0 {
      EditFromSucceeds(lines[1..], broken, n - 1, db, head + lines[0], k - 1);
    }
  }

  lemma {:induction false} ConcatSplit(lines: seq<string>, k: nat)
    requires k <= |lines|
    ensures Concat(lines) == Concat(lines[..k]) + Concat(lines[k..])
  {
    if k == 0 {
      assert lines[..0] == [] && lines[0..] == lines;
    } else {
      ConcatSplit(lines[1..], k - 1);
      assert lines[1..][..k - 1] == lines[..k][1..] && lines[1..][k - 1..] == lines[k..];
    }
  }

  /** The edit succeeds exactly when there is a line to take out, and then it
  removes that line and nothing else. */
  lemma EditRemovesOneLine(s: Stream, db: string)
    ensures Edited(s, db).Ok? <==> exists k: nat :: TakenOut(s, db, k)
    ensures forall k: nat :: TakenOut(s, db, k) ==>
      var lines := RawLines(s.text);
      && s.text == Concat(lines[..k]) + lines[k] + Concat(lines[k + 1..])
      && Edited(s, db) == Ok(Concat(lines[..k]) + Concat(lines[k + 1..]))
  {
    hide Classify, EndsStatement, EditFrom, RawLines;
    var lines := RawLines(s.text);
    if Edited(s, db).Ok? {
      var k := EditFromMeaning(lines, s.broken, HeaderLines, db, "");
      assert TakenOut(s, db, k);
    }
    forall k: nat | TakenOut(s, db, k)
      ensures s.text == Concat(lines[..k]) + lines[k] + Concat(lines[k + 1..])
      ensures Edited(s, db) == Ok(Concat(lines[..k]) + Concat(lines[k + 1..]))
    {
      EditFromSucceeds(lines, s.broken, HeaderLines, db, "", k);
      var j := EditFromMeaning(lines, s.broken, HeaderLines, db, "");
      assert TakenOut(s, db, j);
      OneTakenOut(s, db, k, j);
      assert "" + Concat(lines[..k]) == Concat(lines[..k]);
      RawLinesJoin(s.text);
      ConcatSplit(lines, k);
      assert lines[k..][1..] == lines[k + 1..];
    }
  }

  lemma OneTakenOut(s: Stream, db: string, k: nat, j: nat)
    requires TakenOut(s, db, k) && TakenOut(s, db, j)
    ensures k == j
  {
    hide Classify, EndsStatement, RawLines;
    CreatesIsNotPassed(RawLines(s.text)[k], db);
    CreatesIsNotPassed(RawLines(s.text)[j], db);
  }

  lemma CreatesIsNotPassed(line: string, db: string)
    requires Creates(line, db)
    ensures !PassedOver(line, db)
  {
    hide Classify;
  }

  // ----- the scan and the edit agree -----

  /** The two line splitters show a line in the same way. */
  lemma ClassifySame(line: string)
    ensures Classify(line + "\n") == Classify(line) == Classify(DropCR(line))
  {
    TrimSpaceAppend(line, '\n');
    DropCRTrims(line);
  }

  /** Once a database is noted, the scan keeps it or fails. */
  lemma {:induction false} NotedStays(lines: seq<string>, end: Ending, n: nat, h: DumpHeader)
    requires h.database != ""
    ensures var r := ScanFrom(lines, end, n, h);
      r.Err? || r.value.database == h.database
    decreases n
  {
    hide Classify;
    if n > 0 && lines != [] && !Classify(lines[0]).Data? && Note(h, Classify(lines[0])).Ok? {
      NotedStays(lines[1..], end, n - 1, Note(h, Classify(lines[0])).value);
    }
  }

  /** The part of the agreement that looks at one line. */
  lemma AgreeOnLine(line: string, lines: seq<string>, end: Ending, n: nat, db: string, h: DumpHeader)
    requires n > 0 && lines != [] && Classify(lines[0]) == Classify(line) && db != ""
    requires Creates(line, db) || PassedOver(line, db)
    requires !Creates(line, db) && Note(h, Classify(line)).Ok? ==>
      var r := ScanFrom(lines[1..], end, n - 1, Note(h, Classify(line)).value);
      r.Err? || r.value.database == db
    ensures var r := ScanFrom(lines, end, n, h); r.Err? || r.value.database == db
  {
    hide Classify, ScanFrom;
    if Creates(line, db) {
      NoteCreate(lines, end, n, h, db);
    } else {
      ScanStep(lines, end, n, h);
    }
  }

  lemma EditLooksAt(lines: seq<string>, broken: bool, n: nat, db: string, head: string)
    requires lines != [] && EditFrom(lines, broken, n, db, head).Ok?
    ensures n > 0 && (Creates(lines[0], db) || PassedOver(lines[0], db))
    ensures Creates(lines[0], db) || (|lines| > 1 && EditFrom(lines[1..], broken, n - 1, db, head + lines[0]).Ok?)
  {
    hide Classify, EndsStatement;
  }

  lemma {:induction false} ScanSeesTheCreate(text: string, broken: bool, n: nat, db: string, head: string, h: DumpHeader)
    requires db != "" && EditFrom(RawLines(text), broken, n, db, head).Ok?
    ensures var scan := ScanLines(text, broken);
      var r := ScanFrom(scan.lines, scan.end, n, h);
      r.Err? || r.value.database == db
    decreases n
  {
    hide Classify, EndsStatement, ScanFrom, ScanLines, EditFrom, RawLines, PassedOver, Note, Creates;
    var i := IndexOf(text, '\n');
    var line := text[..i];
    RawLinesStep(text);
    EditLooksAt(RawLines(text), broken, n, db, head);
    ClassifySame(line);
    ScanTooLong(n, h);
    var scan := ScanLines(text, broken);
    if i == |text| {
      assert line == text;
      ScanLast(text, broken);
      CreateIsNotEmpty(text, db);
      if |text| < MaxToken {
        AgreeOnLine(text, scan.lines, scan.end, n, db, h);
      }
    } else {
      var rest := text[i + 1..];
      assert text == text[..i + 1] + rest && text[..i + 1] == line + "\n";
      ScanLine(line, rest, broken);
      if |line| < MaxToken {
        assert scan.lines[1..] == ScanLines(rest, broken).lines;
        if !Creates(text[..i + 1], db) && Note(h, Classify(line)).Ok? {
          ScanSeesTheCreate(rest, broken, n - 1, db, head + text[..i + 1], Note(h, Classify(line)).value);
        }
        AgreeOnLine(text[..i + 1], scan.lines, scan.end, n, db, h);
      }
    }
  }

  lemma ScanTooLong(n: nat, h: DumpHeader)
    ensures n > 0 ==> ScanFrom([], FailsAfter, n, h) == Err(ReadFailed)
  {
  }

  lemma CreateIsNotEmpty(line: string, db: string)
    ensures Creates(line, db) ==> line != ""
  {
  }

  lemma ScanStep(lines: seq<string>, end: Ending, n: nat, h: DumpHeader)
    ensures n > 0 && lines == [] ==> ScanFrom(lines, end, n, h) == if end == AtEnd then Ok(h) else Err(ReadFailed)
    ensures n == 0 ==>
      ScanFrom(lines, end, n, h) == if lines == [] && end == FailsInLast then Err(ReadFailed) else Ok(h)
    ensures n > 0 && lines != [] && Classify(lines[0]).Data? ==> ScanFrom(lines, end, n, h) == Ok(h)
    ensures n > 0 && lines != [] && !Classify(lines[0]).Data? ==>
      ScanFrom(lines, end, n, h) ==
        match Note(h, Classify(lines[0]))
        case Err(e) => Err(e)
        case Ok(next) => ScanFrom(lines[1..], end, n - 1, next)
  {
    hide Classify;
  }

  lemma NoteCreate(lines: seq<string>, end: Ending, n: nat, h: DumpHeader, db: string)
    requires n > 0 && lines != [] && db != "" && Creates(lines[0], db)
    ensures var r := ScanFrom(lines, end, n, h);
      r.Err? || r.value.database == db
  {
    hide Classify;
    if SetDatabase(h, db).Ok? {
      NotedStays(lines[1..], end, n - 1, SetDatabase(h, db).value);
    }
  }

  /** If the edit succeeds for a database, the scan rejects the dump or names that
  database. */
  lemma ScanAgreesWithEdit(s: Stream, db: string)
    requires db != "" && Edited(s, db).Ok?
    ensures HeaderOf(s).Err? || HeaderOf(s).value.database == db
  {
    hide Classify, EditFrom, ScanFrom, ScanLines, RawLines;
    ScanSeesTheCreate(s.text, s.broken, HeaderLines, db, "", NoHeader);
  }
}
