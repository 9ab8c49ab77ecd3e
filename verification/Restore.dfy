/** The restore of a dump: the decision at the end of runArchive in
cmd/archive.go, and the edit that lets a dump restore into a database that is
there and empty. */
module Restore {
  import opened GoText
  import opened Dump
  import opened PsqlRun
  import Provider

  // ----- dumps of pg_dump --create -----

  /** The parts of a dump: session statements, CREATE DATABASE, session statements,
  \connect, and what restores the contents. */
  datatype Shape = Shape(pre: seq<string>, create: string, mid: seq<string>, connect: string, body: seq<string>)

  /** The text has these parts, and the scan passes over the lines before CREATE
  DATABASE. */
  ghost predicate Formed(text: string, db: string, d: Shape) {
    && InputLines(text) == d.pre + [d.create] + (d.mid + [d.connect] + d.body)
    && (forall l :: l in d.pre ==> !Named(l))
    && Creates(d.create, db) && EndsStatement(d.create)
    && Classify(d.connect) == Connect(Ok(db))
  }

  /** What the parts do: the first two keep the server, and do the same whether or
  not db exists; the body changes db only, from everything that looks empty. */
  ghost predicate Restores<S(!new), C(!new)>(p: Psql<S, C>, pre: seq<string>, mid: seq<string>, body: seq<string>, db: string) {
    && Preface(p, pre, p.first) && IgnoresDatabase(p, pre, p.first, db)
    && (forall s :: !p.pending(s) ==> Preface(p, mid, s))
    && p.looksEmpty(p.empty)
    && forall s, server: Server<C> :: db in server && p.looksEmpty(server[db]) ==> StaysOn(p, body, p.reconnect(s), server, db)
  }

  ghost predicate Shaped<S(!new), C(!new)>(p: Psql<S, C>, text: string, db: string, d: Shape) {
    Formed(text, db, d) && Restores(p, d.pre, d.mid, d.body, db)
  }

  // ----- the runs, part by part -----

  /** Everything after the CREATE DATABASE statement, when db exists and looks
  empty: only db changes. */
  lemma RunTail<S(!new), C(!new)>(
      p: Psql<S, C>, text: string, db: string, d: Shape, conn: string, s: S, server: Server<C>)
    requires Shaped(p, text, db, d) && conn in server && db in server && p.looksEmpty(server[db]) && !p.pending(s)
    ensures var after := SessionAfter(p, d.mid, s, conn, server);
      Run(p, d.mid + [d.connect] + d.body, conn, s, server) ==
        if after.None? then Outcome(server, false) else Run(p, d.body, db, p.reconnect(after.value), server)
    ensures OnlyIn(server, Run(p, d.mid + [d.connect] + d.body, conn, s, server).server, db)
  {
    hide Classify, EndsStatement, StaysOn, InputLines, KeepsOver, Run, SessionAfter;
    var rest := [d.connect] + d.body;
    assert d.mid + [d.connect] + d.body == d.mid + rest;
    RunSession(p, d.mid, rest, conn, s, server);
    var after := SessionAfter(p, d.mid, s, conn, server);
    if after.Some? {
      ConnectIsSwitch(d.connect, db);
      RunSwitch(p, d.connect, d.body, db, conn, after.value, server);
      RunStays(p, d.body, p.reconnect(after.value), server, db);
    }
  }

  /** A dump whose session statements are followed by CREATE DATABASE for a database
  that exists, and then by anything: the load stops there and changes nothing. */
  lemma LoadStopsAtCreate<S(!new), C(!new)>(p: Psql<S, C>, text: string, db: string, pre: seq<string>, create: string,
                                          rest: seq<string>, conn: string, server: Server<C>)
    requires InputLines(text) == pre + [create] + rest && Creates(create, db) && EndsStatement(create)
    requires Preface(p, pre, p.first)
    requires db in server
    ensures Load(p, text, conn, server) == Outcome(server, false)
  {
    hide Classify, EndsStatement, InputLines, KeepsOver, Run, SessionAfter;
    assert pre + [create] + rest == pre + ([create] + rest);
    if conn in server {
      RunSession(p, pre, [create] + rest, conn, p.first, server);
      var after := SessionAfter(p, pre, p.first, conn, server);
      if after.Some? {
        RunCreate(p, create, rest, db, conn, after.value, server);
      }
    }
  }

  lemma ShapedIsFormed<S(!new), C(!new)>(p: Psql<S, C>, text: string, db: string, d: Shape)
    requires Shaped(p, text, db, d)
    ensures Formed(text, db, d)
  {
  }

  lemma NewLooksEmpty<S(!new), C(!new)>(p: Psql<S, C>, text: string, db: string, d: Shape)
    requires Shaped(p, text, db, d)
    ensures p.looksEmpty(p.empty)
  {
  }

  /** A plain load of a shaped dump. */
  lemma LoadShaped<S(!new), C(!new)>(p: Psql<S, C>, text: string, db: string, d: Shape, conn: string, server: Server<C>)
    requires Shaped(p, text, db, d) && conn in server
    ensures var after := SessionAfter(p, d.pre, p.first, conn, server);
      && (after.None? || db in server ==> Load(p, text, conn, server) == Outcome(server, false))
      && (after.Some? ==> !p.pending(after.value))
      && (after.Some? && db !in server ==>
          Load(p, text, conn, server) == Run(p, d.mid + [d.connect] + d.body, conn, after.value, server[db := p.empty]))
  {
    hide Classify, EndsStatement, StaysOn, InputLines, KeepsOver, Run, SessionAfter;
    var tail := d.mid + [d.connect] + d.body;
    assert d.pre + [d.create] + tail == d.pre + ([d.create] + tail);
    RunSession(p, d.pre, [d.create] + tail, conn, p.first, server);
    var after := SessionAfter(p, d.pre, p.first, conn, server);
    if after.Some? {
      RunCreate(p, d.create, tail, db, conn, after.value, server);
    }
  }

  /** A load of a text with the same lines but the CREATE DATABASE statement. */
  lemma LoadEdited<S(!new), C(!new)>(
      p: Psql<S, C>, text: string, edited: string, db: string, d: Shape, conn: string, server: Server<C>)
    requires Shaped(p, text, db, d) && conn in server
    requires InputLines(edited) == d.pre + (d.mid + [d.connect] + d.body)
    ensures var after := SessionAfter(p, d.pre, p.first, conn, server);
      && (after.None? ==> Load(p, edited, conn, server) == Outcome(server, false))
      && (after.Some? ==> !p.pending(after.value))
      && (after.Some? ==>
          Load(p, edited, conn, server) == Run(p, d.mid + [d.connect] + d.body, conn, after.value, server))
  {
    hide Classify, EndsStatement, StaysOn, InputLines, KeepsOver, Run, SessionAfter;
    RunSession(p, d.pre, d.mid + [d.connect] + d.body, conn, p.first, server);
  }

  // ----- the edit finds the statement -----

  /** The lines of a text: a newline ends each line but the last, and is nowhere
  else. */
  ghost predicate ProperLines(lines: seq<string>) {
    && lines != []
    && (forall j :: 0 <= j < |lines| - 1 ==> IsLine(lines[j]))
    && '\n' !in lines[|lines| - 1]
  }

  predicate IsLine(line: string) {
    line != "" && line[|line| - 1] == '\n' && '\n' !in line[..|line| - 1]
  }

  lemma {:induction false} RawLinesProper(text: string)
    ensures ProperLines(RawLines(text))
    decreases |text|
  {
    hide RawLines;
    var i := IndexOf(text, '\n');
    RawLinesStep(text);
    if i < |text| {
      RawLinesProper(text[i + 1..]);
      var rest := RawLines(text[i + 1..]);
      assert IsLine(text[..i + 1]) by {
        assert text[..i + 1][..i] == text[..i];
      }
      var lines := [text[..i + 1]] + rest;
      forall j | 0 <= j < |lines| - 1 ensures IsLine(lines[j]) {
        assert j > 0 ==> lines[j] == rest[j - 1];
      }
    }
  }

  lemma {:induction false} ProperLinesRead(lines: seq<string>)
    requires ProperLines(lines)
    ensures RawLines(Concat(lines)) == lines
    decreases |lines|
  {
    hide RawLines, IndexOf, Concat, IsLine;
    ConcatFirst(lines);
    if |lines| == 1 {
      RawLinesStep(lines[0]);
      assert lines == [lines[0]];
    } else {
      forall j | 0 <= j < |lines[1..]| - 1 ensures IsLine(lines[1..][j]) {
        assert lines[1..][j] == lines[j + 1];
      }
      ProperLinesRead(lines[1..]);
      FirstLineRead(lines[0], Concat(lines[1..]));
      assert lines == [lines[0]] + lines[1..];
    }
  }

  lemma ConcatFirst(lines: seq<string>)
    requires lines != []
    ensures Concat(lines) == if |lines| == 1 then lines[0] else lines[0] + Concat(lines[1..])
  {
    if |lines| == 1 {
      assert lines[1..] == [] && lines[0] + "" == lines[0];
    }
  }

  lemma FirstLineRead(line: string, rest: string)
    requires IsLine(line)
    ensures RawLines(line + rest) == [line] + RawLines(rest)
  {
    hide RawLines;
    var head := line[..|line| - 1];
    assert line == head + ['\n'];
    FirstHeadRead(head, rest);
  }

  lemma FirstHeadRead(head: string, rest: string)
    requires '\n' !in head
    ensures RawLines(head + ['\n'] + rest) == [head + ['\n']] + RawLines(rest)
  {
    hide RawLines, IndexOf;
    var line := head + ['\n'];
    RawLinesStep(line + rest);
    IndexOfAt(head, '\n', rest);
    StartIsRead(line, rest);
  }

  lemma ConcatAppend(x: seq<string>, y: seq<string>)
    ensures Concat(x + y) == Concat(x) + Concat(y)
  {
    ConcatSplit(x + y, |x|);
    assert (x + y)[..|x|] == x && (x + y)[|x|..] == y;
  }

  /** Taking out line k of a text, before its last line, takes out input line k. */
  lemma InputLinesWithout(text: string, k: nat, edited: string)
    requires k < |RawLines(text)| - 1
    requires edited == Concat(RawLines(text)[..k]) + Concat(RawLines(text)[k + 1..])
    ensures k < |InputLines(text)|
    ensures InputLines(edited) == InputLines(text)[..k] + InputLines(text)[k + 1..]
  {
    hide RawLines, Concat, ProperLines;
    var lines := RawLines(text);
    var fewer := lines[..k] + lines[k + 1..];
    RawLinesProper(text);
    FewerProper(lines, k);
    ConcatAppend(lines[..k], lines[k + 1..]);
    ProperLinesRead(fewer);
    assert fewer[|fewer| - 1] == lines[|lines| - 1];
    if lines[|lines| - 1] == "" {
      var input := lines[..|lines| - 1];
      assert fewer[..|fewer| - 1] == input[..k] + input[k + 1..];
    }
  }

  lemma FewerProper(lines: seq<string>, k: nat)
    requires ProperLines(lines) && k < |lines| - 1
    ensures ProperLines(lines[..k] + lines[k + 1..])
  {
    hide IsLine;
    var fewer := lines[..k] + lines[k + 1..];
    forall j | 0 <= j < |fewer| - 1 ensures IsLine(fewer[j]) {
      assert fewer[j] == if j < k then lines[j] else lines[j + 1];
    }
    assert fewer[|fewer| - 1] == lines[|lines| - 1];
  }

  /** The scan of what is left of a text names a database. */
  ghost predicate ScanNames(text: string, broken: bool, n: nat, h: DumpHeader) {
    var scan := ScanLines(text, broken);
    var r := ScanFrom(scan.lines, scan.end, n, h);
    r.Ok? && r.value.database != ""
  }

  lemma ScanReachesNext(text: string, broken: bool, n: nat, h: DumpHeader) returns (rest: string, next: DumpHeader)
    requires |RawLines(text)| > 1 && h.database == "" && ScanNames(text, broken, n, h)
    requires !Classify(RawLines(text)[0]).Create? && !Classify(RawLines(text)[0]).Connect?
    ensures n > 0 && RawLines(text) == [RawLines(text)[0]] + RawLines(rest) && |rest| < |text|
    ensures !Classify(RawLines(text)[0]).Data? && next.database == "" && ScanNames(rest, broken, n - 1, next)
  {
    hide Classify, ScanFrom, ScanLines, RawLines;
    var i := IndexOf(text, '\n');
    var scan := ScanLines(text, broken);
    RawLinesStep(text);
    ScanStep(scan.lines, scan.end, n, h);
    var line := text[..i];
    rest := text[i + 1..];
    assert text == text[..i + 1] + rest && text[..i + 1] == line + "\n";
    ScanLine(line, rest, broken);
    ClassifySame(line);
    assert RawLines(text)[0] == line + "\n";
    ScanTooLong(n, h);
    assert scan.lines[1..] == ScanLines(rest, broken).lines;
    next := Note(h, Classify(line)).value;
  }

  /** A scan that names a database has read past every line before the first that
  names one. */
  lemma {:induction false} ScanReaches(text: string, broken: bool, n: nat, k: nat, h: DumpHeader)
    requires k < |RawLines(text)| && h.database == "" && ScanNames(text, broken, n, h)
    requires forall j :: 0 <= j < k ==> !Classify(RawLines(text)[j]).Create? && !Classify(RawLines(text)[j]).Connect?
    ensures k < n && forall j :: 0 <= j < k ==> !Classify(RawLines(text)[j]).Data?
    decreases k
  {
    hide Classify, ScanFrom, ScanLines, RawLines;
    if k > 0 {
      hide ScanNames;
      var rest, next := ScanReachesNext(text, broken, n, h);
      assert forall j :: 0 <= j < k - 1 ==> RawLines(rest)[j] == RawLines(text)[j + 1];
      ScanReaches(rest, broken, n - 1, k - 1, next);
      forall j | 0 <= j < k ensures !Classify(RawLines(text)[j]).Data? {
        assert j > 0 ==> RawLines(text)[j] == RawLines(rest)[j - 1];
      }
    } else {
      ScanStep(ScanLines(text, broken).lines, ScanLines(text, broken).end, n, h);
    }
  }

  /** For an accepted dump the edit succeeds, and leaves out exactly the CREATE
  DATABASE statement. */
  lemma AcceptedIsEditable(text: string, db: string, d: Shape)
    requires Formed(text, db, d) && db != ""
    requires HeaderOf(Stream(text, false)).Ok? && HeaderOf(Stream(text, false)).value.database == db
    ensures Edited(Stream(text, false), db).Ok?
    ensures InputLines(Edited(Stream(text, false), db).value) == d.pre + (d.mid + [d.connect] + d.body)
  {
    hide Classify, EndsStatement, RawLines, Edited, ScanFrom, ScanLines;
    var s, k := Stream(text, false), |d.pre|;
    var lines, input := RawLines(text), InputLines(text);
    var tail := d.mid + [d.connect] + d.body;
    assert forall j :: 0 <= j < |input| ==> lines[j] == input[j];
    assert input[k] == d.create;
    forall j | 0 <= j < k
      ensures !Classify(lines[j]).Create? && !Classify(lines[j]).Connect?
    {
      assert lines[j] == d.pre[j] && !Named(d.pre[j]);
    }
    ScanReaches(text, false, HeaderLines, k, NoHeader);
    assert TakenOut(s, db, k);
    EditRemovesOneLine(s, db);
    InputLinesWithout(text, k, Edited(s, db).value);
    assert input[..k] == d.pre && input[k + 1..] == tail;
  }

  // ----- what pg_dump --create writes has the shape -----

  function CreateLine(db: string, options: string): string {
    CreateDatabase + db + options + ";\n"
  }

  function ConnectLine(db: string): string {
    ConnectCommand + db + "\n"
  }

  lemma LowerIsFixed(s: string)
    requires forall i :: 0 <= i < |s| ==> LowerChar(s[i]) == s[i]
    ensures ToLower(s) == s
  {
    assert forall i :: 0 <= i < |s| ==> ToLower(s)[i] == s[i];
  }

  lemma CreateLineIsRead(db: string, options: string)
    requires Provider.PlainName(db) && (options == "" || options[0] == ' ')
    ensures Classify(CreateLine(db, options)) == Create(Ok(db)) && EndsStatement(CreateLine(db, options))
  {
    hide TrimSpace, Identifier;
    var t := CreateDatabase + db + options + ";";
    assert t[0] == 'C' && t[|t| - 1] == ';' && CreateLine(db, options) == t + "\n";
    TrimLine(t);
    assert t[..|CreateDatabase|] == CreateDatabase;
    assert t[3] == 'A' && t[1] == 'R' && t[7] == 'D';
    var rest := options + ";";
    assert t[|CreateDatabase|..] == db + rest;
    LowerIsFixed(db);
    IdentifierReadsPlain(db, rest);
  }

  lemma ConnectLineIsRead(db: string)
    requires Provider.PlainName(db)
    ensures Classify(ConnectLine(db)) == Connect(Ok(db))
  {
    hide TrimSpace, Identifier, ReusedName, Until;
    var t := ConnectCommand + db;
    assert t[0] == '\\' && t[1] == 'c' && t[|t| - 1] == db[|db| - 1];
    TrimLine(t);
    assert t[..|ConnectCommand|] == ConnectCommand && t[|ConnectCommand|..] == db;
    assert db[0] != '-' && db[0] != '"';
    UntilReads(db, "", {' ', '\t'});
    assert db + "" == db;
  }

  /** A dump with whole session statements before and after CREATE DATABASE and a
  body that stays on the database has the shape, for every plain name. */
  lemma PgDumpIsShaped<S(!new), C(!new)>(p: Psql<S, C>, pre: seq<string>, db: string, options: string,
                                         mid: seq<string>, body: seq<string>)
    requires Provider.PlainName(db) && '\n' !in options && (options == "" || options[0] == ' ')
    requires forall l :: l in pre + mid ==> SessionLine(p, l)
    requires forall l :: l in pre + mid + body ==> IsLine(l)
    requires !p.pending(p.first) && p.looksEmpty(p.empty)
    requires forall s, server: Server<C> :: db in server && p.looksEmpty(server[db]) ==> StaysOn(p, body, p.reconnect(s), server, db)
    ensures var d := Shape(pre, CreateLine(db, options), mid, ConnectLine(db), body);
      Shaped(p, Concat(pre + [d.create] + (mid + [d.connect] + body)), db, d)
  {
    hide Classify, EndsStatement, SessionLine, StaysOn, RawLines, Concat;
    CreateLineIsRead(db, options);
    ConnectLineIsRead(db);
    var d := Shape(pre, CreateLine(db, options), mid, ConnectLine(db), body);
    var lines := pre + [d.create] + (mid + [d.connect] + body);
    CommandLines(db, options);
    forall j | 0 <= j < |lines| ensures IsLine(lines[j]) {
      assert lines[j] in pre + mid + body || lines[j] == d.create || lines[j] == d.connect;
    }
    LinesAreRead(lines);
    assert forall l :: l in pre ==> l in pre + mid;
    assert forall l :: l in mid ==> l in pre + mid;
    SessionLinesArePreface(p, pre, p.first, db);
    forall s | !p.pending(s) ensures Preface(p, mid, s) {
      SessionLinesArePreface(p, mid, s, db);
    }
  }

  /** A text of whole lines is read as these lines. */
  lemma LinesAreRead(lines: seq<string>)
    requires forall j :: 0 <= j < |lines| ==> IsLine(lines[j])
    ensures InputLines(Concat(lines)) == lines
  {
    hide RawLines, Concat, IsLine;
    ProperLinesRead(lines + [""]);
    ConcatAppend(lines, [""]);
    ConcatNothing();
    assert Concat(lines) + "" == Concat(lines);
    assert (lines + [""])[..|lines|] == lines;
  }

  lemma ConcatNothing()
    ensures Concat([""]) == ""
  {
    assert [""][1..] == [];
  }

  lemma CommandLines(db: string, options: string)
    requires Provider.PlainName(db) && '\n' !in options
    ensures IsLine(CreateLine(db, options)) && IsLine(ConnectLine(db))
  {
    var x, y := CreateLine(db, options), ConnectLine(db);
    assert x[..|x| - 1] == CreateDatabase + db + options + ";";
    assert y[..|y| - 1] == ConnectCommand + db;
  }

  // ----- the edit preserves the meaning -----

  /** Loading the edited dump where the database exists and is empty ends as loading
  the dump where the database is absent: with the same success or error and the
  same contents of every database. */
  ghost predicate SameMeaning<S, C>(p: Psql<S, C>, text: string, db: string, conn: string, server: Server<C>) {
    var edited := Edited(Stream(text, false), db);
    edited.Ok? &&
    var plain, into := Load(p, text, conn, server), Load(p, edited.value, conn, server[db := p.empty]);
    && into.ok == plain.ok
    && into.server == plain.server[db := ContentsOf(p, plain.server, db)]
    && OnlyIn(server, into.server, db)
  }

  /** The edit preserves the meaning of every accepted dump of the shape. */
  lemma EditPreservesMeaning<S(!new), C(!new)>(
      p: Psql<S, C>, text: string, db: string, d: Shape, conn: string, server: Server<C>)
    requires Shaped(p, text, db, d) && db != ""
    requires HeaderOf(Stream(text, false)).Ok? && HeaderOf(Stream(text, false)).value.database == db
    requires conn in server && db !in server
    ensures SameMeaning(p, text, db, conn, server)
  {
    hide Formed, StaysOn, Edited, HeaderOf, Run, InputLines, SessionAfter, Load, KeepsOver;
    var there := server[db := p.empty];
    AcceptedIsEditable(text, db, d);
    var edited := Edited(Stream(text, false), db).value;
    LoadShaped(p, text, db, d, conn, server);
    LoadEdited(p, text, edited, db, d, conn, there);
    var after := SessionAfter(p, d.pre, p.first, conn, server);
    assert SameSession(p, d.pre, p.first, conn, server, db, p.empty);
    if after.Some? {
      RunTail(p, text, db, d, conn, after.value, there);
    }
  }

  // ----- the command -----

  /** A postgres URI: the database it names, and the rest. */
  datatype Uri = Uri(named: string, rest: string)

  datatype IfPresent = Import | Skip | Fail

  datatype RestoreError =
    | NoTarget
    | CannotTell
    | Present
    | FetchFailed
    | BadHeader(error: DumpError)
    | OtherDatabase(dump: string)
    | OldPsql
    | TuningFailed
    | ProbeFailed
    | EditFailed(error: DumpError)
    | LoadFailed

  datatype Done = Provisioned | Skipped

  /** What the run meets besides the server: whether the probe for an archive and,
  later, the probe for emptiness reach it, whether the tuning works, the psql
  version, and the SQL text that was fetched. */
  datatype Env = Env(detects: bool, probes: bool, tuning: bool, version: Option<(nat, nat)>, dump: Option<string>)

  /** uri itself when it names another database than db, else "postgres". */
  function MaintenanceUri(uri: Uri, db: string): Uri {
    if uri.named != "" && uri.named != db then uri else uri.(named := "postgres")
  }

  /** The maintenance URI leads to the target itself in one case only. */
  lemma MaintenanceAvoidsTarget(uri: Uri, db: string)
    ensures MaintenanceUri(uri, db).named == db <==> db == "postgres" && uri.named in {"", "postgres"}
    ensures MaintenanceUri(uri, db).named == AskedOf(uri, db) && MaintenanceUri(uri, db).rest == uri.rest
  {
  }

  /** The database a dump restores into, and where psql connects. */
  function RestoreTarget(database: string, uri: Uri): Option<(string, Uri)> {
    if database != "" then Some((database, MaintenanceUri(uri, database)))
    else if uri.named == "" then None
    else Some((uri.named, uri))
  }

  function SupportsRestrict(major: nat, minor: nat): bool {
    var since := map[13 := 22, 14 := 19, 15 := 14, 16 := 10, 17 := 6];
    major > 17 || (major in since && minor >= since[major])
  }

  /** The refusal of a dump before it is loaded, if any. */
  function CheckDump(text: string, database: string, version: Option<(nat, nat)>): Option<RestoreError> {
    match HeaderOf(Stream(text, false))
    case Err(e) => Some(BadHeader(e))
    case Ok(h) =>
      if h.database != database then Some(OtherDatabase(h.database))
      else if h.restrict && version.Some? && !SupportsRestrict(version.value.0, version.value.1) then Some(OldPsql)
      else None
  }

  /** Whether db exists and whether it looks empty, or None when that cannot be told. */
  function EmptyDatabase<S, C>(p: Psql<S, C>, reachable: bool, uri: Uri, db: string, server: Server<C>): Option<(bool, bool)> {
    if !reachable || MaintenanceUri(uri, db).named !in server then None
    else if db !in server then Some((false, false))
    else Some((true, p.looksEmpty(server[db])))
  }

  /** Whether db holds an archive: rows gives the size of its blocks table, if it
  has one. None when that cannot be told. */
  function DetectArchive<C>(rows: C -> Option<nat>, reachable: bool, uri: Uri, db: string, server: Server<C>): Option<bool> {
    if !reachable || MaintenanceUri(uri, db).named !in server then None
    else if db !in server then Some(false)
    else Some(rows(server[db]).Some? && rows(server[db]).value > 0)
  }

  /** What the run comes to: it ends without a load, or it loads a text. */
  datatype Plan = End(result: Result<Done, RestoreError>) | LoadText(text: string, conn: string)

  /** The decisions up to the load. */
  function Decide<S, C>(p: Psql<S, C>, rows: C -> Option<nat>, env: Env, ifPresent: IfPresent,
                        database: string, uri: Uri, server: Server<C>): Plan {
    var target := RestoreTarget(database, uri);
    if target.None? then End(Err(NoTarget))
    else
      var (db, connect) := target.value;
      var present := if ifPresent == Import then Some(false) else DetectArchive(rows, env.detects, uri, db, server);
      if present.None? then End(Err(CannotTell))
      else if present.value then End(if ifPresent == Skip then Ok(Skipped) else Err(Present))
      else if env.dump.None? then End(Err(FetchFailed))
      else
        var text := env.dump.value;
        var refusal := CheckDump(text, database, env.version);
        if refusal.Some? then End(Err(refusal.value))
        else if !env.tuning then End(Err(TuningFailed))
        else if database == "" then LoadText(text, connect.named)
        else
          match EmptyDatabase(p, env.probes, uri, db, server)
          case None => End(Err(ProbeFailed))
          case Some((exists_, empty)) =>
            if !(exists_ && empty) then LoadText(text, connect.named)
            else
              match Edited(Stream(text, false), db)
              case Ok(edited) => LoadText(edited, connect.named)
              case Err(e) => End(Err(EditFailed(e)))
  }

  /** The result of a plan and the server it leaves. */
  function Finish<S, C>(p: Psql<S, C>, plan: Plan, server: Server<C>): (Result<Done, RestoreError>, Server<C>) {
    match plan
    case End(r) => (r, server)
    case LoadText(text, conn) =>
      var o := Load(p, text, conn, server);
      (if o.ok then Ok(Provisioned) else Err(LoadFailed), o.server)
  }

  method RunArchive<S, C>(p: Psql<S, C>, rows: C -> Option<nat>, env: Env, ifPresent: IfPresent,
                          database: string, uri: Uri, cluster: Cluster<C>)
    returns (r: Result<Done, RestoreError>)
    modifies cluster
    ensures (r, cluster.dbs) ==
      Finish(p, Decide(p, rows, env, ifPresent, database, uri, old(cluster.dbs)), old(cluster.dbs))
  {
    hide Load, CheckDump, Edited;
    var target := RestoreTarget(database, uri);
    if target.None? {
      return Err(NoTarget);
    }
    var (db, connect) := target.value;
    if ifPresent != Import {
      var present := DetectArchive(rows, env.detects, uri, db, cluster.dbs);
      if present.None? {
        return Err(CannotTell);
      }
      if present.value {
        return if ifPresent == Skip then Ok(Skipped) else Err(Present);
      }
    }
    if env.dump.None? {
      return Err(FetchFailed);
    }
    var text := env.dump.value;
    var refusal := CheckDump(text, database, env.version);
    if refusal.Some? {
      return Err(refusal.value);
    }
    if !env.tuning {
      return Err(TuningFailed);
    }
    if database != "" {
      var probe := EmptyDatabase(p, env.probes, uri, db, cluster.dbs);
      if probe.None? {
        return Err(ProbeFailed);
      }
      if probe.value.0 && probe.value.1 {
        var edited := WithoutCreateDatabase(Stream(text, false), db);
        if edited.Err? {
          return Err(EditFailed(edited.error));
        }
        text := edited.value.text;
      }
    }
    var ok := LoadInto(p, text, connect.named, cluster);
    return if ok then Ok(Provisioned) else Err(LoadFailed);
  }

  // ----- what the command promises -----

  /** Only db can differ between the two servers. */
  ghost predicate OnlyChanges<C>(before: Server<C>, after: Server<C>, db: string) {
    forall x :: x != db ==> (x in before <==> x in after) && (x in before ==> before[x] == after[x])
  }

  lemma LoadChangesOnlyTarget<S(!new), C(!new)>(p: Psql<S, C>, text: string, db: string, d: Shape, conn: string, server: Server<C>)
    requires Shaped(p, text, db, d)
    ensures OnlyChanges(server, Load(p, text, conn, server).server, db)
    ensures db in server ==> Load(p, text, conn, server) == Outcome(server, false)
  {
    hide Shaped, Run, InputLines, SessionAfter;
    if conn in server {
      hide Load;
      LoadShaped(p, text, db, d, conn, server);
      var after := SessionAfter(p, d.pre, p.first, conn, server);
      if after.Some? && db !in server {
        NewLooksEmpty(p, text, db, d);
        RunTail(p, text, db, d, conn, after.value, server[db := p.empty]);
      }
    }
  }

  lemma EditedChangesOnlyTarget<S(!new), C(!new)>(p: Psql<S, C>, text: string, db: string, d: Shape, conn: string, server: Server<C>)
    requires Shaped(p, text, db, d) && db != "" && CheckDump(text, db, None).None?
    requires db in server && p.looksEmpty(server[db])
    ensures Edited(Stream(text, false), db).Ok?
    ensures OnlyChanges(server, Load(p, Edited(Stream(text, false), db).value, conn, server).server, db)
  {
    hide Shaped, Run, InputLines, SessionAfter, HeaderOf, Edited;
    ShapedIsFormed(p, text, db, d);
    AcceptedIsEditable(text, db, d);
    if conn in server {
      hide Load;
      LoadEdited(p, text, Edited(Stream(text, false), db).value, db, d, conn, server);
      var after := SessionAfter(p, d.pre, p.first, conn, server);
      if after.Some? {
        RunTail(p, text, db, d, conn, after.value, server);
      }
    }
  }

  lemma CheckIgnoresVersion(text: string, database: string, version: Option<(nat, nat)>)
    requires CheckDump(text, database, version).None?
    ensures CheckDump(text, database, None).None?
  {
    hide HeaderOf;
  }

  /** Restore safety, over every server and on every path: with a configured
  database and a dump of pg_dump --create shape, no other database changes, and
  a target that exists and does not look empty is left alone, with an error unless
  the run was asked to skip. */
  lemma RestoreIsSafe<S(!new), C(!new)>(p: Psql<S, C>, rows: C -> Option<nat>, env: Env, ifPresent: IfPresent,
                                           database: string, uri: Uri, server: Server<C>, d: Shape)
    requires database != ""
    requires env.dump.Some? ==> Shaped(p, env.dump.value, database, d)
    ensures var (r, after) := Finish(p, Decide(p, rows, env, ifPresent, database, uri, server), server);
      && OnlyChanges(server, after, database)
      && (database in server && !p.looksEmpty(server[database]) ==>
          after == server && (r.Err? || (r == Ok(Skipped) && ifPresent == Skip)))
  {
    hide Shaped, CheckDump, Edited, Load, OnlyChanges;
    Unchanged(server, database);
    var plan := Decide(p, rows, env, ifPresent, database, uri, server);
    if plan.LoadText? {
      var text, conn := env.dump.value, MaintenanceUri(uri, database).named;
      LoadChangesOnlyTarget(p, text, database, d, conn, server);
      if database in server && p.looksEmpty(server[database]) {
        CheckIgnoresVersion(text, database, env.version);
        EditedChangesOnlyTarget(p, text, database, d, conn, server);
      }
    }
  }

  /** For the protection of a target that does not look empty, what follows the
  CREATE DATABASE statement does not matter. */
  lemma FullTargetIsKept<S(!new), C(!new)>(p: Psql<S, C>, rows: C -> Option<nat>, env: Env, ifPresent: IfPresent,
                                          database: string, uri: Uri, server: Server<C>,
                                          pre: seq<string>, create: string, rest: seq<string>)
    requires database != "" && database in server && !p.looksEmpty(server[database])
    requires env.dump.Some? ==> InputLines(env.dump.value) == pre + [create] + rest
    requires Creates(create, database) && EndsStatement(create) && Preface(p, pre, p.first)
    ensures var (r, after) := Finish(p, Decide(p, rows, env, ifPresent, database, uri, server), server);
      after == server && (r.Err? || (r == Ok(Skipped) && ifPresent == Skip))
  {
    hide InputLines, CheckDump, Edited, Load, Preface, Classify, EndsStatement;
    if env.dump.Some? {
      LoadStopsAtCreate(p, env.dump.value, database, pre, create, rest, MaintenanceUri(uri, database).named, server);
    }
  }

  lemma Unchanged<C>(server: Server<C>, db: string)
    ensures OnlyChanges(server, server, db)
  {
  }

  /** Without a configured database, a text that stays on the database the URI names
  changes no other one. */
  lemma UnnamedRestoreIsSafe<S(!new), C(!new)>(p: Psql<S, C>, rows: C -> Option<nat>, env: Env, ifPresent: IfPresent,
                                              uri: Uri, server: Server<C>)
    requires env.dump.Some? && uri.named in server ==>
      StaysOn(p, InputLines(env.dump.value), p.first, server, uri.named)
    ensures var (r, after) := Finish(p, Decide(p, rows, env, ifPresent, "", uri, server), server);
      && OnlyChanges(server, after, uri.named)
      && (r.Err? && r.error != LoadFailed ==> after == server)
  {
    hide InputLines, CheckDump, Edited, StaysOn, Run;
    if env.dump.Some? && uri.named in server {
      RunStays(p, InputLines(env.dump.value), p.first, server, uri.named);
    }
  }

  // ----- an empty target is as good as none -----

  /** The edited dump on two servers whose targets look empty and are alike. */
  lemma EditedAlike<S(!new), C(!new)>(p: Psql<S, C>, text: string, db: string, d: Shape, conn: string,
                                      server: Server<C>, x: C, y: C, like: (C, C) -> bool)
    requires Shaped(p, text, db, d) && db != "" && Blind(p, InputLines(text), db, like) && like(x, y)
    requires HeaderOf(Stream(text, false)).Ok? && HeaderOf(Stream(text, false)).value.database == db
    requires conn in server && conn != db && p.looksEmpty(x) && p.looksEmpty(y)
    ensures Edited(Stream(text, false), db).Ok?
    ensures var edited := Edited(Stream(text, false), db).value;
      && Alike(Load(p, edited, conn, server[db := x]), Load(p, edited, conn, server[db := y]), db, like)
      && db in Load(p, edited, conn, server[db := x]).server
  {
    hide Formed, StaysOn, Edited, HeaderOf, Run, InputLines, SessionAfter, Load, KeepsOver, Blind;
    var a, b := server[db := x], server[db := y];
    AcceptedIsEditable(text, db, d);
    var edited := Edited(Stream(text, false), db).value;
    LoadEdited(p, text, edited, db, d, conn, a);
    LoadEdited(p, text, edited, db, d, conn, b);
    assert SameSession(p, d.pre, p.first, conn, server, db, x) && SameSession(p, d.pre, p.first, conn, server, db, y);
    var after := SessionAfter(p, d.pre, p.first, conn, server);
    if after.Some? {
      TailAlike(p, text, db, d, conn, after.value, a, b, like);
    }
  }

  lemma TailAlike<S(!new), C(!new)>(p: Psql<S, C>, text: string, db: string, d: Shape, conn: string, s: S,
                                    a: Server<C>, b: Server<C>, like: (C, C) -> bool)
    requires Shaped(p, text, db, d) && Blind(p, InputLines(text), db, like) && AlikeServers(a, b, db, like)
    requires conn in a && db in a && db in b && p.looksEmpty(a[db]) && p.looksEmpty(b[db]) && !p.pending(s)
    ensures var lines := d.mid + [d.connect] + d.body;
      && Alike(Run(p, lines, conn, s, a), Run(p, lines, conn, s, b), db, like)
      && db in Run(p, lines, conn, s, a).server
  {
    hide Classify, EndsStatement, StaysOn, Run, InputLines, SessionAfter, KeepsOver, Blind;
    assert conn in b;
    BlindFewer(p, InputLines(text), d.mid, db, like);
    BlindFewer(p, InputLines(text), d.body, db, like);
    RunTail(p, text, db, d, conn, s, a);
    RunTail(p, text, db, d, conn, s, b);
    SessionAlike(p, like, d.mid, conn, s, a, b, db);
    var after := SessionAfter(p, d.mid, s, conn, a);
    if after.Some? {
      RunAlike(p, like, d.body, p.reconnect(after.value), a, b, db);
    }
  }

  /** The decisions on a server without the target, and with one that looks empty. */
  lemma PlansMatch<S, C>(p: Psql<S, C>, rows: C -> Option<nat>, env: Env, ifPresent: IfPresent, database: string, uri: Uri,
                         server: Server<C>, c: C)
    requires database != "" && database !in server && p.looksEmpty(c) && rows(c) in {None, Some(0)}
    requires MaintenanceUri(uri, database).named != database
    ensures var a := Decide(p, rows, env, ifPresent, database, uri, server);
      var b := Decide(p, rows, env, ifPresent, database, uri, server[database := c]);
      var conn := MaintenanceUri(uri, database).named;
      if a.End? then b == a
      else
        && conn in server && env.dump.Some? && a == LoadText(env.dump.value, conn)
        && CheckDump(env.dump.value, database, env.version).None?
        && (Edited(Stream(env.dump.value, false), database).Ok? ==>
             b == LoadText(Edited(Stream(env.dump.value, false), database).value, conn))
  {
    hide CheckDump, Edited;
  }

  /** A target that looks empty is as good as none, as far as the dump does not see
  what the target holds: the run gives the same result, the same contents of every
  other database, and contents of the target that are alike. */
  lemma LooksEmptyIsAsAbsent<S(!new), C(!new)>(p: Psql<S, C>, rows: C -> Option<nat>, env: Env, ifPresent: IfPresent,
                                               database: string, uri: Uri, server: Server<C>, d: Shape,
                                               c: C, like: (C, C) -> bool)
    requires database != "" && database !in server
    requires env.dump.Some? ==> Shaped(p, env.dump.value, database, d) && Blind(p, InputLines(env.dump.value), database, like)
    requires p.looksEmpty(c) && like(p.empty, c) && rows(c) in {None, Some(0)}
    requires MaintenanceUri(uri, database).named != database
    ensures var (r0, without) := Finish(p, Decide(p, rows, env, ifPresent, database, uri, server), server);
      var there := server[database := c];
      var (r1, with) := Finish(p, Decide(p, rows, env, ifPresent, database, uri, there), there);
      && r0 == r1 && database in with
      && like(ContentsOf(p, without, database), with[database])
      && with == without[database := with[database]]
  {
    hide Shaped, CheckDump, Edited, Load, Blind, Decide;
    var there, conn := server[database := c], MaintenanceUri(uri, database).named;
    PlansMatch(p, rows, env, ifPresent, database, uri, server, c);
    if Decide(p, rows, env, ifPresent, database, uri, server).LoadText? {
      var text := env.dump.value;
      CheckIgnoresVersion(text, database, env.version);
      CheckedHeader(text, database);
      NewLooksEmpty(p, text, database, d);
      EditPreservesMeaning(p, text, database, d, conn, server);
      EditedAlike(p, text, database, d, conn, server, p.empty, c, like);
    }
  }

  /** An empty target database is as good as none: the run gives the same result
  and the same final contents as on the server without that database. */
  lemma EmptyTargetIsAsAbsent<S(!new), C(!new)>(p: Psql<S, C>, rows: C -> Option<nat>, env: Env, ifPresent: IfPresent,
                                                   database: string, uri: Uri, server: Server<C>, d: Shape)
    requires database != "" && database !in server
    requires env.dump.Some? ==> Shaped(p, env.dump.value, database, d)
    requires p.looksEmpty(p.empty) && rows(p.empty) in {None, Some(0)}
    requires MaintenanceUri(uri, database).named != database
    ensures var (r0, without) := Finish(p, Decide(p, rows, env, ifPresent, database, uri, server), server);
      var there := server[database := p.empty];
      var (r1, with) := Finish(p, Decide(p, rows, env, ifPresent, database, uri, there), there);
      r0 == r1 && with == without[database := ContentsOf(p, without, database)]
  {
    hide Shaped, CheckDump, Edited, Load, Decide, Finish, InputLines;
    var same := (x: C, y: C) => x == y;
    if env.dump.Some? {
      EqualIsBlind(p, InputLines(env.dump.value), database, same);
    }
    LooksEmptyIsAsAbsent(p, rows, env, ifPresent, database, uri, server, d, p.empty, same);
  }

  lemma CheckedHeader(text: string, database: string)
    requires CheckDump(text, database, None).None?
    ensures HeaderOf(Stream(text, false)).Ok? && HeaderOf(Stream(text, false)).value.database == database
  {
    hide HeaderOf;
  }

  /** With skip or fail, a target that holds an archive is never touched, whatever
  the dump is, and neither is a server that cannot be asked. */
  lemma ArchiveIsKept<S(!new), C(!new)>(p: Psql<S, C>, rows: C -> Option<nat>, env: Env, ifPresent: IfPresent,
                                       database: string, uri: Uri, server: Server<C>)
    requires ifPresent != Import && RestoreTarget(database, uri).Some?
    ensures var (r, after) := Finish(p, Decide(p, rows, env, ifPresent, database, uri, server), server);
      var db := RestoreTarget(database, uri).value.0;
      var reached := env.detects && MaintenanceUri(uri, db).named in server;
      && (!reached ==> r == Err(CannotTell) && after == server)
      && (reached && db in server && rows(server[db]).Some? && rows(server[db]).value > 0 ==>
            r == (if ifPresent == Skip then Ok(Skipped) else Err(Present)) && after == server)
      && (r == Ok(Skipped) || r == Err(Present) ==>
            reached && db in server && rows(server[db]).Some? && rows(server[db]).value > 0)
  {
    hide CheckDump, Edited, Load;
    CheckIsNotPresent(if env.dump.Some? then env.dump.value else "", database, env.version);
  }

  lemma CheckIsNotPresent(text: string, database: string, version: Option<(nat, nat)>)
    ensures var e := CheckDump(text, database, version); e.None? || (e.value != Present && e.value != CannotTell)
  {
    hide HeaderOf;
  }

  // ----- refusals -----

  /** A psql too old for \restrict: its first releases that know it are 13.22, 14.19,
  15.14, 16.10 and 17.6, and every release from 18 on does. */
  predicate TooOld(major: nat, minor: nat) {
    || major <= 12
    || (major == 13 && minor <= 21)
    || (major == 14 && minor <= 18)
    || (major == 15 && minor <= 13)
    || (major == 16 && minor <= 9)
    || (major == 17 && minor <= 5)
  }

  /** The lines that the header scan takes of a text. */
  function HeadOf(text: string): seq<string> {
    var scan := ScanLines(text, false);
    scan.lines[..HeadLength(scan.lines, HeaderLines)]
  }

  /** A dump for the right database is refused exactly when it has a \restrict line and
  the version of psql is known and too old. */
  lemma RefusedForVersionExactly(text: string, database: string, version: Option<(nat, nat)>)
    requires HeaderOf(Stream(text, false)).Ok? && HeaderOf(Stream(text, false)).value.database == database
    ensures CheckDump(text, database, version) ==
      if HasRestrict(HeadOf(text)) && version.Some? && TooOld(version.value.0, version.value.1) then Some(OldPsql) else None
  {
    hide HeaderOf, HasRestrict, NamesAgree, IsTheName, EndsWell, ScanLines, HeadLength;
    HeaderMeaning(Stream(text, false));
    if version.Some? {
      RestrictReleases(version.value.0, version.value.1);
    }
  }

  lemma RestrictReleases(major: nat, minor: nat)
    ensures SupportsRestrict(major, minor) <==> !TooOld(major, minor)
  {
  }

  /** The same of the whole run: it gives up for the version, with the server as it
  was, exactly then. */
  lemma RunRefusedForVersionExactly<S(!new), C(!new)>(p: Psql<S, C>, rows: C -> Option<nat>, env: Env, database: string,
                                                      uri: Uri, server: Server<C>, text: string)
    requires env.dump == Some(text) && RestoreTarget(database, uri).Some?
    requires HeaderOf(Stream(text, false)).Ok? && HeaderOf(Stream(text, false)).value.database == database
    ensures var (r, after) := Finish(p, Decide(p, rows, env, Import, database, uri, server), server);
      && (r == Err(OldPsql) <==>
            HasRestrict(HeadOf(text)) && env.version.Some? && TooOld(env.version.value.0, env.version.value.1))
      && (r == Err(OldPsql) ==> after == server)
  {
    hide HeaderOf, HasRestrict, CheckDump, Load, Edited, HeadOf;
    RefusedForVersionExactly(text, database, env.version);
  }

  /** A run whose tuning fails loads nothing. */
  lemma FailedTuningLoadsNothing<S(!new), C(!new)>(p: Psql<S, C>, rows: C -> Option<nat>, env: Env, ifPresent: IfPresent,
                                                   database: string, uri: Uri, server: Server<C>)
    requires !env.tuning
    ensures var (r, after) := Finish(p, Decide(p, rows, env, ifPresent, database, uri, server), server);
      after == server && (r.Err? || (r == Ok(Skipped) && ifPresent == Skip))
  {
    hide CheckDump, Load, Edited;
  }

  // ----- outcomes -----

  /** The database that a run restores. */
  function Target(database: string, uri: Uri): string {
    if database != "" then database else uri.named
  }

  /** The database that is connected to for a question about db. */
  function AskedOf(uri: Uri, db: string): string {
    if uri.named == "" || uri.named == db then "postgres" else uri.named
  }

  predicate CanAsk<C>(reachable: bool, uri: Uri, db: string, server: Server<C>) {
    reachable && AskedOf(uri, db) in server
  }

  predicate HoldsArchive<C>(rows: C -> Option<nat>, server: Server<C>, db: string) {
    db in server && rows(server[db]).Some? && rows(server[db]).value > 0
  }

  /** The run gets past the question whether an archive is there. */
  predicate Proceeds<C>(rows: C -> Option<nat>, env: Env, ifPresent: IfPresent, database: string, uri: Uri, server: Server<C>) {
    var db := Target(database, uri);
    db != "" && (ifPresent == Import || (CanAsk(env.detects, uri, db, server) && !HoldsArchive(rows, server, db)))
  }

  /** The dump was fetched, is not refused, and everything up to the load works. */
  predicate Ready<C>(rows: C -> Option<nat>, env: Env, ifPresent: IfPresent, database: string, uri: Uri, server: Server<C>) {
    && Proceeds(rows, env, ifPresent, database, uri, server)
    && env.dump.Some? && CheckDump(env.dump.value, database, env.version).None? && env.tuning
    && (database != "" ==> CanAsk(env.probes, uri, database, server))
  }

  /** For which dumps which refusal is given. */
  lemma CheckErrors(text: string, database: string, version: Option<(nat, nat)>)
    ensures var h, r := HeaderOf(Stream(text, false)), CheckDump(text, database, version);
      && (h.Err? <==> r.Some? && r.value.BadHeader?)
      && (h.Err? ==> r == Some(BadHeader(h.error)))
      && (h.Ok? && h.value.database != database <==> r.Some? && r.value.OtherDatabase?)
      && (h.Ok? && h.value.database != database ==> r == Some(OtherDatabase(h.value.database)))
      && (r.Some? ==> r.value.BadHeader? || r.value.OtherDatabase? || r.value == OldPsql)
  {
    hide HeaderOf, SupportsRestrict;
  }

  /** The runs that end without a load, and why; the server is as it was. */
  lemma EndsExactly<S(!new), C(!new)>(p: Psql<S, C>, rows: C -> Option<nat>, env: Env, ifPresent: IfPresent,
                                      database: string, uri: Uri, server: Server<C>)
    requires !Ready(rows, env, ifPresent, database, uri, server)
    ensures var (r, after) := Finish(p, Decide(p, rows, env, ifPresent, database, uri, server), server);
      var db := Target(database, uri);
      && after == server
      && r == if db == "" then Err(NoTarget)
              else if ifPresent != Import && !CanAsk(env.detects, uri, db, server) then Err(CannotTell)
              else if ifPresent == Skip && HoldsArchive(rows, server, db) then Ok(Skipped)
              else if ifPresent == Fail && HoldsArchive(rows, server, db) then Err(Present)
              else if env.dump.None? then Err(FetchFailed)
              else if CheckDump(env.dump.value, database, env.version).Some? then
                Err(CheckDump(env.dump.value, database, env.version).value)
              else if !env.tuning then Err(TuningFailed)
              else Err(ProbeFailed)
  {
    hide CheckDump, Load, Edited;
  }

  /** The other runs load a text and report how that went: the dump without its CREATE
  DATABASE when the database is configured, exists and looks empty, and the whole dump
  otherwise. */
  lemma LoadsExactly<S(!new), C(!new)>(p: Psql<S, C>, rows: C -> Option<nat>, env: Env, ifPresent: IfPresent,
                                       database: string, uri: Uri, server: Server<C>)
    requires Ready(rows, env, ifPresent, database, uri, server)
    ensures var (r, after) := Finish(p, Decide(p, rows, env, ifPresent, database, uri, server), server);
      var conn, text := if database != "" then AskedOf(uri, database) else uri.named, env.dump.value;
      if database != "" && database in server && p.looksEmpty(server[database]) then
        match Edited(Stream(text, false), database)
        case Err(e) => r == Err(EditFailed(e)) && after == server
        case Ok(edited) => Reports(Load(p, edited, conn, server), r, after)
      else Reports(Load(p, text, conn, server), r, after)
  {
    hide CheckDump, Load, Edited;
  }

  predicate Reports<C(==)>(o: Outcome<C>, r: Result<Done, RestoreError>, after: Server<C>) {
    after == o.server && r == if o.ok then Ok(Provisioned) else Err(LoadFailed)
  }
}
