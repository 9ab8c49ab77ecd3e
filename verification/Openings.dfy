/** Which dumps leave a target alone: for the dumps that checkDump of cmd/archive.go
accepts, what the runs do to a target that is there is read off the text. */
module Openings {
  import opened GoText
  import opened Dump
  import opened PsqlRun
  import opened Restore
  import Provider

  // ----- the condition on the text -----

  /** How a dump opens for the database db. It stops: at a CREATE DATABASE for db, at
  a DROP DATABASE of the database it is connected to, or at its end. Or it strikes:
  it drops db, or runs a statement on it. Or that is unclear: a command names
  another database, cannot be read, or does not end on its line. */
  datatype Opening = Stops | Strikes | Unclear

  function OpeningOf(lines: seq<string>, db: string, connected: bool): Opening
    decreases |lines|
  {
    if lines == [] then Stops
    else if IsStatement(lines[0]) then
      if connected then Strikes else OpeningOf(lines[1..], db, false)
    else
      match ActionOf(lines[0])
      case Switch(other) => if other == db then OpeningOf(lines[1..], db, true) else Unclear
      case MakeDatabase(other) => if other == db then Stops else Unclear
      case DropDatabase(other, _) => if other != db then Unclear else if connected then Stops else Strikes
      case _ => Unclear
  }

  /** The lines before the first command. */
  function BeforeCommands(lines: seq<string>): (pre: seq<string>)
    ensures pre <= lines
    ensures forall l :: l in pre ==> IsStatement(l)
    ensures |pre| < |lines| ==> !IsStatement(lines[|pre|])
  {
    if lines == [] || !IsStatement(lines[0]) then [] else [lines[0]] + BeforeCommands(lines[1..])
  }

  /** What psql is asked for: the lines before the first command are session
  statements, and a new connection has no statement open. */
  ghost predicate OpensWell<S(!new), C(!new)>(p: Psql<S, C>, lines: seq<string>) {
    Preface(p, BeforeCommands(lines), p.first) && forall s :: !p.pending(p.reconnect(s))
  }

  lemma {:induction false} OpeningAfter(lines: seq<string>, db: string)
    ensures OpeningOf(lines, db, false) == OpeningOf(lines[|BeforeCommands(lines)|..], db, false)
    decreases |lines|
  {
    hide IsStatement, ActionOf;
    var k := |BeforeCommands(lines)|;
    if lines != [] && IsStatement(lines[0]) {
      OpeningAfter(lines[1..], db);
      assert lines[1..][k - 1..] == lines[k..];
    } else {
      assert lines[0..] == lines;
    }
  }

  // ----- a text that stops -----

  lemma {:induction false} CommandsStop<S(!new), C(!new)>(p: Psql<S, C>, lines: seq<string>, conn: string, s: S,
                                                          server: Server<C>, db: string, connected: bool)
    requires conn in server && db in server && !p.pending(s) && forall s' :: !p.pending(p.reconnect(s'))
    requires OpeningOf(lines, db, connected) == Stops
    requires if connected then conn == db else lines == [] || !IsStatement(lines[0])
    ensures Run(p, lines, conn, s, server).server == server
    decreases |lines|
  {
    hide ActionOf;
    if lines != [] && ActionOf(lines[0]).Switch? {
      CommandsStop(p, lines[1..], db, p.reconnect(s), server, db, true);
    }
  }

  /** A text that stops leaves every server that has db as it was. */
  lemma LoadStops<S(!new), C(!new)>(p: Psql<S, C>, text: string, conn: string, server: Server<C>, db: string)
    requires db in server && OpensWell(p, InputLines(text)) && OpeningOf(InputLines(text), db, false) == Stops
    ensures Load(p, text, conn, server).server == server
  {
    hide InputLines, Run, OpeningOf, KeepsOver, IsStatement, SessionAfter;
    var lines := InputLines(text);
    var pre := BeforeCommands(lines);
    var rest := lines[|pre|..];
    OpeningAfter(lines, db);
    if conn in server {
      assert lines == pre + rest;
      RunSession(p, pre, rest, conn, p.first, server);
      var after := SessionAfter(p, pre, p.first, conn, server);
      if after.Some? {
        CommandsStop(p, rest, conn, after.value, server, db, false);
      }
    }
  }

  // ----- a psql that erases -----

  /** After a \connect, every statement erases the connected database. */
  function Erase(line: string, s: bool, conn: string, server: Server<bool>): Step<bool, bool> {
    Step(s, if conn in server then server[conn := server[conn] && !s] else server, true)
  }

  /** The session says whether there was a \connect, the contents whether there is
  anything. */
  function Eraser(looksEmpty: bool -> bool): Psql<bool, bool> {
    Psql(false, (s: bool) => true, (s: bool) => false, Erase, false, looksEmpty)
  }

  lemma {:induction false} EraserKeepsOver(f: bool -> bool, lines: seq<string>, conn: string, server: Server<bool>)
    requires conn in server
    ensures KeepsOver(Eraser(f), lines, false, conn, server)
    ensures SessionAfter(Eraser(f), lines, false, conn, server) == Some(false)
    decreases |lines|
  {
    if lines != [] {
      assert server[conn := server[conn] && !false] == server;
      EraserKeepsOver(f, lines[1..], conn, server);
    }
  }

  lemma EraserHasPreface(f: bool -> bool, lines: seq<string>, db: string)
    requires forall l :: l in lines ==> IsStatement(l)
    ensures Preface(Eraser(f), lines, false) && IgnoresDatabase(Eraser(f), lines, false, db)
  {
    hide KeepsOver, SessionAfter, IsStatement;
    forall conn, server: Server<bool> | conn in server ensures KeepsOver(Eraser(f), lines, false, conn, server) {
      EraserKeepsOver(f, lines, conn, server);
    }
    forall conn, server: Server<bool>, c | conn in server && conn != db
      ensures SameSession(Eraser(f), lines, false, conn, server, db, c)
    {
      EraserKeepsOver(f, lines, conn, server);
      EraserKeepsOver(f, lines, conn, server[db := c]);
    }
  }

  lemma EraserOpensWell(f: bool -> bool, lines: seq<string>)
    ensures OpensWell(Eraser(f), lines)
  {
    hide IsStatement, Preface;
    EraserHasPreface(f, BeforeCommands(lines), "");
  }

  /** What is erased or dropped does not come back. */
  ghost predicate Erased(server: Server<bool>, db: string) {
    db in server ==> !server[db]
  }

  lemma {:induction false} ErasedStays(f: bool -> bool, lines: seq<string>, conn: string, s: bool, server: Server<bool>, db: string)
    requires conn in server && Erased(server, db)
    ensures Erased(Run(Eraser(f), lines, conn, s, server).server, db)
    decreases |lines|
  {
    hide ActionOf;
    if lines != [] {
      match Do(Eraser(f), s, lines[0]) {
        case MakeDatabase(other) =>
          if other !in server {
            ErasedStays(f, lines[1..], conn, s, server[other := false], db);
          }
        case DropDatabase(other, ifExists) =>
          if other != conn && (other in server || ifExists) {
            ErasedStays(f, lines[1..], conn, s, server - {other}, db);
          }
        case Switch(other) =>
          if other in server {
            ErasedStays(f, lines[1..], other, true, server, db);
          }
        case BadCommand =>
        case Statement =>
          ErasedStays(f, lines[1..], conn, s, server[conn := server[conn] && !s], db);
      }
    }
  }

  lemma {:induction false} EraserErases(f: bool -> bool, lines: seq<string>, conn: string, s: bool, server: Server<bool>, db: string)
    requires conn in server && db in server && s == (conn == db)
    requires OpeningOf(lines, db, s) == Strikes
    ensures Erased(Run(Eraser(f), lines, conn, s, server).server, db)
    decreases |lines|
  {
    hide ActionOf;
    if IsStatement(lines[0]) {
      var next := server[conn := server[conn] && !s];
      if s {
        ErasedStays(f, lines[1..], conn, s, next, db);
      } else {
        assert next == server;
        EraserErases(f, lines[1..], conn, s, server, db);
      }
    } else if ActionOf(lines[0]).Switch? {
      EraserErases(f, lines[1..], db, true, server, db);
    } else {
      ErasedStays(f, lines[1..], conn, s, server - {db}, db);
    }
  }

  // ----- the condition is exact -----

  /** The run leaves the contents of the database as they were. */
  predicate Leaves<S, C(==)>(p: Psql<S, C>, rows: C -> Option<nat>, env: Env, ifPresent: IfPresent,
                             database: string, uri: Uri, server: Server<C>)
    requires database in server
  {
    var after := Finish(p, Decide(p, rows, env, ifPresent, database, uri, server), server).1;
    database in after && after[database] == server[database]
  }

  /** The text that is loaded when the target exists. */
  function LoadedInto(text: string, database: string, looksEmpty: bool): Option<string> {
    if !looksEmpty then Some(text)
    else
      match Edited(Stream(text, false), database)
      case Ok(edited) => Some(edited)
      case Err(_) => None
  }

  predicate LeavesTarget(text: string, database: string, looksEmpty: bool) {
    var loaded := LoadedInto(text, database, looksEmpty);
    loaded.None? || OpeningOf(InputLines(loaded.value), database, false) == Stops
  }

  /** Every run with a dump whose loaded text stops leaves the whole server alone. */
  lemma StoppedIsLeft<S(!new), C(!new)>(p: Psql<S, C>, rows: C -> Option<nat>, env: Env, ifPresent: IfPresent,
                                        database: string, uri: Uri, server: Server<C>, text: string)
    requires database != "" && database in server && env.dump == Some(text)
    requires LeavesTarget(text, database, p.looksEmpty(server[database]))
    requires var loaded := LoadedInto(text, database, p.looksEmpty(server[database]));
      loaded.Some? ==> OpensWell(p, InputLines(loaded.value))
    ensures Finish(p, Decide(p, rows, env, ifPresent, database, uri, server), server).1 == server
  {
    hide InputLines, CheckDump, Edited, Load, OpensWell, OpeningOf;
    var loaded := LoadedInto(text, database, p.looksEmpty(server[database]));
    if loaded.Some? {
      LoadStops(p, loaded.value, MaintenanceUri(uri, database).named, server, database);
    }
  }

  /** A server and a run that the eraser changes. */
  lemma StrikerIsNotLeft(text: string, database: string, looksEmpty: bool)
    returns (p: Psql<bool, bool>, env: Env, uri: Uri, server: Server<bool>)
    requires database != "" && CheckDump(text, database, None).None?
    requires var loaded := LoadedInto(text, database, looksEmpty);
      loaded.Some? && OpeningOf(InputLines(loaded.value), database, false) == Strikes
    ensures env.dump == Some(text) && Targets(p, text, database, looksEmpty, server)
    ensures !Leaves(p, _ => None, env, Import, database, uri, server)
  {
    hide InputLines, CheckDump, Edited, OpeningOf, OpensWell;
    var f := (c: bool) => !c || looksEmpty;
    p := Eraser(f);
    var conn := if database == "template1" then "postgres" else "template1";
    env, uri, server := Env(true, true, true, None, Some(text)), Uri(conn, ""), map[conn := false, database := true];
    var loaded := LoadedInto(text, database, looksEmpty).value;
    EraserErases(f, InputLines(loaded), conn, false, server, database);
    EraserOpensWell(f, InputLines(loaded));
    assert Decide(p, _ => None, env, Import, database, uri, server) == LoadText(loaded, conn);
  }

  /** The database exists and holds something, which the probe counts or not; psql
  reads the text that is loaded as session statements and then commands. */
  ghost predicate Targets<S(!new), C(!new)>(p: Psql<S, C>, text: string, database: string, looksEmpty: bool, server: Server<C>) {
    && database in server && server[database] != p.empty
    && p.looksEmpty(p.empty) && p.looksEmpty(server[database]) == looksEmpty
    && var loaded := LoadedInto(text, database, looksEmpty);
       loaded.Some? ==> OpensWell(p, InputLines(loaded.value))
  }

  /** For an accepted dump whose lines before the first command are session
  statements, the condition is exact, for a target that looks empty and for one that
  does not: every run leaves what the target holds, if and only if the text that is
  loaded stops before it drops the target or runs a statement on it. */
  lemma TargetIsLeftExactly(text: string, database: string, looksEmpty: bool)
    requires database != "" && CheckDump(text, database, None).None?
    requires var loaded := LoadedInto(text, database, looksEmpty);
      loaded.Some? ==> OpeningOf(InputLines(loaded.value), database, false) != Unclear
    ensures LeavesTarget(text, database, looksEmpty) <==>
      forall p: Psql<bool, bool>, rows: bool -> Option<nat>, env: Env, ifPresent: IfPresent, uri: Uri, server: Server<bool> |
        env.dump == Some(text) && Targets(p, text, database, looksEmpty, server) ::
        Leaves(p, rows, env, ifPresent, database, uri, server)
  {
    hide InputLines, CheckDump, Edited, OpeningOf, OpensWell, Decide, Finish;
    if LeavesTarget(text, database, looksEmpty) {
      forall p: Psql<bool, bool>, rows: bool -> Option<nat>, env: Env, ifPresent: IfPresent, uri: Uri, server: Server<bool> |
        env.dump == Some(text) && Targets(p, text, database, looksEmpty, server)
        ensures Leaves(p, rows, env, ifPresent, database, uri, server)
      {
        StoppedIsLeft(p, rows, env, ifPresent, database, uri, server, text);
      }
    } else {
      var p, env, uri, server := StrikerIsNotLeft(text, database, looksEmpty);
    }
  }

  lemma {:induction false} OpeningOfForm(pre: seq<string>, line: string, rest: seq<string>, db: string)
    requires (forall l :: l in pre ==> IsStatement(l)) && !IsStatement(line)
    ensures OpeningOf(pre + [line] + rest, db, false) ==
      match ActionOf(line)
      case Switch(other) => if other == db then OpeningOf(rest, db, true) else Unclear
      case MakeDatabase(other) => if other == db then Stops else Unclear
      case DropDatabase(other, _) => if other == db then Strikes else Unclear
      case _ => Unclear
    decreases |pre|
  {
    hide IsStatement, ActionOf;
    var lines := pre + [line] + rest;
    if pre == [] {
      assert lines[0] == line && lines[1..] == rest;
    } else {
      assert lines[0] == pre[0] && lines[1..] == pre[1..] + [line] + rest;
      OpeningOfForm(pre[1..], line, rest, db);
    }
  }

  predicate IsStatementFirst(lines: seq<string>) {
    lines != [] && IsStatement(lines[0])
  }

  /** The same on the form of a dump: session statements, a command for the database,
  and then a statement. A target that does not look empty is left by every run if
  and only if the command is the CREATE DATABASE. */
  lemma FirstCommandDecides(text: string, database: string, pre: seq<string>, line: string, rest: seq<string>)
    requires database != "" && CheckDump(text, database, None).None?
    requires InputLines(text) == pre + [line] + rest && IsStatementFirst(rest)
    requires forall l :: l in pre ==> IsStatement(l)
    requires ActionOf(line) in {Switch(database), MakeDatabase(database), DropDatabase(database, true), DropDatabase(database, false)}
    ensures ActionOf(line) == MakeDatabase(database) <==>
      forall p: Psql<bool, bool>, rows: bool -> Option<nat>, env: Env, ifPresent: IfPresent, uri: Uri, server: Server<bool> |
        env.dump == Some(text) && Targets(p, text, database, false, server) ::
        Leaves(p, rows, env, ifPresent, database, uri, server)
  {
    hide InputLines, CheckDump, ActionOf, Targets, Leaves;
    OpeningOfForm(pre, line, rest, database);
    TargetIsLeftExactly(text, database, false);
  }

  // ----- what the other openings do -----

  /** What a dump that opens with a \connect does to a target that does not look
  empty: exactly what its lines after the \connect do on the target. */
  lemma ConnectRunsOnTarget<S(!new), C(!new)>(p: Psql<S, C>, rows: C -> Option<nat>, env: Env, ifPresent: IfPresent,
                                              database: string, uri: Uri, server: Server<C>,
                                              text: string, pre: seq<string>, line: string, rest: seq<string>)
    requires database != "" && database in server && !p.looksEmpty(server[database])
    requires env.dump == Some(text) && InputLines(text) == pre + [line] + rest
    requires Preface(p, pre, p.first) && ActionOf(line) == Switch(database)
    ensures var plan := Decide(p, rows, env, ifPresent, database, uri, server);
      var after := Finish(p, plan, server).1;
      if plan.End? then after == server
      else
        plan.conn in server &&
        match SessionAfter(p, pre, p.first, plan.conn, server)
        case None => after == server
        case Some(s) => after == Run(p, rest, database, p.reconnect(s), server).server
  {
    hide InputLines, CheckDump, Edited, KeepsOver, ActionOf, SessionAfter, Run;
    var plan := Decide(p, rows, env, ifPresent, database, uri, server);
    if plan.LoadText? {
      assert pre + [line] + rest == pre + ([line] + rest);
      RunSession(p, pre, [line] + rest, plan.conn, p.first, server);
      var after := SessionAfter(p, pre, p.first, plan.conn, server);
      if after.Some? {
        RunSwitch(p, line, rest, database, plan.conn, after.value, server);
      }
    }
  }

  /** What a dump that drops the database first, as pg_dump --clean writes it, does to
  a target that does not look empty: the target is gone, and the rest runs on the
  server without it. With IF EXISTS that is what the whole dump does where the
  target is absent, whatever the target held. */
  lemma DropTakesTarget<S(!new), C(!new)>(p: Psql<S, C>, rows: C -> Option<nat>, env: Env, ifPresent: IfPresent,
                                          database: string, uri: Uri, server: Server<C>,
                                          text: string, pre: seq<string>, line: string, rest: seq<string>)
    requires database != "" && database in server && !p.looksEmpty(server[database])
    requires env.dump == Some(text) && InputLines(text) == pre + [line] + rest
    requires Preface(p, pre, p.first) && IgnoresDatabase(p, pre, p.first, database)
    requires ActionOf(line).DropDatabase? && ActionOf(line).db == database
    requires MaintenanceUri(uri, database).named != database
    ensures var plan := Decide(p, rows, env, ifPresent, database, uri, server);
      var (r, after) := Finish(p, plan, server);
      if plan.End? then after == server
      else
        && plan.conn in server
        && (match SessionAfter(p, pre, p.first, plan.conn, server)
            case None => after == server && r == Err(LoadFailed)
            case Some(s) =>
              var o := Run(p, rest, plan.conn, s, server - {database});
              && after == o.server && r == (if o.ok then Ok(Provisioned) else Err(LoadFailed))
              && (ActionOf(line).ifExists ==> o == Load(p, text, plan.conn, server - {database})))
  {
    hide InputLines, CheckDump, Edited, KeepsOver, ActionOf, SessionAfter, Run;
    var plan := Decide(p, rows, env, ifPresent, database, uri, server);
    if plan.LoadText? {
      var conn, without := plan.conn, server - {database};
      var more := [line] + rest;
      assert pre + [line] + rest == pre + more;
      RunSession(p, pre, more, conn, p.first, server);
      RunSession(p, pre, more, conn, p.first, without);
      assert without[database := server[database]] == server;
      assert SameSession(p, pre, p.first, conn, without, database, server[database]);
      var after := SessionAfter(p, pre, p.first, conn, server);
      if after.Some? {
        RunDrop(p, line, rest, conn, after.value, server);
        RunDrop(p, line, rest, conn, after.value, without);
        assert without - {database} == without;
      }
    }
  }

  // ----- which accepted dumps open clearly -----

  /** Line j is a command that the scan of n lines does not settle: one after them,
  one with an empty name, a CREATE DATABASE that does not end on its line, or a DROP
  DATABASE or \c for another database. */
  ghost predicate Blurred(lines: seq<string>, j: nat, n: nat, db: string) {
    && j < |lines| && !IsStatement(lines[j])
    && if Named(lines[j]) then j >= n || NameIn(lines[j]) == Ok("") || (Classify(lines[j]).Create? && !EndsStatement(lines[j]))
       else !IsFor(ActionOf(lines[j]), db)
  }

  predicate IsFor(a: Action, db: string) {
    match a
    case DropDatabase(other, _) => other == db
    case Switch(other) => other == db
    case _ => false
  }

  lemma InputLinesStep(text: string)
    ensures var i := IndexOf(text, '\n');
      InputLines(text) == if text == "" then [] else if i == |text| then [text] else [text[..i + 1]] + InputLines(text[i + 1..])
  {
    hide RawLines, IndexOf;
    RawLinesStep(text);
    var i := IndexOf(text, '\n');
    if i < |text| {
      WithoutEmptyLast(text[..i + 1], RawLines(text[i + 1..]));
    }
  }

  lemma WithoutEmptyLast(line: string, rest: seq<string>)
    requires rest != []
    ensures var lines := [line] + rest;
      && lines[|lines| - 1] == rest[|rest| - 1]
      && lines[..|lines| - 1] == [line] + rest[..|rest| - 1]
  {
  }

  /** Where the opening becomes unclear. */
  lemma {:induction false} CommandInUnclear(lines: seq<string>, db: string, connected: bool) returns (j: nat)
    requires OpeningOf(lines, db, connected) == Unclear
    ensures Blurred(lines, j, 0, db)
    decreases |lines|
  {
    hide Classify, EndsStatement, IsStatement, ActionOf;
    if IsStatement(lines[0]) || ActionOf(lines[0]) == Switch(db) {
      UnclearGoesOn(lines, db, connected);
      j := CommandInUnclear(lines[1..], db, !IsStatement(lines[0]));
      j := j + 1;
    } else {
      UnclearHere(lines, db, connected, 0);
      j := 0;
    }
  }

  lemma BlurredLater(line: string, lines: seq<string>, j: nat, n: nat, db: string)
    requires n > 0 && Blurred(lines, j, n - 1, db)
    ensures Blurred([line] + lines, j + 1, n, db)
  {
    hide Named, NameIn, Classify, EndsStatement, IsStatement, ActionOf;
    assert ([line] + lines)[j + 1] == lines[j];
  }

  /** One line of the scan of an accepted dump: it is no command, or it names db. */
  lemma ScanStepNames(lines: seq<string>, end: Ending, n: nat, h: DumpHeader, db: string, line: string)
    requires db != "" && n > 0 && lines != [] && Classify(lines[0]) == Classify(line)
    requires var r := ScanFrom(lines, end, n, h); r.Ok? && r.value.database == db
    ensures Named(line) ==> NameIn(line) == Ok(db) || NameIn(line) == Ok("")
    ensures h.database == "" ==> !Classify(line).Data?
    ensures !Classify(line).Data? ==> Note(h, Classify(line)).Ok?
    ensures !Classify(line).Data? ==>
      var next := Note(h, Classify(line)).value;
      && ScanFrom(lines[1..], end, n - 1, next) == ScanFrom(lines, end, n, h)
      && next.database == if Named(line) then NameIn(line).value else h.database
  {
    hide Classify, ScanFrom;
    ScanStep(lines, end, n, h);
    if !Classify(line).Data? {
      var next := Note(h, Classify(line)).value;
      if next.database != "" {
        NotedStays(lines[1..], end, n - 1, next);
      }
    }
  }

  lemma UnclearHere(lines: seq<string>, db: string, connected: bool, n: nat)
    requires lines != [] && OpeningOf(lines, db, connected) == Unclear
    requires !IsStatement(lines[0]) && ActionOf(lines[0]) != Switch(db)
    requires n == 0 || !Named(lines[0]) || NameIn(lines[0]) == Ok(db) || NameIn(lines[0]) == Ok("")
    ensures Blurred(lines, 0, n, db)
  {
    hide Classify, EndsStatement, UnscannedAction;
  }

  lemma UnclearGoesOn(lines: seq<string>, db: string, connected: bool)
    requires lines != [] && OpeningOf(lines, db, connected) == Unclear
    requires IsStatement(lines[0]) || ActionOf(lines[0]) == Switch(db)
    ensures IsStatement(lines[0]) ==> !connected
    ensures lines[1..] != [] && OpeningOf(lines[1..], db, !IsStatement(lines[0])) == Unclear
  {
    hide ActionOf;
  }

  /** What a line that the opening goes on after leaves of the header. */
  lemma NextDatabase(line: string, db: string)
    requires IsStatement(line) || ActionOf(line) == Switch(db)
    ensures Named(line) ==> NameIn(line) == Ok(db)
    ensures IsStatement(line) ==> !Named(line)
    ensures !IsStatement(line) ==> !Classify(line).Data?
  {
    hide UnscannedAction;
  }

  /** The scan shows the first line of a text, unless it is too long to be read. */
  lemma FirstScanned(text: string, n: nat, h: DumpHeader)
    requires text != "" && n > 0
    requires var scan := ScanLines(text, false); ScanFrom(scan.lines, scan.end, n, h).Ok?
    ensures var i, scan := IndexOf(text, '\n'), ScanLines(text, false);
      && scan.lines != []
      && Classify(scan.lines[0]) == Classify(if i == |text| then text else text[..i + 1])
      && (i < |text| ==> scan.lines[1..] == ScanLines(text[i + 1..], false).lines && scan.end == ScanLines(text[i + 1..], false).end)
  {
    hide Classify, ScanFrom, ScanLines, DropCR;
    var i := IndexOf(text, '\n');
    var line := text[..i];
    ScanTooLong(n, h);
    ClassifySame(line);
    if i == |text| {
      assert line == text;
      ScanLast(text, false);
    } else {
      var rest := text[i + 1..];
      assert text == text[..i + 1] + rest && text[..i + 1] == line + "\n";
      ScanLine(line, rest, false);
    }
  }

  lemma UnclearHasLines(lines: seq<string>, db: string, connected: bool)
    requires OpeningOf(lines, db, connected) == Unclear
    ensures lines != []
  {
  }

  lemma {:induction false} UnclearIsBlurred(text: string, n: nat, h: DumpHeader, db: string, connected: bool) returns (j: nat)
    requires db != "" && (h.database == "" || (connected && h.database == db))
    requires var scan := ScanLines(text, false);
      var r := ScanFrom(scan.lines, scan.end, n, h);
      r.Ok? && r.value.database == db
    requires OpeningOf(InputLines(text), db, connected) == Unclear
    ensures Blurred(InputLines(text), j, n, db)
    decreases |text|
  {
    hide Classify, EndsStatement, ScanFrom, ScanLines, InputLines, Named, NameIn, OpeningOf, Blurred, IsStatement, ActionOf;
    var lines := InputLines(text);
    UnclearHasLines(lines, db, connected);
    if n == 0 {
      j := CommandInUnclear(lines, db, connected);
      return;
    }
    var i, scan := IndexOf(text, '\n'), ScanLines(text, false);
    InputLinesStep(text);
    FirstScanned(text, n, h);
    var line := lines[0];
    ScanStepNames(scan.lines, scan.end, n, h, db, line);
    if !IsStatement(line) && ActionOf(line) != Switch(db) {
      UnclearHere(lines, db, connected, n);
      return 0;
    }
    UnclearGoesOn(lines, db, connected);
    NextDatabase(line, db);
    var rest := text[i + 1..];
    assert lines[1..] == InputLines(rest);
    j := UnclearIsBlurred(rest, n - 1, Note(h, Classify(line)).value, db, !IsStatement(line));
    BlurredLater(line, lines[1..], j, n, db);
    assert lines == [line] + lines[1..];
    j := j + 1;
  }

  /** Every accepted dump opens clearly, unless a command comes after the lines that
  are scanned, has an empty name, is a CREATE DATABASE that does not end on its line,
  or is a DROP DATABASE or \c for another database. */
  lemma AcceptedOpensClearly(text: string, database: string)
    requires database != "" && CheckDump(text, database, None).None?
    ensures OpeningOf(InputLines(text), database, false) == Unclear ==>
      exists j: nat :: Blurred(InputLines(text), j, HeaderLines, database)
  {
    hide InputLines, ScanFrom, ScanLines, OpeningOf, Blurred;
    CheckedHeader(text, database);
    if OpeningOf(InputLines(text), database, false) == Unclear {
      var j := UnclearIsBlurred(text, HeaderLines, NoHeader, database, false);
    }
  }

  // ----- accepted dumps that change a target that is not empty -----

  lemma HeaderOfConnectOnly(db: string, line: string)
    requires Provider.PlainName(db) && |db| + |ConnectCommand| < MaxToken
    requires IsLine(line) && |line| < MaxToken && Classify(line) == Other
    ensures HeaderOf(Stream(ConnectLine(db) + line, false)) == Ok(DumpHeader(db, false))
  {
    hide Classify, ScanLines, ScanFrom, DropCR;
    var first, second := ConnectCommand + db, line[..|line| - 1];
    assert ConnectLine(db) == first + "\n" && line == second + "\n";
    assert ConnectLine(db) + line == first + "\n" + (second + "\n" + "");
    ScanLine(first, second + "\n" + "", false);
    ScanLine(second, "", false);
    ScanLast("", false);
    ConnectLineIsRead(db);
    ClassifySame(first);
    ClassifySame(second);
    var lines := [DropCR(first), DropCR(second)];
    assert [DropCR(first)] + ([DropCR(second)] + []) == lines;
    assert lines[1..] == [DropCR(second)] && lines[1..][1..] == [];
    var h := DumpHeader(db, false);
    ScanStep(lines, AtEnd, HeaderLines, NoHeader);
    ScanStep(lines[1..], AtEnd, HeaderLines - 1, h);
    ScanStep([], AtEnd, HeaderLines - 2, h);
  }

  /** A dump that has a \connect line but no CREATE DATABASE is accepted as well,
  and loading it runs its statements on a target that is not empty. */
  lemma ConnectOnlyIsNotProtected<S(!new), C(!new)>(p: Psql<S, C>, db: string, line: string, conn: string, server: Server<C>)
    requires Provider.PlainName(db) && |db| + |ConnectCommand| < MaxToken
    requires IsLine(line) && |line| < MaxToken && Classify(line) == Other && IsStatement(line)
    requires !p.pending(p.first) && conn in server && db in server && server[db] != p.empty
    ensures var text := ConnectLine(db) + line;
      && CheckDump(text, db, None) == None
      && Load(p, text, conn, server).server == p.step(line, p.reconnect(p.first), db, server).server
  {
    hide Classify, InputLines, Run, HeaderOf;
    HeaderOfConnectOnly(db, line);
    TwoLines(db, line);
    RunTwoLines(p, db, line, conn, server);
  }

  lemma TwoLines(db: string, line: string)
    requires Provider.PlainName(db) && IsLine(line)
    ensures InputLines(ConnectLine(db) + line) == [ConnectLine(db), line]
  {
    hide InputLines, Concat, IsLine, ConnectLine;
    CommandLines(db, "");
    LinesAreRead([ConnectLine(db), line]);
    ConcatTwo(ConnectLine(db), line);
  }

  lemma ConcatTwo(x: string, y: string)
    ensures Concat([x, y]) == x + y
  {
    assert [x, y][1..] == [y] && [y][1..] == [];
    assert y + "" == y;
    assert Concat([y]) == y + Concat([]);
  }

  lemma RunTwoLines<S, C>(p: Psql<S, C>, db: string, line: string, conn: string, server: Server<C>)
    requires Provider.PlainName(db) && IsStatement(line)
    requires !p.pending(p.first) && conn in server && db in server
    ensures Run(p, [ConnectLine(db), line], conn, p.first, server).server ==
      p.step(line, p.reconnect(p.first), db, server).server
  {
    hide Classify, ConnectLine, Run, ActionOf;
    ConnectLineIsRead(db);
    ConnectIsSwitch(ConnectLine(db), db);
    assert [ConnectLine(db), line] == [ConnectLine(db)] + [line];
    RunSwitch(p, ConnectLine(db), [line], db, conn, p.first, server);
    RunStatement(p, line, db, p.reconnect(p.first), server);
  }

  function DropLine(db: string, ifExists: bool): string {
    DropCommand + ((if ifExists then IfExistsWords else "") + (db + ";")) + "\n"
  }

  lemma DropWordsAreRead(db: string, ifExists: bool)
    requires Provider.PlainName(db)
    ensures DropOf((if ifExists then IfExistsWords else "") + (db + ";")) == DropDatabase(db, ifExists)
  {
    hide Identifier;
    var words := if ifExists then IfExistsWords else "";
    var rest := words + (db + ";");
    LowerIsFixed(db);
    IdentifierReadsPlain(db, ";");
    assert rest[|words|..] == db + ";";
    if ifExists {
      assert rest[..|IfExistsWords|] == IfExistsWords;
    } else {
      assert rest == db + ";" && rest[0] == db[0] != 'I';
    }
  }

  lemma StartsWithD(line: string)
    requires TrimSpace(line) != "" && TrimSpace(line)[0] == 'D'
    ensures Classify(line) == Other
  {
    hide TrimSpace;
  }

  lemma DropIsUnscanned(rest: string)
    requires HasSuffix(rest, ";")
    ensures UnscannedAction(DropCommand + rest) == DropOf(rest)
  {
    hide DropOf;
    var t := DropCommand + rest;
    assert t[0] == 'D' && t[|DropCommand|..] == rest && t[..|DropCommand|] == DropCommand;
    assert t[|t| - 1..] == rest[|rest| - 1..];
  }

  lemma DropLineIsLine(db: string, ifExists: bool)
    requires Provider.PlainName(db)
    ensures IsLine(DropLine(db, ifExists))
  {
    var rest := (if ifExists then IfExistsWords else "") + (db + ";");
    var t := DropCommand + rest;
    assert '\n' !in rest && '\n' !in t;
    assert DropLine(db, ifExists)[..|t|] == t;
  }

  lemma DropLineIsRead(db: string, ifExists: bool)
    requires Provider.PlainName(db)
    ensures ActionOf(DropLine(db, ifExists)) == DropDatabase(db, ifExists)
    ensures Classify(DropLine(db, ifExists)) == Other
  {
    hide TrimSpace, UnscannedAction, DropOf, Classify, Plain, Provider.PlainName;
    var rest := (if ifExists then IfExistsWords else "") + (db + ";");
    var line := DropLine(db, ifExists);
    TrimDrop(rest);
    StartsWithD(line);
    DropIsUnscanned(rest);
    DropWordsAreRead(db, ifExists);
  }

  lemma TrimDrop(rest: string)
    requires rest != "" && rest[|rest| - 1] == ';'
    ensures TrimSpace(DropCommand + rest + "\n") == DropCommand + rest
    ensures (DropCommand + rest)[0] == 'D' && HasSuffix(rest, ";")
  {
    hide TrimSpace;
    var t := DropCommand + rest;
    assert t[0] == 'D' && t[|t| - 1] == rest[|rest| - 1];
    TrimLine(t);
    assert rest[|rest| - 1..] == ";";
  }

  /** What pg_dump --create --clean writes around its contents, with one line of
  them. */
  function CleanDump(db: string, ifExists: bool, options: string, table: string): seq<string> {
    [DropLine(db, ifExists), CreateLine(db, options), ConnectLine(db), table]
  }

  /** The scan of a text from one of its lines on. */
  lemma ScanFromLine(line: string, rest: string, n: nat, h: DumpHeader)
    requires IsLine(line) && |line| <= MaxToken && n > 0
    ensures var all, more := ScanLines(line + rest, false), ScanLines(rest, false);
      ScanFrom(all.lines, all.end, n, h) ==
        if Classify(line).Data? then Ok(h)
        else
          match Note(h, Classify(line))
          case Err(e) => Err(e)
          case Ok(next) => ScanFrom(more.lines, more.end, n - 1, next)
  {
    hide Classify, ScanFrom, ScanLines, DropCR, Note;
    var head := line[..|line| - 1];
    var all := ScanLines(line + rest, false);
    assert line == head + "\n" && line + rest == head + "\n" + rest;
    ScanLine(head, rest, false);
    ClassifySame(head);
    assert all.lines[1..] == ScanLines(rest, false).lines;
    ScanStep(all.lines, all.end, n, h);
  }

  lemma CleanDumpLines(db: string, ifExists: bool, options: string, table: string)
    requires Provider.PlainName(db) && '\n' !in options && (options == "" || options[0] == ' ')
    requires IsLine(table) && Classify(table).Data?
    ensures var lines := CleanDump(db, ifExists, options, table);
      && (forall j :: 0 <= j < |lines| ==> IsLine(lines[j]))
      && Classify(lines[0]) == Other && ActionOf(lines[0]) == DropDatabase(db, ifExists)
      && Classify(lines[1]) == Create(Ok(db)) && EndsStatement(lines[1])
      && Classify(lines[2]) == Connect(Ok(db))
      && InputLines(Concat(lines)) == lines
  {
    hide Classify, EndsStatement, InputLines, IsLine, ActionOf, DropLine, CreateLine, ConnectLine, Concat;
    DropLineIsLine(db, ifExists);
    DropLineIsRead(db, ifExists);
    CreateLineIsRead(db, options);
    ConnectLineIsRead(db);
    CommandLines(db, options);
    LinesAreRead(CleanDump(db, ifExists, options, table));
  }

  lemma CleanDumpHeader(db: string, ifExists: bool, options: string, table: string)
    requires Provider.PlainName(db) && '\n' !in options && (options == "" || options[0] == ' ')
    requires |db| + |options| + 32 <= MaxToken
    requires IsLine(table) && Classify(table).Data? && |table| <= MaxToken
    ensures HeaderOf(Stream(Concat(CleanDump(db, ifExists, options, table)), false)) == Ok(DumpHeader(db, false))
  {
    hide Classify, EndsStatement, InputLines, IsLine, ActionOf, ScanFrom, ScanLines, Concat;
    var lines := CleanDump(db, ifExists, options, table);
    CleanDumpLines(db, ifExists, options, table);
    ConcatFour(lines[0], lines[1], lines[2], lines[3]);
    var h := DumpHeader(db, false);
    ScanFromLine(lines[0], lines[1] + (lines[2] + (table + "")), HeaderLines, NoHeader);
    ScanFromLine(lines[1], lines[2] + (table + ""), HeaderLines - 1, NoHeader);
    ScanFromLine(lines[2], table + "", HeaderLines - 2, h);
    ScanFromLine(table, "", HeaderLines - 3, h);
  }

  lemma ConcatFour(a: string, b: string, c: string, d: string)
    ensures Concat([a, b, c, d]) == a + (b + (c + (d + "")))
  {
    assert [a, b, c, d][1..] == [b, c, d] && [b, c, d][1..] == [c, d] && [c, d][1..] == [d] && [d][1..] == [];
    assert Concat([d]) == d + "";
    assert Concat([c, d]) == c + Concat([d]);
    assert Concat([b, c, d]) == b + Concat([c, d]);
  }

  /** A dump of pg_dump --create --clean is accepted, with or without --if-exists, and
  the run replaces a target that is not empty and reports success. */
  lemma CleanDumpReplacesTarget<S(!new), C(!new)>(p: Psql<S, C>, rows: C -> Option<nat>, db: string, ifExists: bool,
                                                  options: string, table: string, uri: Uri, server: Server<C>)
    requires Provider.PlainName(db) && '\n' !in options && (options == "" || options[0] == ' ')
    requires |db| + |options| + 32 <= MaxToken
    requires IsLine(table) && Classify(table).Data? && |table| <= MaxToken
    requires !p.pending(p.first) && db in server && !p.looksEmpty(server[db])
    requires MaintenanceUri(uri, db).named in server && MaintenanceUri(uri, db).named != db
    ensures var text := Concat(CleanDump(db, ifExists, options, table));
      var loaded := p.step(table, p.reconnect(p.first), db, server[db := p.empty]);
      && CheckDump(text, db, None) == None
      && Finish(p, Decide(p, rows, Env(true, true, true, None, Some(text)), Import, db, uri, server), server) ==
           (if loaded.ok && db in loaded.server then Ok(Provisioned) else Err(LoadFailed), loaded.server)
  {
    hide InputLines, HeaderOf, Edited, Run, Classify, ActionOf, IsLine, EndsStatement, CleanDump, Concat;
    CleanDumpHeader(db, ifExists, options, table);
    CleanDumpLines(db, ifExists, options, table);
    RunCleanDump(p, db, ifExists, options, table, MaintenanceUri(uri, db).named, server);
  }

  lemma RunCleanDump<S, C>(p: Psql<S, C>, db: string, ifExists: bool, options: string, table: string,
                           conn: string, server: Server<C>)
    requires var lines := CleanDump(db, ifExists, options, table);
      && ActionOf(lines[0]) == DropDatabase(db, ifExists)
      && Creates(lines[1], db) && EndsStatement(lines[1])
      && Classify(lines[2]) == Connect(Ok(db)) && Classify(table).Data?
    requires !p.pending(p.first) && db in server && conn in server && conn != db
    ensures var loaded := p.step(table, p.reconnect(p.first), db, server[db := p.empty]);
      Run(p, CleanDump(db, ifExists, options, table), conn, p.first, server) ==
        Outcome(loaded.server, loaded.ok && db in loaded.server)
  {
    hide Run, Classify, ActionOf, EndsStatement, DropLine, CreateLine, ConnectLine;
    var lines := CleanDump(db, ifExists, options, table);
    assert lines == [lines[0]] + lines[1..] && lines[1..] == [lines[1]] + lines[2..] && lines[2..] == [lines[2]] + [table];
    RunDrop(p, lines[0], lines[1..], conn, p.first, server);
    RunCreate(p, lines[1], lines[2..], db, conn, p.first, server - {db});
    assert (server - {db})[db := p.empty] == server[db := p.empty];
    ConnectIsSwitch(lines[2], db);
    RunSwitch(p, lines[2], [table], db, conn, p.first, server[db := p.empty]);
    DataIsStatement(table);
    RunStatement(p, table, db, p.reconnect(p.first), server[db := p.empty]);
  }

  lemma DataIsStatement(line: string)
    requires Classify(line).Data?
    ensures ActionOf(line) == Statement
  {
    hide Classify;
  }

  // ----- when the edit preserves the meaning -----

  predicate Drops(line: string, db: string) {
    ActionOf(line).DropDatabase? && ActionOf(line).db == db
  }

  /** With a DROP DATABASE line before CREATE DATABASE, the edited dump drops a target
  that looks empty and then fails at the \connect. */
  lemma EditedDropLosesTarget<S(!new), C(!new)>(p: Psql<S, C>, text: string, db: string, d: Shape, pre: seq<string>,
                                                drop: string, more: seq<string>, conn: string, server: Server<C>)
    requires Formed(text, db, d) && db != "" && d.pre == pre + [drop] + more && Drops(drop, db)
    requires HeaderOf(Stream(text, false)).Ok? && HeaderOf(Stream(text, false)).value.database == db
    requires Preface(p, pre, p.first) && forall s :: !p.pending(s) ==> Preface(p, more + d.mid, s)
    requires conn in server && conn != db && db in server && SessionAfter(p, pre, p.first, conn, server).Some?
    ensures Edited(Stream(text, false), db).Ok?
    ensures Load(p, Edited(Stream(text, false), db).value, conn, server) == Outcome(server - {db}, false)
  {
    hide InputLines, HeaderOf, Edited, KeepsOver, ActionOf, SessionAfter, Run, Classify, EndsStatement;
    AcceptedIsEditable(text, db, d);
    var without, tail, end := server - {db}, more + d.mid, [d.connect] + d.body;
    assert d.pre + (d.mid + [d.connect] + d.body) == pre + ([drop] + (tail + end));
    RunSession(p, pre, [drop] + (tail + end), conn, p.first, server);
    var s := SessionAfter(p, pre, p.first, conn, server).value;
    RunDrop(p, drop, tail + end, conn, s, server);
    RunSession(p, tail, end, conn, s, without);
    var after := SessionAfter(p, tail, s, conn, without);
    if after.Some? {
      ConnectIsSwitch(d.connect, db);
      RunSwitch(p, d.connect, d.body, db, conn, after.value, without);
    }
  }

  /** A psql whose statements do nothing. */
  function Idler(): Psql<bool, bool> {
    Psql(false, (s: bool) => s, (s: bool) => false,
         (line: string, s: bool, conn: string, server: Server<bool>) => Step(s, server, true), false, (c: bool) => true)
  }

  lemma {:induction false} IdlerKeepsOver(lines: seq<string>, s: bool, conn: string, server: Server<bool>)
    ensures KeepsOver(Idler(), lines, s, conn, server)
    ensures SessionAfter(Idler(), lines, s, conn, server) == Some(s)
    decreases |lines|
  {
    if lines != [] {
      IdlerKeepsOver(lines[1..], s, conn, server);
    }
  }

  lemma IdlerHasPreface(lines: seq<string>, s: bool, db: string)
    requires forall l :: l in lines ==> IsStatement(l)
    ensures Preface(Idler(), lines, s) && IgnoresDatabase(Idler(), lines, s, db)
  {
    hide KeepsOver, SessionAfter, IsStatement, Idler;
    forall conn, server: Server<bool> | conn in server ensures KeepsOver(Idler(), lines, s, conn, server) {
      IdlerKeepsOver(lines, s, conn, server);
    }
    forall conn, server: Server<bool>, c | conn in server && conn != db
      ensures SameSession(Idler(), lines, s, conn, server, db, c)
    {
      IdlerKeepsOver(lines, s, conn, server);
      IdlerKeepsOver(lines, s, conn, server[db := c]);
    }
  }

  lemma {:induction false} IdlerStaysOn(lines: seq<string>, s: bool, server: Server<bool>, db: string)
    requires db in server && forall l :: l in lines ==> IsStatement(l) || ActionOf(l) == Switch(db)
    ensures StaysOn(Idler(), lines, s, server, db)
    decreases |lines|
  {
    hide ActionOf;
    if lines != [] {
      assert lines[0] in lines;
      IdlerStaysOn(lines[1..], s, server, db);
    }
  }

  lemma IdlerRestores(pre: seq<string>, mid: seq<string>, body: seq<string>, db: string)
    requires (forall l :: l in pre ==> IsStatement(l)) && forall l :: l in mid ==> IsStatement(l)
    requires forall l :: l in body ==> IsStatement(l) || ActionOf(l) == Switch(db)
    ensures Restores(Idler(), pre, mid, body, db)
  {
    hide IsStatement, ActionOf, StaysOn, Preface, IgnoresDatabase;
    IdlerHasPreface(pre, false, db);
    forall s | !Idler().pending(s) ensures Preface(Idler(), mid, s) {
      IdlerHasPreface(mid, s, db);
    }
    forall s, server: Server<bool> | db in server && Idler().looksEmpty(server[db])
      ensures StaysOn(Idler(), body, Idler().reconnect(s), server, db)
    {
      IdlerStaysOn(body, s, server, db);
    }
  }

  /** Without the CREATE DATABASE line there is no way back: once db is dropped, the
  \connect fails. */
  lemma {:induction false} IdlerLoses(lines: seq<string>, connect: string, rest: seq<string>, conn: string,
                                      server: Server<bool>, db: string)
    requires conn in server && conn != db && ActionOf(connect) == Switch(db)
    requires forall l :: l in lines ==> IsStatement(l) || Drops(l, db)
    requires db in server ==> exists l :: l in lines && Drops(l, db)
    ensures db !in Run(Idler(), lines + [connect] + rest, conn, false, server).server
    decreases |lines|
  {
    hide ActionOf;
    var all := lines + [connect] + rest;
    if lines == [] {
      assert all == [connect] + rest;
      RunSwitch(Idler(), connect, rest, db, conn, false, server);
    } else {
      assert all[0] == lines[0] && all[1..] == lines[1..] + [connect] + rest;
      assert lines[0] in lines;
      if Drops(lines[0], db) {
        assert all == [lines[0]] + all[1..];
        RunDrop(Idler(), lines[0], all[1..], conn, false, server);
        IdlerLoses(lines[1..], connect, rest, conn, server - {db}, db);
      } else {
        IdlerLoses(lines[1..], connect, rest, conn, server, db);
      }
    }
  }

  /** For an accepted dump with session statements and DROP DATABASE lines for its
  database before CREATE DATABASE, the edit preserves the meaning, whatever psql
  makes of the statements, if and only if there is no such DROP DATABASE line. */
  lemma EditPreservesExactly(text: string, db: string, d: Shape)
    requires Formed(text, db, d) && db != ""
    requires HeaderOf(Stream(text, false)).Ok? && HeaderOf(Stream(text, false)).value.database == db
    requires forall l :: l in d.pre ==> IsStatement(l) || Drops(l, db)
    requires forall l :: l in d.mid ==> IsStatement(l)
    requires forall l :: l in d.body ==> IsStatement(l) || ActionOf(l) == Switch(db)
    ensures (forall l :: l in d.pre ==> IsStatement(l)) <==>
      forall p: Psql<bool, bool>, conn: string, server: Server<bool> |
        Restores(p, BeforeCommands(d.pre), d.mid, d.body, db) && conn in server && db !in server ::
        SameMeaning(p, text, db, conn, server)
  {
    hide Formed, HeaderOf, Restores, SameMeaning, IsStatement, ActionOf;
    if forall l :: l in d.pre ==> IsStatement(l) {
      AllBeforeCommands(d.pre);
      forall p: Psql<bool, bool>, conn: string, server: Server<bool> |
        Restores(p, BeforeCommands(d.pre), d.mid, d.body, db) && conn in server && db !in server
        ensures SameMeaning(p, text, db, conn, server)
      {
        EditPreservesMeaning(p, text, db, d, conn, server);
      }
    } else {
      var conn := if db == "template1" then "postgres" else "template1";
      EditLosesMeaning(text, db, d, conn, map[conn := false]);
    }
  }

  lemma {:induction false} AllBeforeCommands(lines: seq<string>)
    requires forall l :: l in lines ==> IsStatement(l)
    ensures BeforeCommands(lines) == lines
    decreases |lines|
  {
    hide IsStatement;
    if lines != [] {
      assert lines[0] in lines;
      AllBeforeCommands(lines[1..]);
    }
  }

  lemma EditLosesMeaning(text: string, db: string, d: Shape, conn: string, server: Server<bool>)
    requires Formed(text, db, d) && db != ""
    requires HeaderOf(Stream(text, false)).Ok? && HeaderOf(Stream(text, false)).value.database == db
    requires forall l :: l in d.pre ==> IsStatement(l) || Drops(l, db)
    requires forall l :: l in d.mid ==> IsStatement(l)
    requires forall l :: l in d.body ==> IsStatement(l) || ActionOf(l) == Switch(db)
    requires (exists l :: l in d.pre && !IsStatement(l)) && conn in server && conn != db && db !in server
    ensures Restores(Idler(), BeforeCommands(d.pre), d.mid, d.body, db)
    ensures !SameMeaning(Idler(), text, db, conn, server)
  {
    hide HeaderOf, Restores, IsStatement, ActionOf, InputLines, Edited, Run, Classify, EndsStatement, Idler;
    IdlerRestores(BeforeCommands(d.pre), d.mid, d.body, db);
    AcceptedIsEditable(text, db, d);
    ConnectIsSwitch(d.connect, db);
    var lines := d.pre + d.mid;
    assert d.pre + (d.mid + [d.connect] + d.body) == lines + [d.connect] + d.body;
    var l :| l in d.pre && !IsStatement(l);
    assert l in lines && Drops(l, db);
    IdlerIs();
    IdlerLoses(lines, d.connect, d.body, conn, server[db := false], db);
  }

  lemma IdlerIs()
    ensures Idler().first == false && Idler().empty == false
  {
  }
}
