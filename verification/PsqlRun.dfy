/** psql on a text, over a server that maps database names to contents: the load
functions of internal/pg/pg.go hand a dump to it. It stops at the first error. */
module PsqlRun {
  import opened GoText
  import opened Dump

  type Server<C> = map<string, C>

  datatype Step<S, C> = Step(session: S, server: Server<C>, ok: bool)

  /** psql and the server behind it. S is the state of a session, with the part of
  a statement or of COPY data that has been read so far; C is what a database
  holds. A line that is not one of the commands below goes to step, with the
  session, the database it is connected to and the server: it can do anything to
  the session and to every database. A database looks empty when the probe counts
  nothing in it; it can still hold what the probe does not count, such as a schema
  or a large object. */
  datatype Psql<!S, !C> = Psql(
    first: S,
    reconnect: S -> S,
    pending: S -> bool,
    step: (string, S, string, Server<C>) -> Step<S, C>,
    empty: C,
    looksEmpty: C -> bool)

  datatype Action =
    | MakeDatabase(db: string)
    | DropDatabase(db: string, ifExists: bool)
    | Switch(db: string)
    | BadCommand
    | Statement

  const DropCommand := "DROP DATABASE "
  const IfExistsWords := "IF EXISTS "
  const ShortConnect := "\\c "

  function DropOf(rest: string): Action {
    var ifExists := IfExistsWords <= rest;
    match Identifier(if ifExists then rest[|IfExistsWords|..] else rest)
    case Ok(db) => DropDatabase(db, ifExists)
    case Err(_) => Statement
  }

  /** The commands that the scan of the header does not know: DROP DATABASE, and the
  short form of \connect. */
  function UnscannedAction(t: string): Action {
    if ShortConnect <= t then
      match ConnectTarget(t[|ShortConnect|..])
      case Ok(db) => Switch(db)
      case Err(_) => BadCommand
    else if DropCommand <= t && HasSuffix(t, ";") then DropOf(t[|DropCommand|..])
    else Statement
  }

  /** What psql does with a line that does not continue an earlier one. */
  function ActionOf(line: string): Action {
    match Classify(line)
    case Create(Ok(db)) => if EndsStatement(line) then MakeDatabase(db) else Statement
    case Connect(Ok(db)) => Switch(db)
    case Connect(Err(_)) => BadCommand
    case Other => UnscannedAction(TrimSpace(line))
    case _ => Statement
  }

  /** The line is a statement to psql, and the scan of the header passes over it. */
  predicate IsStatement(line: string) {
    ActionOf(line) == Statement && !Named(line)
  }

  datatype Outcome<C> = Outcome(server: Server<C>, ok: bool)

  function Do<S, C>(p: Psql<S, C>, s: S, line: string): Action {
    if p.pending(s) then Statement else ActionOf(line)
  }

  /** psql on the lines left, connected to conn. The database it is connected to
  cannot be dropped, and without it there is no session. */
  function Run<S, C>(p: Psql<S, C>, lines: seq<string>, conn: string, s: S, server: Server<C>): Outcome<C>
    requires conn in server
    decreases |lines|
  {
    if lines == [] then Outcome(server, true)
    else
      match Do(p, s, lines[0])
      case MakeDatabase(db) =>
        if db in server then Outcome(server, false) else Run(p, lines[1..], conn, s, server[db := p.empty])
      case DropDatabase(db, ifExists) =>
        if db == conn || (db !in server && !ifExists) then Outcome(server, false)
        else Run(p, lines[1..], conn, s, server - {db})
      case Switch(db) =>
        if db in server then Run(p, lines[1..], db, p.reconnect(s), server) else Outcome(server, false)
      case BadCommand => Outcome(server, false)
      case Statement =>
        var r := p.step(lines[0], s, conn, server);
        if r.ok && conn in r.server then Run(p, lines[1..], conn, r.session, r.server) else Outcome(r.server, false)
  }

  /** The lines psql reads of a text. */
  function InputLines(text: string): seq<string> {
    var lines := RawLines(text);
    if lines[|lines| - 1] == "" then lines[..|lines| - 1] else lines
  }

  /** psql started on a text, with a connection to conn. */
  function Load<S, C>(p: Psql<S, C>, text: string, conn: string, server: Server<C>): Outcome<C> {
    if conn in server then Run(p, InputLines(text), conn, p.first, server) else Outcome(server, false)
  }

  /** What a database holds; one that does not exist holds nothing. */
  function ContentsOf<S, C>(p: Psql<S, C>, server: Server<C>, db: string): C {
    if db in server then server[db] else p.empty
  }

  /** A PostgreSQL server. */
  class Cluster<C> {
    var dbs: Server<C>

    constructor (dbs: Server<C>)
      ensures this.dbs == dbs
    {
      this.dbs := dbs;
    }
  }

  /** psql run on a text against the cluster. */
  method LoadInto<S, C>(p: Psql<S, C>, text: string, conn: string, cluster: Cluster<C>) returns (ok: bool)
    modifies cluster
    ensures Outcome(cluster.dbs, ok) == Load(p, text, conn, old(cluster.dbs))
  {
    if conn !in cluster.dbs {
      return false;
    }
    hide ActionOf;
    var lines, at, session, k := InputLines(text), conn, p.first, 0;
    ghost var all := Load(p, text, conn, cluster.dbs);
    while k < |lines|
      invariant 0 <= k <= |lines| && at in cluster.dbs
      invariant Run(p, lines[k..], at, session, cluster.dbs) == all
    {
      var line := lines[k];
      assert lines[k..][1..] == lines[k + 1..];
      match Do(p, session, line) {
        case MakeDatabase(db) =>
          if db in cluster.dbs {
            return false;
          }
          cluster.dbs := cluster.dbs[db := p.empty];
        case DropDatabase(db, ifExists) =>
          if db == at || (db !in cluster.dbs && !ifExists) {
            return false;
          }
          cluster.dbs := cluster.dbs - {db};
        case Switch(db) =>
          if db !in cluster.dbs {
            return false;
          }
          at, session := db, p.reconnect(session);
        case BadCommand =>
          return false;
        case Statement =>
          var r := p.step(line, session, at, cluster.dbs);
          cluster.dbs := r.server;
          if !r.ok || at !in cluster.dbs {
            return false;
          }
          session := r.session;
      }
      k := k + 1;
    }
    return true;
  }

  // ----- session statements -----

  /** From session s on, the lines are whole session statements: they keep the whole
  server, and none is open after the last line. */
  predicate KeepsOver<S, C(==)>(p: Psql<S, C>, lines: seq<string>, s: S, conn: string, server: Server<C>)
    decreases |lines|
  {
    if lines == [] then !p.pending(s)
    else
      var r := p.step(lines[0], s, conn, server);
      r.server == server && (r.ok ==> KeepsOver(p, lines[1..], r.session, conn, server))
  }

  /** Lines of session statements and no command, on every server. */
  ghost predicate Preface<S, C(!new)>(p: Psql<S, C>, lines: seq<string>, s: S) {
    && (forall l :: l in lines ==> IsStatement(l))
    && forall conn, server: Server<C> :: conn in server ==> KeepsOver(p, lines, s, conn, server)
  }

  /** The session after session statements, or None when one fails. */
  function SessionAfter<S, C>(p: Psql<S, C>, lines: seq<string>, s: S, conn: string, server: Server<C>): Option<S>
    decreases |lines|
  {
    if lines == [] then Some(s)
    else
      var r := p.step(lines[0], s, conn, server);
      if r.ok then SessionAfter(p, lines[1..], r.session, conn, server) else None
  }

  /** The lines give the same session whether or not db exists, and whatever it
  holds. */
  ghost predicate IgnoresDatabase<S(!new), C(!new)>(p: Psql<S, C>, lines: seq<string>, s: S, db: string) {
    forall conn, server: Server<C>, c :: conn in server && conn != db ==> SameSession(p, lines, s, conn, server, db, c)
  }

  ghost predicate SameSession<S, C>(p: Psql<S, C>, lines: seq<string>, s: S, conn: string, server: Server<C>, db: string, c: C) {
    SessionAfter(p, lines, s, conn, server[db := c]) == SessionAfter(p, lines, s, conn, server)
  }

  lemma {:induction false} RunSession<S(!new), C(!new)>(
      p: Psql<S, C>, lines: seq<string>, rest: seq<string>, conn: string, s: S, server: Server<C>)
    requires conn in server && KeepsOver(p, lines, s, conn, server)
    requires forall l :: l in lines ==> IsStatement(l)
    ensures var after := SessionAfter(p, lines, s, conn, server);
      && (after.None? ==> Run(p, lines + rest, conn, s, server) == Outcome(server, false))
      && (after.Some? ==> !p.pending(after.value))
      && (after.Some? ==> Run(p, lines + rest, conn, s, server) == Run(p, rest, conn, after.value, server))
    decreases |lines|
  {
    hide ActionOf;
    if lines == [] {
      assert lines + rest == rest;
    } else {
      var line := lines[0];
      assert IsStatement(line);
      assert (lines + rest)[0] == line && (lines + rest)[1..] == lines[1..] + rest;
      var r := p.step(line, s, conn, server);
      if r.ok {
        RunSession(p, lines[1..], rest, conn, r.session, server);
      }
    }
  }

  // One line at a time.

  /** One line that is a whole session statement, and gives the same session whether
  or not any other database exists. */
  ghost predicate SessionLine<S(!new), C(!new)>(p: Psql<S, C>, line: string) {
    && IsStatement(line)
    && (forall s, conn, server: Server<C> :: conn in server && !p.pending(s) ==> KeepsServer(p, line, s, conn, server))
    && forall s, conn, server: Server<C>, db, c :: conn in server && conn != db && !p.pending(s) ==> StepIgnores(p, line, s, conn, server, db, c)
  }

  ghost predicate KeepsServer<S, C>(p: Psql<S, C>, line: string, s: S, conn: string, server: Server<C>) {
    var r := p.step(line, s, conn, server);
    r.server == server && !p.pending(r.session)
  }

  ghost predicate StepIgnores<S, C>(p: Psql<S, C>, line: string, s: S, conn: string, server: Server<C>, db: string, c: C) {
    var a, b := p.step(line, s, conn, server[db := c]), p.step(line, s, conn, server);
    a.ok == b.ok && a.session == b.session
  }

  lemma {:induction false} SessionLinesKeep<S(!new), C(!new)>(
      p: Psql<S, C>, lines: seq<string>, s: S, conn: string, server: Server<C>)
    requires !p.pending(s) && conn in server && forall l :: l in lines ==> SessionLine(p, l)
    ensures KeepsOver(p, lines, s, conn, server)
    decreases |lines|
  {
    hide IsStatement, StepIgnores;
    if lines != [] {
      assert SessionLine(p, lines[0]) && KeepsServer(p, lines[0], s, conn, server);
      var r := p.step(lines[0], s, conn, server);
      if r.ok {
        SessionLinesKeep(p, lines[1..], r.session, conn, server);
      }
    }
  }

  lemma {:induction false} SessionLinesIgnore<S(!new), C(!new)>(
      p: Psql<S, C>, lines: seq<string>, s: S, conn: string, server: Server<C>, db: string, c: C)
    requires !p.pending(s) && conn in server && conn != db && forall l :: l in lines ==> SessionLine(p, l)
    ensures SameSession(p, lines, s, conn, server, db, c)
    decreases |lines|
  {
    hide IsStatement;
    if lines != [] {
      assert SessionLine(p, lines[0]) && KeepsServer(p, lines[0], s, conn, server);
      assert StepIgnores(p, lines[0], s, conn, server, db, c);
      var r := p.step(lines[0], s, conn, server);
      if r.ok {
        SessionLinesIgnore(p, lines[1..], r.session, conn, server, db, c);
        assert SameSession(p, lines[1..], r.session, conn, server, db, c);
      }
    }
  }

  lemma SessionLinesArePreface<S(!new), C(!new)>(p: Psql<S, C>, lines: seq<string>, s: S, db: string)
    requires !p.pending(s) && forall l :: l in lines ==> SessionLine(p, l)
    ensures Preface(p, lines, s) && IgnoresDatabase(p, lines, s, db)
  {
    hide IsStatement, KeepsOver, SameSession;
    forall conn, server: Server<C> | conn in server ensures KeepsOver(p, lines, s, conn, server) {
      SessionLinesKeep(p, lines, s, conn, server);
    }
    forall conn, server: Server<C>, c | conn in server && conn != db ensures SameSession(p, lines, s, conn, server, db, c) {
      SessionLinesIgnore(p, lines, s, conn, server, db, c);
    }
  }

  // ----- single commands -----

  lemma RunCreate<S, C>(p: Psql<S, C>, line: string, rest: seq<string>, db: string, conn: string, s: S, server: Server<C>)
    requires conn in server && !p.pending(s) && Creates(line, db) && EndsStatement(line)
    ensures Run(p, [line] + rest, conn, s, server) ==
      if db in server then Outcome(server, false) else Run(p, rest, conn, s, server[db := p.empty])
  {
    hide Classify, EndsStatement;
    assert ([line] + rest)[0] == line && ([line] + rest)[1..] == rest;
  }

  lemma RunSwitch<S, C>(p: Psql<S, C>, line: string, rest: seq<string>, db: string, conn: string, s: S, server: Server<C>)
    requires ActionOf(line) == Switch(db) && !p.pending(s) && conn in server
    ensures Run(p, [line] + rest, conn, s, server) ==
      if db in server then Run(p, rest, db, p.reconnect(s), server) else Outcome(server, false)
  {
    hide ActionOf;
    assert ([line] + rest)[0] == line && ([line] + rest)[1..] == rest;
  }

  lemma RunDrop<S, C>(p: Psql<S, C>, line: string, rest: seq<string>, conn: string, s: S, server: Server<C>)
    requires ActionOf(line).DropDatabase? && !p.pending(s) && conn in server && ActionOf(line).db != conn
    ensures var db := ActionOf(line).db;
      Run(p, [line] + rest, conn, s, server) ==
        if db !in server && !ActionOf(line).ifExists then Outcome(server, false)
        else Run(p, rest, conn, s, server - {db})
  {
    hide ActionOf;
    assert ([line] + rest)[0] == line && ([line] + rest)[1..] == rest;
  }

  lemma RunStatement<S, C>(p: Psql<S, C>, line: string, conn: string, s: S, server: Server<C>)
    requires ActionOf(line) == Statement && conn in server
    ensures var r := p.step(line, s, conn, server);
      Run(p, [line], conn, s, server) == Outcome(r.server, r.ok && conn in r.server)
  {
    hide ActionOf;
    assert [line][1..] == [];
  }

  lemma ConnectIsSwitch(line: string, db: string)
    requires Classify(line) == Connect(Ok(db))
    ensures ActionOf(line) == Switch(db) && Named(line)
  {
    hide Classify;
  }

  // ----- a body that stays on its database -----

  /** Only db differs, and it is there. */
  predicate OnlyIn<C(==)>(before: Server<C>, after: Server<C>, db: string) {
    db in after && after == before[db := after[db]]
  }

  /** From session s on, connected to db, these lines are statements that change db
  only, and \connect lines to db. */
  ghost predicate StaysOn<S, C>(p: Psql<S, C>, lines: seq<string>, s: S, server: Server<C>, db: string)
    decreases |lines|
  {
    lines == [] ||
    match Do(p, s, lines[0])
    case Switch(other) => other == db && StaysOn(p, lines[1..], p.reconnect(s), server, db)
    case Statement =>
      var r := p.step(lines[0], s, db, server);
      OnlyIn(server, r.server, db) && (r.ok ==> StaysOn(p, lines[1..], r.session, r.server, db))
    case _ => false
  }

  lemma {:induction false} RunStays<S, C>(p: Psql<S, C>, lines: seq<string>, s: S, server: Server<C>, db: string)
    requires db in server && StaysOn(p, lines, s, server, db)
    ensures OnlyIn(server, Run(p, lines, db, s, server).server, db)
    decreases |lines|
  {
    hide ActionOf;
    if lines != [] {
      match Do(p, s, lines[0]) {
        case Switch(_) =>
          RunStays(p, lines[1..], p.reconnect(s), server, db);
        case Statement =>
          var r := p.step(lines[0], s, db, server);
          if r.ok {
            RunStays(p, lines[1..], r.session, r.server, db);
          }
      }
    }
  }

  // ----- two servers that differ in one database -----

  /** The servers agree, but for contents of db that are alike. */
  ghost predicate AlikeServers<C>(a: Server<C>, b: Server<C>, db: string, like: (C, C) -> bool) {
    && a.Keys == b.Keys
    && (forall x :: x in a && x != db ==> a[x] == b[x])
    && (db in a ==> like(a[db], b[db]))
  }

  ghost predicate Alike<C>(a: Outcome<C>, b: Outcome<C>, db: string, like: (C, C) -> bool) {
    a.ok == b.ok && AlikeServers(a.server, b.server, db, like)
  }

  /** The lines do the same on servers that are alike, and leave them alike. */
  ghost predicate Blind<S(!new), C(!new)>(p: Psql<S, C>, lines: seq<string>, db: string, like: (C, C) -> bool) {
    forall l, s, conn, a: Server<C>, b: Server<C> :: l in lines && conn in a && AlikeServers(a, b, db, like) ==>
      SameStep(p, l, s, conn, a, b, db, like)
  }

  ghost predicate SameStep<S, C>(p: Psql<S, C>, line: string, s: S, conn: string, a: Server<C>, b: Server<C>,
                                 db: string, like: (C, C) -> bool)
  {
    var x, y := p.step(line, s, conn, a), p.step(line, s, conn, b);
    x.ok == y.ok && x.session == y.session && AlikeServers(x.server, y.server, db, like)
  }

  lemma {:induction false} SessionAlike<S(!new), C(!new)>(p: Psql<S, C>, like: (C, C) -> bool, lines: seq<string>, conn: string,
                                                         s: S, a: Server<C>, b: Server<C>, db: string)
    requires Blind(p, lines, db, like) && AlikeServers(a, b, db, like) && conn in a
    requires KeepsOver(p, lines, s, conn, a) && KeepsOver(p, lines, s, conn, b)
    ensures SessionAfter(p, lines, s, conn, a) == SessionAfter(p, lines, s, conn, b)
    decreases |lines|
  {
    hide SameStep, AlikeServers;
    if lines != [] {
      BlindTail(p, lines, db, like);
      StepAlike(p, like, lines[0], conn, s, a, b, db);
      var x := p.step(lines[0], s, conn, a);
      if x.ok {
        SessionAlike(p, like, lines[1..], conn, x.session, a, b, db);
      }
    }
  }

  /** A body that stays on db, from contents that are alike. */
  lemma {:induction false} RunAlike<S(!new), C(!new)>(p: Psql<S, C>, like: (C, C) -> bool, lines: seq<string>,
                                                     s: S, a: Server<C>, b: Server<C>, db: string)
    requires Blind(p, lines, db, like) && AlikeServers(a, b, db, like) && db in a && db in b
    requires StaysOn(p, lines, s, a, db)
    ensures Alike(Run(p, lines, db, s, a), Run(p, lines, db, s, b), db, like)
    decreases |lines|
  {
    hide ActionOf, SameStep, AlikeServers;
    if lines != [] {
      BlindTail(p, lines, db, like);
      match Do(p, s, lines[0]) {
        case Switch(_) =>
          RunAlike(p, like, lines[1..], p.reconnect(s), a, b, db);
        case Statement =>
          StepAlike(p, like, lines[0], db, s, a, b, db);
          var x, y := p.step(lines[0], s, db, a), p.step(lines[0], s, db, b);
          if x.ok {
            RunAlike(p, like, lines[1..], x.session, x.server, y.server, db);
          }
      }
    }
  }

  lemma BlindTail<S(!new), C(!new)>(p: Psql<S, C>, lines: seq<string>, db: string, like: (C, C) -> bool)
    requires lines != [] && Blind(p, lines, db, like)
    ensures Blind(p, lines[1..], db, like)
    ensures forall s, conn, a: Server<C>, b: Server<C> :: conn in a && AlikeServers(a, b, db, like) ==>
      SameStep(p, lines[0], s, conn, a, b, db, like)
  {
    hide SameStep, AlikeServers;
    assert forall l :: l in lines[1..] ==> l in lines;
    assert lines[0] in lines;
  }

  lemma StepAlike<S(!new), C(!new)>(p: Psql<S, C>, like: (C, C) -> bool, line: string, conn: string, s: S,
                                    a: Server<C>, b: Server<C>, db: string)
    requires conn in a && AlikeServers(a, b, db, like)
    requires forall t, k, x: Server<C>, y: Server<C> :: k in x && AlikeServers(x, y, db, like) ==> SameStep(p, line, t, k, x, y, db, like)
    ensures var x, y := p.step(line, s, conn, a), p.step(line, s, conn, b);
      && x.ok == y.ok && x.session == y.session && AlikeServers(x.server, y.server, db, like)
      && x.server.Keys == y.server.Keys
  {
    assert SameStep(p, line, s, conn, a, b, db, like);
  }

  lemma BlindFewer<S(!new), C(!new)>(p: Psql<S, C>, lines: seq<string>, fewer: seq<string>, db: string, like: (C, C) -> bool)
    requires Blind(p, lines, db, like) && forall l :: l in fewer ==> l in lines
    ensures Blind(p, fewer, db, like)
  {
    hide SameStep, AlikeServers;
  }

  lemma EqualIsBlind<S(!new), C(!new)>(p: Psql<S, C>, lines: seq<string>, db: string, same: (C, C) -> bool)
    requires forall x, y :: same(x, y) <==> x == y
    ensures Blind(p, lines, db, same)
  {
    forall l, s, conn, a: Server<C>, b: Server<C> | l in lines && conn in a && AlikeServers(a, b, db, same)
      ensures SameStep(p, l, s, conn, a, b, db, same)
    {
      assert a == b;
    }
  }
}
