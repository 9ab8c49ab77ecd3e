/** Which error a dump is refused with: by the scan of its header, and by the edit that
takes its CREATE DATABASE statement out. */
module DumpErrors {
  import opened GoText
  import opened Dump

  // ----- names -----

  lemma {:induction false} NeverClosed(name: string)
    ensures Unquote(Doubled(name)) == None
    decreases |name|
  {
    hide Unquote;
    if name == "" {
      UnquoteNothing();
    } else {
      NeverClosed(name[1..]);
      if name[0] == '"' {
        UnquotePair(Doubled(name[1..]));
      } else {
        UnquoteStep(name[0], Doubled(name[1..]));
      }
    }
  }

  lemma UnquoteNothing()
    ensures Unquote("") == None
  {
  }

  /** A name in quotes that are not closed is refused, and so is an empty name without
  quotes. */
  lemma UnreadableNames(name: string, rest: string)
    requires rest == "" || rest[0] in {' ', '\t', ';'}
    ensures Identifier("\"" + Doubled(name)) == Err(Unterminated)
    ensures Identifier(rest) == Err(NoName)
  {
    hide Unquote;
    NeverClosed(name);
    assert ("\"" + Doubled(name))[1..] == Doubled(name);
    UntilReads("", rest, {' ', '\t', ';'});
    assert "" + rest == rest;
  }

  /** So is a \connect without a database, with quotes that are not closed, or with a
  connection string that does not start with dbname or is not closed. */
  lemma UnreadableConnects(name: string, rest: string)
    ensures rest == "" || rest[0] in {' ', '\t'} ==> ConnectTarget(rest) == Err(BadConnect)
    ensures ConnectTarget("\"" + Doubled(name)) == Err(Unterminated)
    ensures !("\"dbname='" <= rest) ==> ConnectTarget(ReusePrevious + rest) == Err(BadConnect)
    ensures ConnectTarget(ReusePrevious + (DbnameStart + Escaped(name))) == Err(BadConnect)
  {
    hide Unquote, ValueLength, Escaped, ReplaceAll;
    if rest == "" || rest[0] in {' ', '\t'} {
      UntilReads("", rest, {' ', '\t'});
      assert "" + rest == rest;
    }
    UnreadableNames(name, "");
    StartIsRead(ReusePrevious, rest);
    StartIsRead(ReusePrevious, DbnameStart + Escaped(name));
    StartIsRead(DbnameStart, Escaped(name));
    NotClosed(name);
  }

  lemma {:induction false} NotClosed(name: string)
    ensures ValueLength(Escaped(name)) == |Escaped(name)|
    decreases |name|
  {
    var value := Escaped(name);
    if name != "" {
      NotClosed(name[1..]);
      var n := if name[0] in {'\'', '\\', '"'} then 2 else 1;
      assert value[n..] == Escaped(name[1..]);
      if name[0] == '"' {
        assert value[1..][1..] == value[2..];
      }
    }
  }

  // ----- the scan -----

  /** The first k lines start no table, and the names in them give this header. */
  predicate ScansTo(lines: seq<string>, k: nat, h: DumpHeader, g: DumpHeader)
    requires k <= |lines|
  {
    (forall j :: 0 <= j < k ==> !Classify(lines[j]).Data?) && ScanFrom(lines[..k], AtEnd, k, h) == Ok(g)
  }

  lemma ScansNothing(lines: seq<string>, n: nat, h: DumpHeader)
    ensures ScanFrom(lines[..0], AtEnd, n, h) == Ok(h)
  {
    ScanStep([], AtEnd, n, h);
  }

  /** What the scan says from line k on. */
  lemma {:induction false} ScanGoesOn(lines: seq<string>, end: Ending, n: nat, h: DumpHeader, k: nat, g: DumpHeader)
    requires k <= |lines| && k <= n && ScansTo(lines, k, h, g)
    ensures ScanFrom(lines, end, n, h) == ScanFrom(lines[k..], end, n - k, g)
    decreases k
  {
    hide Classify, ScanFrom, Note;
    if k == 0 {
      ScansNothing(lines, 0, h);
    } else {
      ScanStep(lines, end, n, h);
      ScanStep(lines[..k], AtEnd, k, h);
      assert lines[..k][0] == lines[0] && lines[..k][1..] == lines[1..][..k - 1];
      var next := Note(h, Classify(lines[0]));
      if next.Ok? {
        assert ScansTo(lines[1..], k - 1, next.value, g) by {
          assert forall j :: 0 <= j < k - 1 ==> lines[1..][j] == lines[j + 1];
        }
        ScanGoesOn(lines[1..], end, n - 1, next.value, k - 1, g);
        assert lines[1..][k - 1..] == lines[k..];
      }
    }
  }

  /** The scan fails at the first line that it cannot read, or that names another
  database than the lines before it, with the error of that line. */
  lemma ScanFailsAt(s: Stream, k: nat, before: DumpHeader)
    requires var lines := ScanLines(s.text, s.broken).lines;
      k < |lines| && k < 20000 && ScansTo(lines, k, NoHeader, before) && Named(lines[k])
    ensures var name := NameIn(ScanLines(s.text, s.broken).lines[k]);
      && (name.Err? ==> HeaderOf(s) == Err(name.error))
      && (name.Ok? && before.database != "" && before.database != name.value ==>
           HeaderOf(s) == Err(TwoDatabases(before.database, name.value)))
  {
    hide Classify, ScanFrom, ScanLines, ScansTo;
    var scan := ScanLines(s.text, s.broken);
    ScanGoesOn(scan.lines, scan.end, HeaderLines, NoHeader, k, before);
    ScanStep(scan.lines[k..], scan.end, HeaderLines - k, before);
  }

  /** With names that agree, a failing reader is the error, when it is met. */
  lemma {:induction false} ReaderFails(lines: seq<string>, end: Ending, n: nat, h: DumpHeader)
    requires NamesAgree(lines[..HeadLength(lines, n)], h.database) && !EndsWell(lines, end, n)
    ensures ScanFrom(lines, end, n, h) == Err(ReadFailed)
    decreases n
  {
    hide Classify, Named, Fits, NamesAgree, ScanFrom, Note;
    var k := HeadLength(lines, n);
    ScanStep(lines, end, n, h);
    if k > 0 {
      var line, tail := lines[0], lines[1..][..k - 1];
      assert lines[..k] == [line] + tail;
      NoteMeaning(h, line);
      NamesAgreeStep(line, tail, h.database);
      ReaderFails(lines[1..], end, n - 1, Note(h, Classify(line)).value);
    }
  }

  lemma ScanReadFails(s: Stream)
    requires var scan := ScanLines(s.text, s.broken);
      NamesAgree(scan.lines[..HeadLength(scan.lines, 20000)], "") && !EndsWell(scan.lines, scan.end, 20000)
    ensures HeaderOf(s) == Err(ReadFailed)
  {
    hide NamesAgree, EndsWell, HeadLength, ScanLines, ScanFrom;
    var scan := ScanLines(s.text, s.broken);
    ReaderFails(scan.lines, scan.end, HeaderLines, NoHeader);
  }

  // ----- the edit -----

  /** The edit passes over the first k lines and fails at line k, or before it when it
  has read all the lines it reads. */
  lemma {:induction false} EditFailsFrom(lines: seq<string>, broken: bool, n: nat, db: string, head: string, k: nat)
    requires k < |lines| && k <= n && forall j :: 0 <= j < k ==> PassedOver(lines[j], db)
    ensures var r, kind, last := EditFrom(lines, broken, n, db, head), Classify(lines[k]), k == |lines| - 1;
      && (k == n ==> r == Err(NoCreate))
      && (k < n && last && broken ==> r == Err(ReadFailed))
      && (k < n && !(last && broken) ==>
           && (kind.Create? && kind.target.Err? ==> r == Err(kind.target.error))
           && (Creates(lines[k], db) && !EndsStatement(lines[k]) ==> r == Err(Continues))
           && (kind.Data? || (last && PassedOver(lines[k], db)) ==> r == Err(NoCreate)))
    decreases k
  {
    hide Classify, EndsStatement, EditFrom;
    if n == 0 {
      EditExhausted(lines, broken, db, head);
    } else {
      EditStep(lines, broken, n, db, head);
      if k > 0 {
        assert PassedOver(lines[0], db);
        assert forall j :: 0 <= j < k - 1 ==> lines[1..][j] == lines[j + 1];
        EditFailsFrom(lines[1..], broken, n - 1, db, head + lines[0], k - 1);
      }
    }
  }

  /** When the lines before line k do not create db and start no table, the edit fails
  at line k if it is the last one and the reader fails there, if it is a CREATE
  DATABASE that cannot be read or goes on, if it starts a table, and if no line is
  left; and it fails before line 20000. */
  lemma EditFailsAt(s: Stream, db: string, k: nat)
    requires k < |RawLines(s.text)| && k <= 20000 && forall j :: 0 <= j < k ==> PassedOver(RawLines(s.text)[j], db)
    ensures var lines, r := RawLines(s.text), Edited(s, db);
      var kind, last := Classify(lines[k]), k == |lines| - 1;
      && (k == 20000 ==> r == Err(NoCreate))
      && (k < 20000 && last && s.broken ==> r == Err(ReadFailed))
      && (k < 20000 && !(last && s.broken) ==>
           && (kind.Create? && kind.target.Err? ==> r == Err(kind.target.error))
           && (Creates(lines[k], db) && !EndsStatement(lines[k]) ==> r == Err(Continues))
           && (kind.Data? || (last && PassedOver(lines[k], db)) ==> r == Err(NoCreate)))
  {
    hide Classify, EndsStatement, EditFrom, RawLines, PassedOver;
    EditFailsFrom(RawLines(s.text), s.broken, HeaderLines, db, "", k);
  }
}
