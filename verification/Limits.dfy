/** The numbers in the code: how many lines of a dump are looked at for its database,
and how long a line may be. */
module Limits {
  import opened GoText
  import opened Dump
  import opened PsqlRun
  import opened Restore
  import opened Openings
  import Provider

  // ----- 20000 lines -----

  /** Lines of a dump that name no database and start no table. */
  ghost predicate Filler(lines: seq<string>) {
    forall j :: 0 <= j < |lines| ==> IsLine(lines[j]) && |lines[j]| <= 4194304 && Classify(lines[j]) == Other
  }

  lemma {:induction false} ScanPastFiller(lines: seq<string>, rest: string, n: nat)
    requires Filler(lines)
    ensures var all, more := ScanLines(Concat(lines) + rest, false), ScanLines(rest, false);
      if n <= |lines| then ScanFrom(all.lines, all.end, n, NoHeader) == Ok(NoHeader)
      else ScanFrom(all.lines, all.end, n, NoHeader) == ScanFrom(more.lines, more.end, n - |lines|, NoHeader)
    decreases |lines|
  {
    hide Classify, ScanFrom, ScanLines, IsLine;
    var all := ScanLines(Concat(lines) + rest, false);
    ScanNotBroken(Concat(lines) + rest);
    ScanStep(all.lines, all.end, n, NoHeader);
    if lines == [] {
      assert Concat(lines) + rest == rest;
    } else if n > 0 {
      var line, tail := lines[0], Concat(lines[1..]);
      assert Concat(lines) + rest == line + (tail + rest);
      assert Filler(lines[1..]) by {
        forall j | 0 <= j < |lines| - 1
          ensures IsLine(lines[1..][j]) && |lines[1..][j]| <= 4194304 && Classify(lines[1..][j]) == Other
        {
          assert lines[1..][j] == lines[j + 1];
        }
      }
      ScanFromLine(line, tail + rest, n, NoHeader);
      ScanPastFiller(lines[1..], rest, n - 1);
    }
  }

  lemma {:induction false} ScanNotBroken(text: string)
    ensures ScanLines(text, false).end != FailsInLast
    decreases |text|
  {
    hide IndexOf;
    var i := IndexOf(text, '\n');
    if i < |text| && i < MaxToken {
      ScanNotBroken(text[i + 1..]);
    }
  }

  /** The header is looked for in the first 20000 lines: a CREATE DATABASE line after
  fewer lines is found, one after 20000 or more is not. */
  lemma ScanStopsAfter20000(lines: seq<string>, db: string, options: string)
    requires Filler(lines) && Provider.PlainName(db) && '\n' !in options && (options == "" || options[0] == ' ')
    requires |db| + |options| + 32 <= 4194304
    ensures HeaderOf(Stream(Concat(lines) + CreateLine(db, options), false)) ==
      Ok(DumpHeader(if |lines| < 20000 then db else "", false))
  {
    hide Classify, ScanFrom, ScanLines, EndsStatement, IsLine, CreateLine, Concat;
    var create := CreateLine(db, options);
    ScanPastFiller(lines, create, HeaderLines);
    if |lines| < 20000 {
      CreateIsScanned(db, options, HeaderLines - |lines|);
    }
  }

  lemma CreateIsScanned(db: string, options: string, n: nat)
    requires Provider.PlainName(db) && '\n' !in options && (options == "" || options[0] == ' ')
    requires |db| + |options| + 32 <= 4194304 && n > 0
    ensures var scan := ScanLines(CreateLine(db, options), false);
      ScanFrom(scan.lines, scan.end, n, NoHeader) == Ok(DumpHeader(db, false))
  {
    hide Classify, ScanFrom, ScanLines, EndsStatement, IsLine, CreateLine;
    var create := CreateLine(db, options);
    CreateLineIsRead(db, options);
    CommandLines(db, options);
    CreateLineLength(db, options);
    assert create + "" == create;
    ScanFromLine(create, "", n, NoHeader);
    NothingLeft(n - 1, DumpHeader(db, false));
  }

  lemma CreateLineLength(db: string, options: string)
    ensures |CreateLine(db, options)| <= |db| + |options| + 32
  {
  }

  lemma NothingLeft(n: nat, h: DumpHeader)
    ensures ScanFrom(ScanLines("", false).lines, ScanLines("", false).end, n, h) == Ok(h)
  {
    ScanLast("", false);
    ScanStep([], AtEnd, n, h);
  }

  /** And the statement is taken out of the first 20000 lines only. */
  lemma EditStopsAfter20000(lines: seq<string>, db: string, options: string)
    requires Filler(lines) && Provider.PlainName(db) && '\n' !in options && (options == "" || options[0] == ' ')
    ensures Edited(Stream(Concat(lines) + CreateLine(db, options), false), db).Ok? <==> |lines| < 20000
  {
    hide Classify, EndsStatement, IsLine, RawLines, Concat, Edited, CreateLine;
    var create := CreateLine(db, options);
    var s, raw := Stream(Concat(lines) + create, false), lines + [create] + [""];
    CreateLineIsRead(db, options);
    CommandLines(db, options);
    RawWithLast(lines, create);
    EditRemovesOneLine(s, db);
    assert raw[|lines|] == create;
    if |lines| < 20000 {
      assert TakenOut(s, db, |lines|) by {
        assert forall j :: 0 <= j < |lines| ==> raw[j] == lines[j];
      }
    } else {
      forall k: nat ensures !TakenOut(s, db, k) {
        assert k < |lines| ==> raw[k] == lines[k];
      }
    }
  }

  lemma RawWithLast(lines: seq<string>, last: string)
    requires IsLine(last) && forall j :: 0 <= j < |lines| ==> IsLine(lines[j])
    ensures RawLines(Concat(lines) + last) == lines + [last] + [""]
  {
    hide IsLine, RawLines, Concat;
    var raw := lines + [last] + [""];
    assert forall j :: 0 <= j < |raw| - 1 ==> raw[j] == if j < |lines| then lines[j] else last;
    ProperLinesRead(raw);
    ConcatAppend(lines + [last], [""]);
    ConcatAppend(lines, [last]);
    ConcatNothing();
    ConcatFirst([last]);
    assert Concat(lines) + last + "" == Concat(lines) + last;
  }

  // ----- 4 MiB -----

  /** A line of a scanned file may have 4194303 bytes before its newline. */
  lemma LinesUpTo4MiB(line: string, rest: string, broken: bool)
    requires '\n' !in line
    ensures var scan := ScanLines(line + "\n" + rest, broken);
      if |line| < 4194304 then scan.lines == [DropCR(line)] + ScanLines(rest, broken).lines
      else scan.lines == [] && scan.Failed()
  {
    hide ScanLines, DropCR;
    ScanLine(line, rest, broken);
  }

  /** A carriage return before the newline is not part of the line. */
  lemma CarriageReturnIsDropped(line: string, rest: string, broken: bool)
    requires '\n' !in line && '\r' !in line && |line| < 4194303
    ensures ScanLines(line + "\r\n" + rest, broken).lines == [line] + ScanLines(rest, broken).lines
  {
    hide ScanLines;
    var full := line + "\r";
    assert line + "\r\n" + rest == full + "\n" + rest;
    ScanLine(full, rest, broken);
    assert full[..|line|] == line;
  }
}
